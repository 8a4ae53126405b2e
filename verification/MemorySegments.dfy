/**
 * Memory-mapped segments: the region table that validates an access, and the router that serves it
 * from the storage of one segment.
 */
module MemorySegments {
  import opened Octets

  const MAX_REGIONS := 16
  const MAX_SEGMENTS := 8
  const MAX_CLASSIC := 63
  const MAX_EXTENDED := 248

  datatype Mode = ReadOnly | WriteOnly | ReadWrite | NoAccess

  datatype Access = Read | Write

  datatype Region = Region(start: nat, size: nat, mode: Mode)

  datatype Segment = Segment(region: Region, storage: seq<byte>, written: bool)

  predicate Contains(r: Region, address: nat) { r.start <= address < r.start + r.size }

  predicate ContainsRange(r: Region, address: nat, length: nat) {
    length > 0 && Contains(r, address) && address + length <= r.start + r.size
  }

  predicate Overlaps(r: Region, s: Region) { r.start < s.start + s.size && s.start < r.start + r.size }

  // ---------------------------------------------------------------------------
  // Validation
  // ---------------------------------------------------------------------------

  /** Position of the first region that contains an address, or the number of regions. */
  function FindFrom(regions: seq<Region>, address: nat, i: nat): (k: nat)
    requires i <= |regions|
    ensures i <= k <= |regions|
    ensures k < |regions| ==> Contains(regions[k], address)
    ensures forall j :: i <= j < k ==> !Contains(regions[j], address)
    decreases |regions| - i
  {
    if i == |regions| || Contains(regions[i], address) then i else FindFrom(regions, address, i + 1)
  }

  predicate Allows(mode: Mode, access: Access) {
    mode == ReadWrite || (if access == Read then mode == ReadOnly else mode == WriteOnly)
  }

  datatype Verdict = Granted | InvalidLength | RegionNotFound | AccessDenied

  function Validate(regions: seq<Region>, address: nat, length: nat, access: Access, max: nat): Verdict {
    var k := FindFrom(regions, address, 0);
    if length == 0 || length > max then InvalidLength
    else if k == |regions| then RegionNotFound
    else if ContainsRange(regions[k], address, length) && Allows(regions[k].mode, access) then Granted
    else AccessDenied
  }

  function Refusal(v: Verdict): ErrorCode
    requires v != Granted
  {
    match v
    case InvalidLength => InvalidParameter
    case RegionNotFound => InvalidAddress
    case AccessDenied => OperationNotSupported
  }

  // ---------------------------------------------------------------------------
  // Routing
  // ---------------------------------------------------------------------------

  /** Position of the first segment that contains a whole range, or the number of segments. */
  function RouteFrom(segments: seq<Segment>, address: nat, length: nat, i: nat): (k: nat)
    requires i <= |segments|
    ensures i <= k <= |segments|
    ensures k < |segments| ==> ContainsRange(segments[k].region, address, length)
    ensures forall j :: i <= j < k ==> !ContainsRange(segments[j].region, address, length)
    decreases |segments| - i
  {
    if i == |segments| || ContainsRange(segments[i].region, address, length) then i
    else RouteFrom(segments, address, length, i + 1)
  }

  /** Storage with some octets overwritten. */
  function Patch(storage: seq<byte>, offset: nat, data: seq<byte>): (r: seq<byte>)
    requires offset + |data| <= |storage|
    ensures |r| == |storage|
  {
    storage[..offset] + data + storage[offset + |data|..]
  }

  predicate StorageFits(segments: seq<Segment>) {
    forall i :: 0 <= i < |segments| ==> |segments[i].storage| >= segments[i].region.size
  }

  /** A device's memory: the region table and the segments with storage. */
  datatype Memory = Memory(regions: seq<Region>, segments: seq<Segment>)

  function RouteRead(m: Memory, address: nat, length: nat): Result<seq<byte>>
    requires StorageFits(m.segments)
  {
    var k := RouteFrom(m.segments, address, length, 0);
    if m.segments == [] then Err(OperationNotReady)
    else if k == |m.segments| then Err(InvalidAddress)
    else
      var offset := address - m.segments[k].region.start;
      Ok(m.segments[k].storage[offset..offset + length])
  }

  function RouteWrite(m: Memory, address: nat, data: seq<byte>): (r: Result<Memory>)
    requires StorageFits(m.segments)
    ensures r.Ok? ==> StorageFits(r.value.segments) && r.value.regions == m.regions
  {
    var k := RouteFrom(m.segments, address, |data|, 0);
    if m.segments == [] then Err(OperationNotReady)
    else if k == |m.segments| then Err(InvalidAddress)
    else
      var s := m.segments[k];
      var patched := s.(storage := Patch(s.storage, address - s.region.start, data), written := true);
      Ok(m.(segments := m.segments[k := patched]))
  }

  // ---------------------------------------------------------------------------
  // Services
  // ---------------------------------------------------------------------------

  /** A request to the memory services, or the registration of a region with its storage. */
  datatype Request =
    | Register(region: Region, storage: seq<byte>)
    | MemoryRead(count: nat, address: nat)
    | MemoryWrite(count: nat, address: nat, data: seq<byte>)
    | ExtendedRead(count: nat, address: nat)
    | ExtendedWrite(count: nat, address: nat, data: seq<byte>)

  datatype ReturnCode =
    | Success
    | MemoryError
    | ExceedsMaxApduLength
    | AccessWriteOnly
    | AccessReadOnly
    | ExtendedAccessDenied
    | AddressVoid
    | GenericError

  /** Classic services answer only on success; extended services always answer, with a code. */
  datatype Reply = Done | Failed(error: ErrorCode) | Classic(data: seq<byte>) | Extended(code: ReturnCode, data: seq<byte>)

  datatype Step = Step(memory: Memory, reply: Reply)

  predicate Succeeded(reply: Reply) {
    reply.Done? || reply.Classic? || (reply.Extended? && reply.code == Success)
  }

  function AddRegion(regions: seq<Region>, region: Region): Result<seq<Region>> {
    if |regions| >= MAX_REGIONS then Err(ResourceUnavailable)
    else if region.size == 0 then Err(InvalidParameter)
    else if exists i :: 0 <= i < |regions| && Overlaps(regions[i], region) then Err(OperationFailed)
    else Ok(regions + [region])
  }

  function CheckExtended(regions: seq<Region>, address: nat, count: nat, access: Access): ReturnCode {
    if count == 0 || count > MAX_EXTENDED then ExceedsMaxApduLength
    else if address > 0xFFFF || address + count > 0x1_0000 then AddressVoid
    else match Validate(regions, address, count, access, MAX_EXTENDED)
      case Granted => Success
      case InvalidLength => ExceedsMaxApduLength
      case RegionNotFound => AddressVoid
      case AccessDenied =>
        var k := FindFrom(regions, address, 0);
        var mode := if ContainsRange(regions[k], address, count) then regions[k].mode else NoAccess;
        if access == Read && mode == WriteOnly then AccessWriteOnly
        else if access == Write && mode == ReadOnly then AccessReadOnly
        else ExtendedAccessDenied
  }

  /** One request. A region without room for its segment stays in the region table. */
  function Serve(m: Memory, r: Request): (s: Step)
    requires StorageFits(m.segments)
    ensures StorageFits(s.memory.segments)
  {
    match r
    case Register(region, storage) =>
      if |storage| < region.size then Step(m, Failed(InvalidParameter))
      else (match AddRegion(m.regions, region)
        case Err(e) => Step(m, Failed(e))
        case Ok(regions) =>
          if |m.segments| >= MAX_SEGMENTS then Step(m.(regions := regions), Failed(ResourceUnavailable))
          else Step(Memory(regions, m.segments + [Segment(region, storage, false)]), Done))
    case MemoryRead(count, address) =>
      var v := Validate(m.regions, address, count, Read, MAX_CLASSIC);
      if v != Granted then Step(m, Failed(Refusal(v)))
      else (match RouteRead(m, address, count)
        case Err(e) => Step(m, Failed(e))
        case Ok(data) => Step(m, Classic(data)))
    case MemoryWrite(count, address, data) =>
      var v := Validate(m.regions, address, count, Write, MAX_CLASSIC);
      if v != Granted then Step(m, Failed(Refusal(v)))
      else if |data| != count then Step(m, Failed(InvalidParameter))
      else (match RouteWrite(m, address, data)
        case Err(e) => Step(m, Failed(e))
        case Ok(m') =>
          match RouteRead(m', address, count)
          case Err(e) => Step(m', Failed(e))
          case Ok(back) => Step(m', Classic(back)))
    case ExtendedRead(count, address) =>
      var code := CheckExtended(m.regions, address, count, Read);
      if code != Success then Step(m, Extended(code, []))
      else (match RouteRead(m, address, count)
        case Err(e) => Step(m, Extended(if e == OperationNotReady then GenericError else MemoryError, []))
        case Ok(data) => Step(m, Extended(Success, data)))
    case ExtendedWrite(count, address, data) =>
      var code := CheckExtended(m.regions, address, count, Write);
      if code != Success then Step(m, Extended(code, []))
      else if |data| < count then Step(m, Extended(ExceedsMaxApduLength, []))
      else (match RouteWrite(m, address, data[..count])
        case Err(e) => Step(m, Extended(if e == OperationNotReady then GenericError else MemoryError, []))
        case Ok(m') => Step(m', Extended(Success, [])))
  }

  /** The application layer's memory, with the region table and the segment list it updates. */
  class Device {
    var regions: seq<Region>
    var segments: seq<Segment>

    ghost predicate Valid()
      reads this
    {
      StorageFits(segments)
    }

    function State(): Memory
      reads this
    {
      Memory(regions, segments)
    }

    constructor ()
      ensures Valid() && State() == Memory([], [])
    {
      regions, segments := [], [];
    }

    method FindRegion(address: nat) returns (k: nat)
      ensures k == FindFrom(regions, address, 0)
    {
      k := 0;
      while k < |regions|
        invariant k <= |regions| && FindFrom(regions, address, k) == FindFrom(regions, address, 0)
      {
        if Contains(regions[k], address) {
          return;
        }
        k := k + 1;
      }
    }

    method AddressSpaceAdd(region: Region) returns (r: Result<()>)
      modifies this`regions
      ensures match AddRegion(old(regions), region)
        case Ok(added) => r == Ok(()) && regions == added
        case Err(e) => r == Err(e) && regions == old(regions)
    {
      if |regions| >= MAX_REGIONS {
        return Err(ResourceUnavailable);
      }
      if region.size == 0 {
        return Err(InvalidParameter);
      }
      for i := 0 to |regions|
        invariant forall j :: 0 <= j < i ==> !Overlaps(regions[j], region)
      {
        if Overlaps(regions[i], region) {
          return Err(OperationFailed);
        }
      }
      regions := regions + [region];
      return Ok(());
    }

    method RegisterMemoryRegion(region: Region, storage: seq<byte>) returns (r: Result<()>)
      requires Valid()
      modifies this
      ensures Valid()
      ensures var s := Serve(old(State()), Register(region, storage));
        State() == s.memory && r == if s.reply.Done? then Ok(()) else Err(s.reply.error)
    {
      if |storage| < region.size {
        return Err(InvalidParameter);
      }
      var added := AddressSpaceAdd(region);
      if added.Err? {
        return added;
      }
      if |segments| >= MAX_SEGMENTS {
        return Err(ResourceUnavailable);
      }
      segments := segments + [Segment(region, storage, false)];
      return Ok(());
    }

    method FindSegment(address: nat, length: nat) returns (k: nat)
      ensures k == RouteFrom(segments, address, length, 0)
    {
      k := 0;
      while k < |segments|
        invariant k <= |segments|
        invariant RouteFrom(segments, address, length, k) == RouteFrom(segments, address, length, 0)
      {
        if ContainsRange(segments[k].region, address, length) {
          return;
        }
        k := k + 1;
      }
    }

    method ReadCallback(address: nat, length: nat) returns (r: Result<seq<byte>>)
      requires Valid()
      ensures r == RouteRead(State(), address, length)
    {
      if segments == [] {
        return Err(OperationNotReady);
      }
      var k := FindSegment(address, length);
      if k == |segments| {
        return Err(InvalidAddress);
      }
      var offset := address - segments[k].region.start;
      return Ok(segments[k].storage[offset..offset + length]);
    }

    method WriteCallback(address: nat, data: seq<byte>) returns (r: Result<()>)
      requires Valid()
      modifies this`segments
      ensures Valid()
      ensures match RouteWrite(old(State()), address, data)
        case Ok(m) => r == Ok(()) && State() == m
        case Err(e) => r == Err(e) && State() == old(State())
    {
      if segments == [] {
        return Err(OperationNotReady);
      }
      var k := FindSegment(address, |data|);
      if k == |segments| {
        return Err(InvalidAddress);
      }
      var s := segments[k];
      var patched := s.(storage := Patch(s.storage, address - s.region.start, data), written := true);
      segments := segments[k := patched];
      return Ok(());
    }

    method ValidateAccess(address: nat, length: nat, access: Access, max: nat) returns (v: Verdict)
      ensures v == Validate(regions, address, length, access, max)
    {
      if length == 0 || length > max {
        return InvalidLength;
      }
      var k := FindRegion(address);
      if k == |regions| {
        return RegionNotFound;
      }
      return if ContainsRange(regions[k], address, length) && Allows(regions[k].mode, access)
        then Granted else AccessDenied;
    }

    method HandleRead(count: nat, address: nat) returns (reply: Reply)
      requires Valid()
      ensures Step(State(), reply) == Serve(State(), MemoryRead(count, address))
    {
      hide RouteRead, Validate;
      var v := ValidateAccess(address, count, Read, MAX_CLASSIC);
      if v != Granted {
        return Failed(Refusal(v));
      }
      var data := ReadCallback(address, count);
      return if data.Ok? then Classic(data.value) else Failed(data.error);
    }

    method HandleWrite(count: nat, address: nat, data: seq<byte>) returns (reply: Reply)
      requires Valid()
      modifies this`segments
      ensures Valid() && Step(State(), reply) == Serve(old(State()), MemoryWrite(count, address, data))
    {
      hide RouteRead, RouteWrite, Validate;
      var v := ValidateAccess(address, count, Write, MAX_CLASSIC);
      if v != Granted {
        return Failed(Refusal(v));
      }
      if |data| != count {
        return Failed(InvalidParameter);
      }
      var written := WriteCallback(address, data);
      if written.Err? {
        return Failed(written.error);
      }
      var back := ReadCallback(address, count);
      return if back.Ok? then Classic(back.value) else Failed(back.error);
    }

    method HandleExtendedRead(count: nat, address: nat) returns (reply: Reply)
      requires Valid()
      ensures Step(State(), reply) == Serve(State(), ExtendedRead(count, address))
    {
      hide RouteRead, CheckExtended;
      var code := CheckExtended(regions, address, count, Read);
      if code != Success {
        return Extended(code, []);
      }
      var data := ReadCallback(address, count);
      return match data
        case Ok(octets) => Extended(Success, octets)
        case Err(e) => Extended(if e == OperationNotReady then GenericError else MemoryError, []);
    }

    method HandleExtendedWrite(count: nat, address: nat, data: seq<byte>) returns (reply: Reply)
      requires Valid()
      modifies this`segments
      ensures Valid() && Step(State(), reply) == Serve(old(State()), ExtendedWrite(count, address, data))
    {
      hide RouteWrite, CheckExtended;
      var code := CheckExtended(regions, address, count, Write);
      if code == Success && |data| < count {
        code := ExceedsMaxApduLength;
      }
      if code != Success {
        return Extended(code, []);
      }
      var written := WriteCallback(address, data[..count]);
      return match written
        case Ok(_) => Extended(Success, [])
        case Err(e) => Extended(if e == OperationNotReady then GenericError else MemoryError, []);
    }
  }
}
