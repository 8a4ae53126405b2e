/** Which requests are granted, refused and served, by region and mode, and what a mode protects over whole runs. */
module MemoryAccess {
  import opened Octets
  import opened MemorySegments
  import opened MemoryRefinement

  /** A region that holds a whole range of at least one octet. */
  predicate Spans(r: Region, address: nat, length: nat) {
    r.start <= address && length >= 1 && address + length <= r.start + r.size
  }

  // ---------------------------------------------------------------------------
  // Validation
  // ---------------------------------------------------------------------------

  lemma SpannedIsFound(regions: seq<Region>, i: nat, address: nat, length: nat)
    requires Disjoint(regions) && i < |regions| && Spans(regions[i], address, length)
    ensures FindFrom(regions, address, 0) == i && ContainsRange(regions[i], address, length)
  {
    assert Contains(regions[i], address);
    OneRegion(regions, i, FindFrom(regions, address, 0), address);
  }

  /** Some region of one of the modes spans the range. */
  ghost predicate Reached(regions: seq<Region>, address: nat, length: nat, modes: set<Mode>) {
    exists i :: 0 <= i < |regions| && Spans(regions[i], address, length) && regions[i].mode in modes
  }

  /** The modes that permit an access. */
  function ModesFor(access: Access): set<Mode> {
    if access == Read then {ReadOnly, ReadWrite} else {WriteOnly, ReadWrite}
  }

  lemma GrantedIfReached(regions: seq<Region>, address: nat, length: nat, access: Access, max: nat)
    requires Disjoint(regions)
    ensures Validate(regions, address, length, access, max) == Granted <==>
      1 <= length <= max && Reached(regions, address, length, ModesFor(access))
  {
    if i :| 0 <= i < |regions| && Spans(regions[i], address, length) && regions[i].mode in ModesFor(access) {
      SpannedIsFound(regions, i, address, length);
    }
  }

  /**
   * A read is granted exactly if its length is right and some readable region spans it, a write
   * exactly if its length is right and some writable region does.
   */
  lemma GrantedIff(regions: seq<Region>, address: nat, length: nat, max: nat)
    requires Disjoint(regions)
    ensures Validate(regions, address, length, Read, max) == Granted <==>
      && 1 <= length <= max
      && (exists i :: 0 <= i < |regions| && Spans(regions[i], address, length)
            && (regions[i].mode == ReadOnly || regions[i].mode == ReadWrite))
    ensures Validate(regions, address, length, Write, max) == Granted <==>
      && 1 <= length <= max
      && (exists i :: 0 <= i < |regions| && Spans(regions[i], address, length)
            && (regions[i].mode == WriteOnly || regions[i].mode == ReadWrite))
  {
    hide Validate;
    GrantedIfReached(regions, address, length, Read, max);
    GrantedIfReached(regions, address, length, Write, max);
  }

  /** Some region holds the address. */
  ghost predicate Mapped(regions: seq<Region>, address: nat) {
    exists i :: 0 <= i < |regions| && regions[i].start <= address < regions[i].start + regions[i].size
  }

  lemma MappedIff(regions: seq<Region>, address: nat)
    ensures Mapped(regions, address) <==> FindFrom(regions, address, 0) < |regions|
  {
    if i :| 0 <= i < |regions| && regions[i].start <= address < regions[i].start + regions[i].size {
      assert Contains(regions[i], address);
    }
  }

  /** The error of a refused classic request: its length, its address, or the region's mode and end, in this order. */
  lemma ClassicRefusals(m: Memory, r: Request)
    requires Inv(m) && (r.MemoryRead? || r.MemoryWrite?)
    ensures var reply := Serve(m, r).reply;
      && (r.count == 0 || r.count > 63 ==> reply == Failed(InvalidParameter))
      && (1 <= r.count <= 63 && !Mapped(m.regions, r.address) ==> reply == Failed(InvalidAddress))
      && (1 <= r.count <= 63 && Mapped(m.regions, r.address)
          && Validate(m.regions, r.address, r.count, if r.MemoryRead? then Read else Write, 63) != Granted
          ==> reply == Failed(OperationNotSupported))
  {
    MappedIff(m.regions, r.address);
  }

  /** Which return code an extended request gets before its data is looked at. */
  lemma ExtendedCodes(regions: seq<Region>, address: nat, count: nat, access: Access)
    requires Disjoint(regions)
    ensures var code := CheckExtended(regions, address, count, access);
      && (code == ExceedsMaxApduLength <==> count == 0 || count > 248)
      && (code == AddressVoid <==>
            1 <= count <= 248 && (address + count > 0x1_0000 || !Mapped(regions, address)))
      && (code == Success <==> ExtendedReaches(regions, address, count,
            if access == Read then {ReadOnly, ReadWrite} else {WriteOnly, ReadWrite}))
      && (code == AccessWriteOnly <==> access == Read && ExtendedReaches(regions, address, count, {WriteOnly}))
      && (code == AccessReadOnly <==> access == Write && ExtendedReaches(regions, address, count, {ReadOnly}))
  {
    MappedIff(regions, address);
    var k := FindFrom(regions, address, 0);
    if i :| 0 <= i < |regions| && Spans(regions[i], address, count) {
      SpannedIsFound(regions, i, address, count);
    }
    forall i | 0 <= i < |regions| && Spans(regions[i], address, count)
      ensures i == k
    {
      SpannedIsFound(regions, i, address, count);
    }
  }

  /** An extended request of right length that a region of one of the modes spans. */
  ghost predicate ExtendedReaches(regions: seq<Region>, address: nat, count: nat, modes: set<Mode>) {
    1 <= count <= 248 && address + count <= 0x1_0000 && Reached(regions, address, count, modes)
  }

  /** A region is accepted exactly if there is room, it is not empty, and it shares no address with another. */
  lemma AddedIff(regions: seq<Region>, region: Region)
    requires forall i :: 0 <= i < |regions| ==> regions[i].size > 0
    ensures AddRegion(regions, region).Ok? <==>
      && |regions| < 16 && region.size > 0
      && !exists address: nat :: Mapped(regions, address) && region.start <= address < region.start + region.size
  {
    if AddRegion(regions, region).Ok? {
      forall address: nat | Mapped(regions, address) ensures !(region.start <= address < region.start + region.size) {
        var i :| 0 <= i < |regions| && regions[i].start <= address < regions[i].start + regions[i].size;
        assert !Overlaps(regions[i], region);
      }
    } else if |regions| < 16 && region.size > 0 {
      var i :| 0 <= i < |regions| && Overlaps(regions[i], region);
      var shared := if regions[i].start >= region.start then regions[i].start else region.start;
      assert Mapped(regions, shared);
    }
  }

  // ---------------------------------------------------------------------------
  // Service
  // ---------------------------------------------------------------------------

  /** One of the regions that have storage spans the range and has one of the modes. */
  ghost predicate Stored(m: Memory, address: nat, length: nat, modes: set<Mode>) {
    exists i :: 0 <= i < |m.regions| && i < 8 && Spans(m.regions[i], address, length) && m.regions[i].mode in modes
  }

  lemma RoutedIff(m: Memory, address: nat, length: nat)
    requires Inv(m)
    ensures RouteFrom(m.segments, address, length, 0) < |m.segments|
      <==> exists i :: 0 <= i < |m.regions| && i < 8 && Spans(m.regions[i], address, length)
  {
    if i :| 0 <= i < |m.regions| && i < 8 && Spans(m.regions[i], address, length) {
      assert ContainsRange(m.segments[i].region, address, length);
    }
    var k := RouteFrom(m.segments, address, length, 0);
    if k < |m.segments| {
      assert Spans(m.regions[k], address, length);
    }
  }

  lemma OneSpan(m: Memory, address: nat, length: nat, i: nat, j: nat)
    requires Inv(m) && i < |m.regions| && j < |m.regions|
    requires Spans(m.regions[i], address, length) && Spans(m.regions[j], address, length)
    ensures i == j
  {
    SpannedIsFound(m.regions, i, address, length);
    SpannedIsFound(m.regions, j, address, length);
  }

  /** A granted and routed access is one to a region with storage and a suitable mode, and conversely. */
  lemma StoredIff(m: Memory, address: nat, length: nat, modes: set<Mode>)
    requires Inv(m)
    ensures Stored(m, address, length, modes) <==>
      RouteFrom(m.segments, address, length, 0) < |m.segments| && Reached(m.regions, address, length, modes)
  {
    RoutedIff(m, address, length);
    if j :| 0 <= j < |m.regions| && Spans(m.regions[j], address, length) && m.regions[j].mode in modes {
      if i :| 0 <= i < |m.regions| && i < 8 && Spans(m.regions[i], address, length) {
        OneSpan(m, address, length, i, j);
      }
    }
  }

  lemma RouteOkIff(m: Memory, address: nat, data: seq<byte>, length: nat)
    requires StorageFits(m.segments)
    ensures RouteRead(m, address, length).Ok? <==> RouteFrom(m.segments, address, length, 0) < |m.segments|
    ensures RouteWrite(m, address, data).Ok? <==> RouteFrom(m.segments, address, |data|, 0) < |m.segments|
  {
  }

  /** Everything a request's success hangs on, for an access of one kind. */
  lemma SuccessHangsOn(m: Memory, address: nat, count: nat, access: Access, data: seq<byte>)
    requires Inv(m)
    ensures var served := RouteFrom(m.segments, address, count, 0) < |m.segments|;
      var stored := Stored(m, address, count, ModesFor(access));
      && StorageFits(m.segments)
      && (Validate(m.regions, address, count, access, 63) == Granted && served <==> 1 <= count <= 63 && stored)
      && (CheckExtended(m.regions, address, count, access) == Success && served
          <==> 1 <= count <= 248 && address + count <= 0x1_0000 && stored)
      && (RouteRead(m, address, count).Ok? <==> served)
      && (|data| == count ==> (RouteWrite(m, address, data).Ok? <==> served))
  {
    assert Disjoint(m.regions);
    InvFits(m);
    GrantedIfReached(m.regions, address, count, access, 63);
    ExtendedCodes(m.regions, address, count, access);
    StoredIff(m, address, count, ModesFor(access));
    RouteOkIff(m, address, data, count);
    hide *;
  }

  /** Reads succeed exactly if they are short enough and a readable region with storage spans them. */
  lemma ReadSucceedsIff(m: Memory, count: nat, address: nat)
    requires Inv(m)
    ensures Succeeded(Serve(m, MemoryRead(count, address)).reply) <==>
      1 <= count <= 63 && Stored(m, address, count, {ReadOnly, ReadWrite})
    ensures Succeeded(Serve(m, ExtendedRead(count, address)).reply) <==>
      1 <= count <= 248 && address + count <= 0x1_0000 && Stored(m, address, count, {ReadOnly, ReadWrite})
  {
    hide Validate, CheckExtended, Stored, Inv, RouteRead, RouteFrom, StorageFits;
    SuccessHangsOn(m, address, count, Read, []);
  }

  /** Classic writes succeed exactly if they bring their data and a writable region with storage spans them. */
  lemma WriteSucceedsIff(m: Memory, count: nat, address: nat, data: seq<byte>)
    requires Inv(m)
    ensures Succeeded(Serve(m, MemoryWrite(count, address, data)).reply) <==>
      |data| == count && 1 <= count <= 63 && Stored(m, address, count, {WriteOnly, ReadWrite})
  {
    hide Validate, CheckExtended, Stored, Inv, RouteRead, RouteWrite, RouteFrom, StorageFits;
    SuccessHangsOn(m, address, count, Write, data);
    if |data| == count && RouteWrite(m, address, data).Ok? {
      WrittenReadsBack(m, address, data);
    }
  }

  /** Extended writes may bring more data than they count, and end within 64 KiB. */
  lemma ExtendedWriteSucceedsIff(m: Memory, count: nat, address: nat, data: seq<byte>)
    requires Inv(m)
    ensures Succeeded(Serve(m, ExtendedWrite(count, address, data)).reply) <==>
      && |data| >= count && 1 <= count <= 248 && address + count <= 0x1_0000
      && Stored(m, address, count, {WriteOnly, ReadWrite})
  {
    hide Validate, CheckExtended, Stored, Inv, RouteRead, RouteWrite, RouteFrom, StorageFits;
    SuccessHangsOn(m, address, count, Write, if |data| >= count then data[..count] else []);
  }

  /** The answers of the extended services: always a code, and data only from a successful read. */
  lemma ExtendedReplies(m: Memory, r: Request)
    requires Inv(m) && (r.ExtendedRead? || r.ExtendedWrite?)
    ensures var reply := Serve(m, r).reply; var access := if r.ExtendedRead? then Read else Write;
      var code := CheckExtended(m.regions, r.address, r.count, access);
      && reply.Extended?
      && (code != Success ==> reply == Extended(code, []))
      && (code == Success && r.ExtendedWrite? && |r.data| < r.count ==> reply == Extended(ExceedsMaxApduLength, []))
      && (code == Success && !Stored(m, r.address, r.count, ModesFor(access)) && (r.ExtendedWrite? ==> |r.data| >= r.count)
          ==> reply == Extended(if m.segments == [] then GenericError else MemoryError, []))
      && (r.ExtendedWrite? && reply.code == Success ==> reply.data == [])
  {
    var access := if r.ExtendedRead? then Read else Write;
    var data := if r.ExtendedWrite? && |r.data| >= r.count then r.data[..r.count] else [];
    RouteErrors(m, r.address, r.count, data);
    hide CheckExtended, Validate, Stored, Inv, RouteRead, RouteWrite, RouteFrom, StorageFits;
    SuccessHangsOn(m, r.address, r.count, access, data);
  }

  lemma RouteErrors(m: Memory, address: nat, length: nat, data: seq<byte>)
    requires Inv(m)
    ensures StorageFits(m.segments)
    ensures RouteRead(m, address, length).Err? ==>
      RouteRead(m, address, length).error == if m.segments == [] then OperationNotReady else InvalidAddress
    ensures RouteWrite(m, address, data).Err? ==>
      RouteWrite(m, address, data).error == if m.segments == [] then OperationNotReady else InvalidAddress
  {
  }

  /** What a registration answers and leaves behind. */
  lemma RegistrationReplies(m: Memory, region: Region, storage: seq<byte>)
    requires Inv(m)
    ensures var s := Serve(m, Register(region, storage));
      if |storage| < region.size then s == Step(m, Failed(InvalidParameter))
      else if |m.regions| >= 16 then s == Step(m, Failed(ResourceUnavailable))
      else if region.size == 0 then s == Step(m, Failed(InvalidParameter))
      else if exists at: nat :: Mapped(m.regions, at) && region.start <= at < region.start + region.size then
        s == Step(m, Failed(OperationFailed))
      else if |m.regions| >= 8 then s == Step(m.(regions := m.regions + [region]), Failed(ResourceUnavailable))
      else s == Step(Memory(m.regions + [region], m.segments + [Segment(region, storage, false)]), Done)
  {
    AddedIff(m.regions, region);
    hide Mapped;
  }

  // ---------------------------------------------------------------------------
  // Protection over whole runs
  // ---------------------------------------------------------------------------

  /** A successful request puts nothing into a region that is not writable. */
  lemma NothingIsPut(m: Memory, r: Request, k: nat, at: nat)
    requires Inv(m) && k < |m.regions| && Contains(m.regions[k], at)
    requires m.regions[k].mode == ReadOnly || m.regions[k].mode == NoAccess
    requires Succeeded(Serve(m, r).reply)
    ensures LastPut(Puts(r), at) == None
  {
    match r
    case Register(region, storage) =>
      assert !Overlaps(m.regions[k], region);
    case MemoryRead(_, _) =>
    case ExtendedRead(_, _) =>
    case MemoryWrite(count, address, data) =>
      WriteSucceedsIff(m, count, address, data);
      NotSpanned(m, address, count, k, at);
    case ExtendedWrite(count, address, data) =>
      ExtendedWriteSucceedsIff(m, count, address, data);
      NotSpanned(m, address, count, k, at);
  }

  /** A range in a writable region contains no address of another one. */
  lemma NotSpanned(m: Memory, address: nat, count: nat, k: nat, at: nat)
    requires Inv(m) && k < |m.regions| && Contains(m.regions[k], at)
    requires m.regions[k].mode == ReadOnly || m.regions[k].mode == NoAccess
    requires Stored(m, address, count, {WriteOnly, ReadWrite})
    ensures !(address <= at < address + count)
  {
    var i :| 0 <= i < |m.regions| && i < 8 && Spans(m.regions[i], address, count)
      && m.regions[i].mode in {WriteOnly, ReadWrite};
    if address <= at < address + count {
      OneRegion(m.regions, i, k, at);
    }
  }

  lemma RegionsOnlyGrow(m: Memory, r: Request)
    requires Inv(m)
    ensures m.regions <= Serve(m, r).memory.regions
  {
  }

  /**
   * Whatever requests follow, every address of a region registered read-only or without access still
   * holds the octet it was registered with.
   */
  lemma {:induction false} ReadOnlyIsKept(
    before: seq<Request>, region: Region, storage: seq<byte>, later: seq<Request>, at: nat)
    requires region.mode == ReadOnly || region.mode == NoAccess
    requires Serve(Run(before).memory, Register(region, storage)).reply == Done && Contains(region, at)
    ensures |storage| >= region.size
    ensures var m := Run(before + [Register(region, storage)] + later).memory;
      && Peek(m, at) == Some(storage[at - region.start])
      && |Run(before).memory.regions| < |m.regions| && m.regions[|Run(before).memory.regions|] == region
    decreases |later|
  {
    hide Run, Peek, Serve;
    var all := before + [Register(region, storage)] + later;
    if later == [] {
      assert all == before + [Register(region, storage)];
      JustRegistered(before, region, storage, at);
    } else {
      var rest, r := later[..|later| - 1], later[|later| - 1];
      assert all == (before + [Register(region, storage)] + rest) + [r];
      ReadOnlyIsKept(before, region, storage, rest, at);
      KeptByOneMore(before + [Register(region, storage)] + rest, r, |Run(before).memory.regions|, at);
    }
  }

  lemma JustRegistered(before: seq<Request>, region: Region, storage: seq<byte>, at: nat)
    requires Serve(Run(before).memory, Register(region, storage)).reply == Done && Contains(region, at)
    ensures |storage| >= region.size
    ensures var m := Run(before + [Register(region, storage)]).memory;
      && Peek(m, at) == Some(storage[at - region.start])
      && m.regions == Run(before).memory.regions + [region]
  {
    hide Run, Peek;
    RunLast(before, Register(region, storage));
    MemoryIsItsHistory(before, at);
    RegisterKeeps(Run(before).memory, region, storage, at);
  }

  lemma KeptByOneMore(requests: seq<Request>, r: Request, k: nat, at: nat)
    requires var m := Run(requests).memory;
      && k < |m.regions| && Contains(m.regions[k], at)
      && (m.regions[k].mode == ReadOnly || m.regions[k].mode == NoAccess)
    ensures var m, m' := Run(requests).memory, Run(requests + [r]).memory;
      Peek(m', at) == Peek(m, at) && m.regions <= m'.regions
  {
    hide Run, Peek, Serve, Puts;
    var m := Run(requests).memory;
    RunLast(requests, r);
    MemoryIsItsHistory(requests, at);
    RegionsOnlyGrow(m, r);
    ServeIsFlat(m, r, at);
    if Succeeded(Serve(m, r).reply) {
      NothingIsPut(m, r, k, at);
    }
  }

  /** After any run, a successful read returns no octet of a region that is write-only or without access. */
  lemma ReadsStayReadable(requests: seq<Request>, read: Request, k: nat, at: nat)
    requires read.MemoryRead? || read.ExtendedRead?
    requires var m := Run(requests).memory;
      Succeeded(Serve(m, read).reply) && k < |m.regions| && Contains(m.regions[k], at)
    requires read.address <= at < read.address + read.count
    ensures Run(requests).memory.regions[k].mode == ReadOnly || Run(requests).memory.regions[k].mode == ReadWrite
  {
    hide Run;
    var m := Run(requests).memory;
    MemoryIsItsHistory(requests, at);
    ReadSucceedsIff(m, read.count, read.address);
    var i :| 0 <= i < |m.regions| && i < 8 && Spans(m.regions[i], read.address, read.count)
      && m.regions[i].mode in {ReadOnly, ReadWrite};
    OneRegion(m.regions, i, k, at);
  }
}
