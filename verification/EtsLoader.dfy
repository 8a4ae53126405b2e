/** The configuration loader: validation, parsing into its tables, and saving through a moving offset. */
module EtsLoader {
  import opened Octets
  import opened Crc
  import opened EtsFormat
  import opened EtsRoundTrip

  datatype Level = NoValidation | ChecksumOnly | Full

  ghost predicate Passes(buffer: seq<byte>, level: Level) {
    match level
    case NoValidation => true
    case ChecksumOnly => DetectVersion(buffer) == 1 && Validates(buffer)
    case Full => Validates(buffer)
  }

  /** What stops a save: a section that does not fit the buffer, or does not fit its size field. */
  function SaveError(c: Config, length: nat): Option<ErrorCode> {
    var a := HEADER_SIZE + DEVICE_SIZE + |AddressTable(c)|;
    var s := a + |AssociationTable(c)|;
    if length < HEADER_SIZE + DEVICE_SIZE || length < a then Some(BufferTooSmall)
    else if |AddressTable(c)| > MAX_SECTION then Some(InvalidFrameSize)
    else if length < s then Some(BufferTooSmall)
    else if |AssociationTable(c)| > MAX_SECTION then Some(InvalidFrameSize)
    else if length < s + |ObjectTable(c)| then Some(BufferTooSmall)
    else if |ObjectTable(c)| > MAX_SECTION then Some(InvalidFrameSize)
    else None
  }

  method ValidateFull(buffer: seq<byte>) returns (valid: bool)
    ensures valid == Validates(buffer)
  {
    hide Crc16Bits, Crc32Bits, MakeWord, MakeDword;
    valid := false;
    if |buffer| < HEADER_SIZE || !HasMagic(buffer) || DetectVersion(buffer) != 1 {
      return;
    }
    var headerCrc := Crc16Ccitt(buffer[..6]);
    if StoredHeaderCrc(buffer) != headerCrc {
      return;
    }
    if |buffer| > HEADER_SIZE {
      var payloadCrc := Crc32(buffer[HEADER_SIZE..]);
      if StoredPayloadCrc(buffer) != payloadCrc {
        return;
      }
    }
    valid := true;
  }

  lemma AddressTableGrows(t: seq<AddressEntry>, i: nat)
    requires i < |t|
    ensures Counted(|t|, AddressOctets(t[..i + 1])) == Counted(|t|, AddressOctets(t[..i])) + WordOctets(t[i].group)
  {
    hide WordOctets;
    assert t[..i + 1][..i] == t[..i];
  }

  lemma AssociationTableGrows(t: seq<Association>, i: nat)
    requires i < |t|
    ensures Counted(|t|, AssociationOctets(t[..i + 1]))
         == Counted(|t|, AssociationOctets(t[..i])) + [LowByte(t[i].objectIndex), t[i].priority]
  {
    hide WordOctets, LowByte;
    assert t[..i + 1][..i] == t[..i];
  }

  lemma ObjectTableGrows(t: seq<GroupConfig>, i: nat)
    requires i < |t|
    ensures Counted(|t|, ObjectOctets(t[..i + 1])) == Counted(|t|, ObjectOctets(t[..i])) + ObjectRecord(t[i])
  {
    hide WordOctets, ObjectRecord;
    assert t[..i + 1][..i] == t[..i];
  }

  class Loader {
    var device: Device
    var addresses: seq<AddressEntry>
    var associations: seq<Association>
    var objects: seq<GroupConfig>
    var valid: bool
    var version: byte

    function Contents(): Config
      reads this
    {
      Config(device, addresses, associations, objects)
    }

    ghost predicate Invariant()
      reads this
    {
      Canonical(Contents()) && (valid ==> objects != [] || addresses != [])
    }

    constructor ()
      ensures Contents() == EMPTY && !valid && Invariant()
    {
      device, addresses, associations, objects := EMPTY.device, [], [], [];
      valid, version := false, 0;
    }

    method ParseAddressTable(buffer: seq<byte>, offset: nat) returns (ok: bool)
      modifies this`addresses
      ensures ok == TableInside(buffer, offset, 2)
      ensures addresses ==
        if ok then AddressesAt(buffer, offset + 2, CountAt(buffer, offset)) else old(addresses)
    {
      hide CountAt, WordAt, Asap;
      if !TableInside(buffer, offset, 2) {
        return false;
      }
      var count, at := CountAt(buffer, offset), offset + 2;
      addresses := [];
      for i := 0 to count
        invariant at == offset + 2 + 2 * i
        invariant addresses == AddressesAt(buffer, offset + 2, count)[..i]
      {
        addresses := addresses + [AddressEntry(WordAt(buffer, at), Asap(i))];
        at := at + 2;
      }
      return true;
    }

    method ParseAssociationTable(buffer: seq<byte>, offset: nat) returns (ok: bool)
      modifies this`associations
      ensures ok == TableInside(buffer, offset, 2)
      ensures associations ==
        if ok then AssociationsAt(buffer, offset + 2, CountAt(buffer, offset)) else old(associations)
    {
      hide CountAt, MakeWord, Asap;
      if !TableInside(buffer, offset, 2) {
        return false;
      }
      var count, at := CountAt(buffer, offset), offset + 2;
      associations := [];
      for i := 0 to count
        invariant at == offset + 2 + 2 * i
        invariant associations == AssociationsAt(buffer, offset + 2, count)[..i]
      {
        associations := associations + [Association(Asap(i), MakeWord(0, buffer[at]), buffer[at + 1])];
        at := at + 2;
      }
      return true;
    }

    method ParseObjectTable(buffer: seq<byte>, offset: nat) returns (ok: bool)
      modifies this`objects
      ensures ok == TableInside(buffer, offset, 5)
      ensures objects == if ok then ObjectsAt(buffer, offset + 2, CountAt(buffer, offset)) else old(objects)
    {
      hide CountAt, WordAt, ObjectIndex;
      if !TableInside(buffer, offset, 5) {
        return false;
      }
      var count, at := CountAt(buffer, offset), offset + 2;
      objects := [];
      for i := 0 to count
        invariant at == offset + 2 + 5 * i
        invariant objects == ObjectsAt(buffer, offset + 2, count)[..i]
      {
        objects := objects + [GroupConfig(ObjectIndex(i), WordAt(buffer, at), buffer[at + 2], WordAt(buffer, at + 3))];
        at := at + 5;
      }
      return true;
    }

    method ParseVersionedFormat(buffer: seq<byte>) returns (ok: bool)
      modifies this`device, this`addresses, this`associations, this`objects
      ensures ok == Parse(old(Contents()), buffer).ok
      ensures Contents() == Parse(old(Contents()), buffer).config
    {
      hide TableInside, DeviceAt, AddressesAt, AssociationsAt, ObjectsAt, CountAt;
      if |buffer| < HEADER_SIZE {
        return false;
      }
      var offset := HEADER_SIZE;
      var size := CountAt(buffer, 12);
      if size > 0 && offset + size <= |buffer| {
        if offset + DEVICE_SIZE > |buffer| {
          return false;
        }
        device := DeviceAt(buffer, offset);
        offset := offset + size;
      }
      size := CountAt(buffer, 14);
      if size > 0 && offset < |buffer| {
        ok := ParseAddressTable(buffer, offset);
        if !ok {
          return;
        }
        offset := offset + size;
      }
      size := CountAt(buffer, 16);
      if size > 0 && offset < |buffer| {
        ok := ParseAssociationTable(buffer, offset);
        if !ok {
          return;
        }
        offset := offset + size;
      }
      size := CountAt(buffer, 18);
      if size > 0 && offset < |buffer| {
        ok := ParseObjectTable(buffer, offset);
        if !ok {
          return;
        }
      }
      return !(objects == [] && addresses == []);
    }

    method LoadFromBuffer(buffer: seq<byte>, level: Level) returns (r: Result<()>)
      requires Invariant()
      modifies this
      ensures Invariant()
      ensures buffer == [] ==> r == Err(InvalidParameter)
      ensures buffer != [] && !Passes(buffer, level) ==> r == Err(DecodeFailed)
      ensures buffer != [] && Passes(buffer, level) && DetectVersion(buffer) != 1 ==>
        r == Err(if DetectVersion(buffer) == 0 then DecodeFailed else OperationNotSupported)
      ensures buffer == [] || !Passes(buffer, level) || DetectVersion(buffer) != 1 ==>
        Contents() == old(Contents()) && valid == old(valid)
      ensures buffer != [] && Passes(buffer, level) && DetectVersion(buffer) == 1 ==>
        var p := Parse(old(Contents()), buffer);
        r == (if p.ok then Ok(()) else Err(DecodeFailed)) && Contents() == p.config && valid == p.ok
    {
      hide Parse, Validates;
      if buffer == [] {
        return Err(InvalidParameter);
      }
      if level != NoValidation {
        if level == ChecksumOnly && DetectVersion(buffer) != 1 {
          return Err(DecodeFailed);
        }
        var passed := ValidateFull(buffer);
        if !passed {
          return Err(DecodeFailed);
        }
      }
      version := DetectVersion(buffer);
      if version != 1 {
        return Err(if version == 0 then DecodeFailed else OperationNotSupported);
      }
      LoadsAreCanonical(Contents(), buffer);
      valid := ParseVersionedFormat(buffer);
      return if valid then Ok(()) else Err(DecodeFailed);
    }

    method WriteAddressTable(buffer: array<byte>, offset: nat) returns (end: nat)
      requires offset + |AddressTable(Contents())| <= buffer.Length
      modifies buffer
      ensures end == offset + |AddressTable(Contents())|
      ensures buffer[..end] == old(buffer[..offset]) + AddressTable(Contents())
    {
      hide WordOctets, ToWord;
      ghost var before := buffer[..offset];
      assert before == before + [];
      end := Append(buffer, offset, WordOctets(ToWord(|addresses|)), before, []);
      assert Counted(|addresses|, AddressOctets(addresses[..0]))
        == [] + WordOctets(ToWord(|addresses|));
      hide Counted, AddressOctets;
      for i := 0 to |addresses|
        invariant end == offset + |Counted(|addresses|, AddressOctets(addresses[..i]))|
        invariant buffer[..end] == before + Counted(|addresses|, AddressOctets(addresses[..i]))
      {
        AddressTableGrows(addresses, i);
        end := Append(buffer, end, WordOctets(addresses[i].group),
          before, Counted(|addresses|, AddressOctets(addresses[..i])));
      }
      assert addresses[..|addresses|] == addresses;
    }

    method WriteAssociationTable(buffer: array<byte>, offset: nat) returns (end: nat)
      requires offset + |AssociationTable(Contents())| <= buffer.Length
      modifies buffer
      ensures end == offset + |AssociationTable(Contents())|
      ensures buffer[..end] == old(buffer[..offset]) + AssociationTable(Contents())
    {
      hide WordOctets, ToWord, LowByte;
      ghost var before := buffer[..offset];
      assert before == before + [];
      end := Append(buffer, offset, WordOctets(ToWord(|associations|)), before, []);
      assert Counted(|associations|, AssociationOctets(associations[..0]))
        == [] + WordOctets(ToWord(|associations|));
      hide Counted, AssociationOctets;
      for i := 0 to |associations|
        invariant end == offset + |Counted(|associations|, AssociationOctets(associations[..i]))|
        invariant buffer[..end] == before + Counted(|associations|, AssociationOctets(associations[..i]))
      {
        AssociationTableGrows(associations, i);
        end := Append(buffer, end, [LowByte(associations[i].objectIndex), associations[i].priority],
          before, Counted(|associations|, AssociationOctets(associations[..i])));
      }
      assert associations[..|associations|] == associations;
    }

    method WriteObjectTable(buffer: array<byte>, offset: nat) returns (end: nat)
      requires offset + |ObjectTable(Contents())| <= buffer.Length
      modifies buffer
      ensures end == offset + |ObjectTable(Contents())|
      ensures buffer[..end] == old(buffer[..offset]) + ObjectTable(Contents())
    {
      hide WordOctets, ToWord, ObjectRecord;
      ghost var before := buffer[..offset];
      assert before == before + [];
      end := Append(buffer, offset, WordOctets(ToWord(|objects|)), before, []);
      assert Counted(|objects|, ObjectOctets(objects[..0]))
        == [] + WordOctets(ToWord(|objects|));
      hide Counted, ObjectOctets;
      for i := 0 to |objects|
        invariant end == offset + |Counted(|objects|, ObjectOctets(objects[..i]))|
        invariant buffer[..end] == before + Counted(|objects|, ObjectOctets(objects[..i]))
      {
        ObjectTableGrows(objects, i);
        end := Append(buffer, end, ObjectRecord(objects[i]),
          before, Counted(|objects|, ObjectOctets(objects[..i])));
      }
      assert objects[..|objects|] == objects;
    }

    /** Writes the four sections behind a gap for the header. */
    method WritePayload(buffer: array<byte>) returns (r: Result<nat>)
      modifies buffer
      ensures r == match SaveError(Contents(), buffer.Length)
        case Some(e) => Err(e)
        case None => Ok(RequiredSize(Contents()))
      ensures r.Ok? ==> HEADER_SIZE <= r.value <= buffer.Length && buffer[HEADER_SIZE..r.value] == Payload(Contents())
    {
      hide DeviceOctets, AddressOctets, AssociationOctets, ObjectOctets, WordOctets, Counted;
      if buffer.Length < HEADER_SIZE + DEVICE_SIZE {
        return Err(BufferTooSmall);
      }
      ghost var gap := buffer[..HEADER_SIZE];
      var c := Contents();
      var offset := CopyInto(buffer, HEADER_SIZE, DeviceOctets(device));
      if offset + |AddressTable(c)| > buffer.Length {
        return Err(BufferTooSmall);
      }
      offset := WriteAddressTable(buffer, offset);
      if |AddressTable(c)| > MAX_SECTION {
        return Err(InvalidFrameSize);
      }
      if offset + |AssociationTable(c)| > buffer.Length {
        return Err(BufferTooSmall);
      }
      offset := WriteAssociationTable(buffer, offset);
      if |AssociationTable(c)| > MAX_SECTION {
        return Err(InvalidFrameSize);
      }
      if offset + |ObjectTable(c)| > buffer.Length {
        return Err(BufferTooSmall);
      }
      offset := WriteObjectTable(buffer, offset);
      if |ObjectTable(c)| > MAX_SECTION {
        return Err(InvalidFrameSize);
      }
      assert buffer[..offset] == gap + Payload(c);
      assert buffer[HEADER_SIZE..offset] == buffer[..offset][HEADER_SIZE..] == Payload(c);
      return Ok(offset);
    }

    method SaveToBuffer(buffer: array<byte>) returns (r: Result<nat>)
      requires Invariant()
      modifies buffer
      ensures !valid ==> r == Err(NotInitialized)
      ensures valid ==> r == match SaveError(Contents(), buffer.Length)
        case Some(e) => Err(e)
        case None => Ok(RequiredSize(Contents()))
      ensures r.Ok? ==> Savable(Contents()) && r.value <= buffer.Length && buffer[..r.value] == Serialized(Contents())
    {
      hide Payload, SizeFields, Crc16Bits, Crc32Bits, WordOctets, DwordOctets, AddressTable, AssociationTable,
        ObjectTable;
      if !valid {
        return Err(NotInitialized);
      }
      r := WritePayload(buffer);
      if r.Err? {
        return;
      }
      var c := Contents();
      var payloadCrc := Crc32(buffer[HEADER_SIZE..r.value]);
      var headerCrc := Crc16Ccitt(PREAMBLE);
      var end := CopyInto(buffer, 0, Header(c, headerCrc, payloadCrc));
      assert buffer[..r.value] == buffer[..end] + buffer[HEADER_SIZE..r.value];
    }
  }

  /** With a buffer of exactly the required size only the size fields can refuse. */
  lemma ExactBufferSaves(c: Config)
    ensures SaveError(c, RequiredSize(c)) == if Savable(c) then None else Some(InvalidFrameSize)
  {
  }

  /** The two levels that validate accept the same buffers, all of version 1; the third accepts every buffer. */
  lemma LevelsAgree(buffer: seq<byte>)
    ensures Passes(buffer, NoValidation)
    ensures Passes(buffer, Full) == Passes(buffer, ChecksumOnly) == Validates(buffer)
  {
  }

  lemma ValidatedVersion(buffer: seq<byte>)
    requires Validates(buffer)
    ensures buffer != [] && DetectVersion(buffer) == 1
  {
  }

  /**
   * A loaded configuration saved into a buffer of exactly the required size fills it, and a fresh
   * loader with full validation reads the same configuration from it.
   */
  method CopyByContainer(source: Loader) returns (copy: Loader, saved: Result<nat>)
    requires source.Invariant() && source.valid
    ensures saved == if Savable(source.Contents()) then Ok(RequiredSize(source.Contents())) else Err(InvalidFrameSize)
    ensures saved.Ok? ==> copy.valid && copy.Contents() == source.Contents()
  {
    hide Parse, Validates, Serialized, Savable, Canonical, SaveError, RequiredSize;
    var c := source.Contents();
    ExactBufferSaves(c);
    var buffer := new byte[RequiredSize(c)];
    saved := source.SaveToBuffer(buffer);
    copy := new Loader();
    if saved.Ok? {
      SaveThenLoad(c, EMPTY);
      ValidatedVersion(Serialized(c));
      assert buffer[..saved.value] == buffer[..];
      var loaded := copy.LoadFromBuffer(buffer[..], Full);
    }
  }
}
