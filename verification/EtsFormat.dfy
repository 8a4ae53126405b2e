/** The version 1 configuration container: layout, validation and parsing. */
module EtsFormat {
  import opened Octets
  import opened Crc

  const HEADER_SIZE := 20
  const DEVICE_SIZE := 10
  const MAX_SECTION := 0xFFFF

  datatype Device = Device(
    individualAddress: word,
    manufacturer: word,
    serial: dword,
    appVersion: byte,
    configured: byte)

  datatype AddressEntry = AddressEntry(group: word, asap: byte)

  datatype Association = Association(asap: byte, objectIndex: word, priority: byte)

  datatype GroupConfig = GroupConfig(index: word, dpt: word, flags: byte, initial: word)

  datatype Config = Config(
    device: Device,
    addresses: seq<AddressEntry>,
    associations: seq<Association>,
    objects: seq<GroupConfig>)

  /** The contents of a loader before any load. */
  const EMPTY := Config(Device(0, 0, 0, 0, 0), [], [], [])

  /** An implicit 8-bit index: the position modulo 256. */
  function Asap(i: nat): byte { (i % 0x100) as byte }

  /** An implicit 16-bit index. */
  function ObjectIndex(i: nat): word { ToWord(i) }

  // ---------------------------------------------------------------------------
  // Writing
  // ---------------------------------------------------------------------------

  function DeviceOctets(d: Device): (r: seq<byte>)
    ensures |r| == DEVICE_SIZE
  {
    WordOctets(d.individualAddress) + WordOctets(d.manufacturer) + DwordOctets(d.serial)
    + [d.appVersion, d.configured]
  }

  function AddressOctets(t: seq<AddressEntry>): (r: seq<byte>)
    ensures |r| == 2 * |t|
  {
    if t == [] then [] else AddressOctets(t[..|t| - 1]) + WordOctets(t[|t| - 1].group)
  }

  function AssociationOctets(t: seq<Association>): (r: seq<byte>)
    ensures |r| == 2 * |t|
  {
    if t == [] then []
    else AssociationOctets(t[..|t| - 1]) + [LowByte(t[|t| - 1].objectIndex), t[|t| - 1].priority]
  }

  function ObjectRecord(o: GroupConfig): (r: seq<byte>)
    ensures |r| == 5
  {
    WordOctets(o.dpt) + [o.flags] + WordOctets(o.initial)
  }

  function ObjectOctets(t: seq<GroupConfig>): (r: seq<byte>)
    ensures |r| == 5 * |t|
  {
    if t == [] then [] else ObjectOctets(t[..|t| - 1]) + ObjectRecord(t[|t| - 1])
  }

  /** Every table begins with its number of entries, truncated to 16 bits. */
  function Counted(count: nat, octets: seq<byte>): (r: seq<byte>)
    ensures |r| == 2 + |octets|
  {
    WordOctets(ToWord(count)) + octets
  }

  function AddressTable(c: Config): seq<byte> { Counted(|c.addresses|, AddressOctets(c.addresses)) }

  function AssociationTable(c: Config): seq<byte> { Counted(|c.associations|, AssociationOctets(c.associations)) }

  function ObjectTable(c: Config): seq<byte> { Counted(|c.objects|, ObjectOctets(c.objects)) }

  function Payload(c: Config): (r: seq<byte>)
    ensures |r| == DEVICE_SIZE + |AddressTable(c)| + |AssociationTable(c)| + |ObjectTable(c)|
  {
    DeviceOctets(c.device) + AddressTable(c) + AssociationTable(c) + ObjectTable(c)
  }

  /** The six octets under the header checksum: magic, version and three zero octets. */
  const PREAMBLE: seq<byte> := [0xAE, 0xDD, 1, 0, 0, 0]

  /** Section sizes that fit their 16-bit header fields. */
  predicate Savable(c: Config) {
    && |AddressTable(c)| <= MAX_SECTION
    && |AssociationTable(c)| <= MAX_SECTION
    && |ObjectTable(c)| <= MAX_SECTION
  }

  function SizeFields(c: Config): (r: seq<byte>)
    requires Savable(c)
    ensures |r| == 8
  {
    WordOctets(ToWord(DEVICE_SIZE)) + WordOctets(ToWord(|AddressTable(c)|))
    + WordOctets(ToWord(|AssociationTable(c)|)) + WordOctets(ToWord(|ObjectTable(c)|))
  }

  /** The header for given checksums. */
  function Header(c: Config, headerCrc: word, payloadCrc: dword): (r: seq<byte>)
    requires Savable(c)
    ensures |r| == HEADER_SIZE
  {
    PREAMBLE + WordOctets(headerCrc) + DwordOctets(payloadCrc) + SizeFields(c)
  }

  /** The whole container. */
  ghost function Serialized(c: Config): (r: seq<byte>)
    requires Savable(c)
    ensures |r| == RequiredSize(c)
  {
    Header(c, Crc16Bits(PREAMBLE), Crc32Bits(Payload(c))) + Payload(c)
  }

  function RequiredSize(c: Config): nat {
    HEADER_SIZE + DEVICE_SIZE + (2 + 2 * |c.addresses|) + (2 + 2 * |c.associations|) + (2 + 5 * |c.objects|)
  }

  // ---------------------------------------------------------------------------
  // Validation
  // ---------------------------------------------------------------------------

  predicate HasMagic(buffer: seq<byte>) { |buffer| >= 2 && buffer[0] == 0xAE && buffer[1] == 0xDD }

  /** 0 for an unknown format. */
  function DetectVersion(buffer: seq<byte>): byte {
    if |buffer| >= 3 && HasMagic(buffer) then buffer[2] else 0
  }

  function StoredHeaderCrc(buffer: seq<byte>): word
    requires |buffer| >= HEADER_SIZE
  {
    MakeWord(buffer[6], buffer[7])
  }

  function StoredPayloadCrc(buffer: seq<byte>): dword
    requires |buffer| >= HEADER_SIZE
  {
    MakeDword(buffer[8], buffer[9], buffer[10], buffer[11])
  }

  /** Full validation. */
  ghost predicate Validates(buffer: seq<byte>) {
    && |buffer| >= HEADER_SIZE
    && HasMagic(buffer)
    && DetectVersion(buffer) == 1
    && StoredHeaderCrc(buffer) == Crc16Bits(buffer[..6])
    && (|buffer| > HEADER_SIZE ==> StoredPayloadCrc(buffer) == Crc32Bits(buffer[HEADER_SIZE..]))
  }

  // ---------------------------------------------------------------------------
  // Parsing
  // ---------------------------------------------------------------------------

  function WordAt(buffer: seq<byte>, at: nat): word
    requires at + 2 <= |buffer|
  {
    MakeWord(buffer[at], buffer[at + 1])
  }

  function CountAt(buffer: seq<byte>, at: nat): nat
    requires at + 2 <= |buffer|
  {
    WordAt(buffer, at) as nat
  }

  /** A counted table of fixed-size entries lies inside the buffer. */
  predicate TableInside(buffer: seq<byte>, at: nat, width: nat) {
    at + 2 <= |buffer| && at + 2 + CountAt(buffer, at) * width <= |buffer|
  }

  function DeviceAt(buffer: seq<byte>, at: nat): Device
    requires at + DEVICE_SIZE <= |buffer|
  {
    Device(WordAt(buffer, at), WordAt(buffer, at + 2),
      MakeDword(buffer[at + 4], buffer[at + 5], buffer[at + 6], buffer[at + 7]), buffer[at + 8], buffer[at + 9])
  }

  function AddressesAt(buffer: seq<byte>, at: nat, count: nat): seq<AddressEntry>
    requires at + 2 * count <= |buffer|
  {
    seq(count, i requires 0 <= i < count => AddressEntry(WordAt(buffer, at + 2 * i), Asap(i)))
  }

  function AssociationsAt(buffer: seq<byte>, at: nat, count: nat): seq<Association>
    requires at + 2 * count <= |buffer|
  {
    seq(count, i requires 0 <= i < count =>
      Association(Asap(i), MakeWord(0, buffer[at + 2 * i]), buffer[at + 2 * i + 1]))
  }

  function ObjectsAt(buffer: seq<byte>, at: nat, count: nat): seq<GroupConfig>
    requires at + 5 * count <= |buffer|
  {
    seq(count, i requires 0 <= i < count =>
      GroupConfig(ObjectIndex(i), WordAt(buffer, at + 5 * i), buffer[at + 5 * i + 2], WordAt(buffer, at + 5 * i + 3)))
  }

  /** A loader's tables after some sections, and the first error met. */
  datatype Parsed = Parsed(config: Config, offset: nat, ok: bool)

  function ParseDevice(buffer: seq<byte>, size: nat, p: Parsed): Parsed {
    if !p.ok || size == 0 || p.offset + size > |buffer| then p
    else if p.offset + DEVICE_SIZE > |buffer| then p.(ok := false)
    else p.(config := p.config.(device := DeviceAt(buffer, p.offset)), offset := p.offset + size)
  }

  function ParseAddresses(buffer: seq<byte>, size: nat, p: Parsed): Parsed {
    if !p.ok || size == 0 || p.offset >= |buffer| then p
    else if !TableInside(buffer, p.offset, 2) then p.(ok := false)
    else
      var table := AddressesAt(buffer, p.offset + 2, CountAt(buffer, p.offset));
      p.(config := p.config.(addresses := table), offset := p.offset + size)
  }

  function ParseAssociations(buffer: seq<byte>, size: nat, p: Parsed): Parsed {
    if !p.ok || size == 0 || p.offset >= |buffer| then p
    else if !TableInside(buffer, p.offset, 2) then p.(ok := false)
    else
      var table := AssociationsAt(buffer, p.offset + 2, CountAt(buffer, p.offset));
      p.(config := p.config.(associations := table), offset := p.offset + size)
  }

  function ParseObjects(buffer: seq<byte>, size: nat, p: Parsed): Parsed {
    if !p.ok || size == 0 || p.offset >= |buffer| then p
    else if !TableInside(buffer, p.offset, 5) then p.(ok := false)
    else
      var table := ObjectsAt(buffer, p.offset + 2, CountAt(buffer, p.offset));
      p.(config := p.config.(objects := table), offset := p.offset + size)
  }

  function Finished(p: Parsed): Parsed {
    p.(ok := p.ok && !(p.config.objects == [] && p.config.addresses == []))
  }

  /** The parse of a buffer on top of a loader's previous contents; skipped sections keep those. */
  function Parse(before: Config, buffer: seq<byte>): Parsed {
    if |buffer| < HEADER_SIZE then Parsed(before, 0, false)
    else
      var p := ParseDevice(buffer, CountAt(buffer, 12), Parsed(before, HEADER_SIZE, true));
      var q := ParseAddresses(buffer, CountAt(buffer, 14), p);
      var r := ParseAssociations(buffer, CountAt(buffer, 16), q);
      Finished(ParseObjects(buffer, CountAt(buffer, 18), r))
  }

  // ---------------------------------------------------------------------------
  // What a load can produce
  // ---------------------------------------------------------------------------

  /** Implicit indices equal positions, and object indices of associations fit one octet. */
  ghost predicate Canonical(c: Config) {
    && |c.addresses| <= 0xFFFF && |c.associations| <= 0xFFFF && |c.objects| <= 0xFFFF
    && (forall i :: 0 <= i < |c.addresses| ==> c.addresses[i].asap == Asap(i))
    && (forall i :: 0 <= i < |c.associations| ==>
          c.associations[i].asap == Asap(i) && HighByte(c.associations[i].objectIndex) == 0)
    && (forall i :: 0 <= i < |c.objects| ==> c.objects[i].index == ObjectIndex(i))
  }

  lemma AddressesAreCanonical(buffer: seq<byte>, size: nat, p: Parsed)
    requires Canonical(p.config)
    ensures Canonical(ParseAddresses(buffer, size, p).config)
  {
    hide MakeWord, HighByte, Asap;
  }

  lemma AssociationsAreCanonical(buffer: seq<byte>, size: nat, p: Parsed)
    requires Canonical(p.config)
    ensures Canonical(ParseAssociations(buffer, size, p).config)
  {
    hide MakeWord, HighByte, Asap;
    forall b: byte
      ensures HighByte(MakeWord(0, b)) == 0
    {
      JoinThenSplit(0, b);
    }
  }

  lemma ObjectsAreCanonical(buffer: seq<byte>, size: nat, p: Parsed)
    requires Canonical(p.config)
    ensures Canonical(ParseObjects(buffer, size, p).config)
  {
    hide MakeWord, HighByte, Asap, ObjectIndex;
  }

  /** Every load on top of canonical contents leaves canonical contents, even a failing one. */
  lemma LoadsAreCanonical(before: Config, buffer: seq<byte>)
    requires Canonical(before)
    ensures Canonical(Parse(before, buffer).config)
    ensures Parse(before, buffer).ok ==>
      Parse(before, buffer).config.objects != [] || Parse(before, buffer).config.addresses != []
  {
    if |buffer| >= HEADER_SIZE {
      var p := ParseDevice(buffer, CountAt(buffer, 12), Parsed(before, HEADER_SIZE, true));
      var q := ParseAddresses(buffer, CountAt(buffer, 14), p);
      var r := ParseAssociations(buffer, CountAt(buffer, 16), q);
      assert Canonical(p.config);
      hide Canonical, ParseDevice, ParseAddresses, ParseAssociations, ParseObjects, CountAt;
      AddressesAreCanonical(buffer, CountAt(buffer, 14), p);
      AssociationsAreCanonical(buffer, CountAt(buffer, 16), q);
      ObjectsAreCanonical(buffer, CountAt(buffer, 18), r);
    }
  }

  // ---------------------------------------------------------------------------
  // Reading back what was written
  // ---------------------------------------------------------------------------

  /** `octets` is what the buffer holds at `at`. */
  predicate Holds(buffer: seq<byte>, at: nat, octets: seq<byte>) {
    at + |octets| <= |buffer| && buffer[at..at + |octets|] == octets
  }

  lemma HoldsParts(buffer: seq<byte>, at: nat, a: seq<byte>, b: seq<byte>)
    requires Holds(buffer, at, a + b)
    ensures Holds(buffer, at, a) && Holds(buffer, at + |a|, b)
  {
    assert buffer[at..at + |a|] == (a + b)[..|a|] == a;
    assert buffer[at + |a|..at + |a| + |b|] == (a + b)[|a|..] == b;
  }

  lemma HoldsOctet(buffer: seq<byte>, at: nat, octets: seq<byte>, i: nat)
    requires Holds(buffer, at, octets) && i < |octets|
    ensures at + i < |buffer| && buffer[at + i] == octets[i]
  {
    assert buffer[at..at + |octets|][i] == buffer[at + i];
  }

  lemma HoldsWord(buffer: seq<byte>, at: nat, w: word)
    requires Holds(buffer, at, WordOctets(w))
    ensures at + 2 <= |buffer| && WordAt(buffer, at) == w
  {
    HoldsOctet(buffer, at, WordOctets(w), 0);
    HoldsOctet(buffer, at, WordOctets(w), 1);
    SplitThenJoin(w);
  }

  lemma {:induction false} AddressOctetsAt(t: seq<AddressEntry>, i: nat)
    requires i < |t|
    ensures AddressOctets(t)[2 * i..2 * i + 2] == WordOctets(t[i].group)
  {
    hide WordOctets;
    var n := |t| - 1;
    if i < n {
      AddressOctetsAt(t[..n], i);
      assert AddressOctets(t)[2 * i..2 * i + 2] == AddressOctets(t[..n])[2 * i..2 * i + 2];
    }
  }

  lemma {:induction false} AssociationOctetsAt(t: seq<Association>, i: nat)
    requires i < |t|
    ensures AssociationOctets(t)[2 * i..2 * i + 2] == [LowByte(t[i].objectIndex), t[i].priority]
  {
    hide LowByte;
    var n := |t| - 1;
    if i < n {
      AssociationOctetsAt(t[..n], i);
      assert AssociationOctets(t)[2 * i..2 * i + 2] == AssociationOctets(t[..n])[2 * i..2 * i + 2];
    }
  }

  lemma {:induction false} ObjectOctetsAt(t: seq<GroupConfig>, i: nat)
    requires i < |t|
    ensures ObjectOctets(t)[5 * i..5 * i + 5] == ObjectRecord(t[i])
  {
    hide ObjectRecord;
    var n := |t| - 1;
    if i < n {
      ObjectOctetsAt(t[..n], i);
      assert ObjectOctets(t)[5 * i..5 * i + 5] == ObjectOctets(t[..n])[5 * i..5 * i + 5];
    }
  }

  lemma HoldsInside(buffer: seq<byte>, at: nat, octets: seq<byte>, from: nat, part: seq<byte>)
    requires Holds(buffer, at, octets) && from + |part| <= |octets| && octets[from..from + |part|] == part
    ensures Holds(buffer, at + from, part)
  {
    forall k | 0 <= k < |part|
      ensures buffer[at + from + k] == part[k]
    {
      HoldsOctet(buffer, at, octets, from + k);
      assert octets[from..from + |part|][k] == octets[from + k];
    }
  }

  lemma CountedTable(buffer: seq<byte>, at: nat, count: nat, octets: seq<byte>)
    requires count <= 0xFFFF && Holds(buffer, at, Counted(count, octets))
    ensures at + 2 <= |buffer| && CountAt(buffer, at) == count
    ensures Holds(buffer, at + 2, octets)
  {
    hide WordOctets, ToWord;
    HoldsParts(buffer, at, WordOctets(ToWord(count)), octets);
    HoldsWord(buffer, at, ToWord(count));
    CountSurvives(count);
  }

  lemma AddressesReadBack(c: Config, buffer: seq<byte>, at: nat)
    requires Canonical(c) && Holds(buffer, at, AddressTable(c))
    ensures TableInside(buffer, at, 2) && AddressesAt(buffer, at + 2, CountAt(buffer, at)) == c.addresses
  {
    hide WordOctets, CountAt, WordAt, Asap;
    CountedTable(buffer, at, |c.addresses|, AddressOctets(c.addresses));
    var read := AddressesAt(buffer, at + 2, |c.addresses|);
    forall i | 0 <= i < |c.addresses|
      ensures read[i] == c.addresses[i]
    {
      AddressOctetsAt(c.addresses, i);
      HoldsInside(buffer, at + 2, AddressOctets(c.addresses), 2 * i, WordOctets(c.addresses[i].group));
      HoldsWord(buffer, at + 2 + 2 * i, c.addresses[i].group);
    }
  }

  lemma AssociationReadBack(buffer: seq<byte>, at: nat, a: Association)
    requires Holds(buffer, at, [LowByte(a.objectIndex), a.priority]) && HighByte(a.objectIndex) == 0
    ensures at + 2 <= |buffer| && MakeWord(0, buffer[at]) == a.objectIndex && buffer[at + 1] == a.priority
  {
    hide LowByte, HighByte, MakeWord;
    var record := [LowByte(a.objectIndex), a.priority];
    HoldsOctet(buffer, at, record, 0);
    HoldsOctet(buffer, at, record, 1);
    SplitThenJoin(a.objectIndex);
  }

  lemma AssociationsReadBack(c: Config, buffer: seq<byte>, at: nat)
    requires Canonical(c) && Holds(buffer, at, AssociationTable(c))
    ensures TableInside(buffer, at, 2) && AssociationsAt(buffer, at + 2, CountAt(buffer, at)) == c.associations
  {
    hide CountAt, LowByte, HighByte, MakeWord, Asap, Holds;
    var t := c.associations;
    CountedTable(buffer, at, |t|, AssociationOctets(t));
    assert at + 2 + 2 * |t| <= |buffer| by {
      HoldsLength(buffer, at + 2, AssociationOctets(t));
    }
    var read := AssociationsAt(buffer, at + 2, |t|);
    forall i | 0 <= i < |t|
      ensures read[i] == t[i]
    {
      AssociationOctetsAt(t, i);
      HoldsInside(buffer, at + 2, AssociationOctets(t), 2 * i, [LowByte(t[i].objectIndex), t[i].priority]);
      AssociationReadBack(buffer, at + 2 + 2 * i, t[i]);
    }
  }

  lemma HoldsLength(buffer: seq<byte>, at: nat, octets: seq<byte>)
    requires Holds(buffer, at, octets)
    ensures at + |octets| <= |buffer|
  {
  }

  lemma ObjectReadBack(buffer: seq<byte>, at: nat, o: GroupConfig)
    requires Holds(buffer, at, ObjectRecord(o))
    ensures at + 5 <= |buffer|
    ensures WordAt(buffer, at) == o.dpt && buffer[at + 2] == o.flags && WordAt(buffer, at + 3) == o.initial
  {
    hide WordOctets, WordAt;
    HoldsParts(buffer, at, WordOctets(o.dpt) + [o.flags], WordOctets(o.initial));
    HoldsParts(buffer, at, WordOctets(o.dpt), [o.flags]);
    HoldsOctet(buffer, at + 2, [o.flags], 0);
    HoldsWord(buffer, at, o.dpt);
    HoldsWord(buffer, at + 3, o.initial);
  }

  lemma ObjectsReadBack(c: Config, buffer: seq<byte>, at: nat)
    requires Canonical(c) && Holds(buffer, at, ObjectTable(c))
    ensures TableInside(buffer, at, 5) && ObjectsAt(buffer, at + 2, CountAt(buffer, at)) == c.objects
  {
    hide CountAt, WordAt, ObjectRecord, Holds, ObjectIndex;
    var t := c.objects;
    CountedTable(buffer, at, |t|, ObjectOctets(t));
    assert at + 2 + 5 * |t| <= |buffer| by {
      HoldsLength(buffer, at + 2, ObjectOctets(t));
    }
    var read := ObjectsAt(buffer, at + 2, |t|);
    forall i | 0 <= i < |t|
      ensures read[i] == t[i]
    {
      ObjectOctetsAt(t, i);
      HoldsInside(buffer, at + 2, ObjectOctets(t), 5 * i, ObjectRecord(t[i]));
      ObjectReadBack(buffer, at + 2 + 5 * i, t[i]);
    }
  }

  lemma DeviceReadBack(d: Device, buffer: seq<byte>, at: nat)
    requires Holds(buffer, at, DeviceOctets(d))
    ensures at + DEVICE_SIZE <= |buffer| && DeviceAt(buffer, at) == d
  {
    hide WordOctets, WordAt, DwordOctets, MakeDword;
    var ids := WordOctets(d.individualAddress) + WordOctets(d.manufacturer);
    var flags := [d.appVersion, d.configured];
    HoldsParts(buffer, at, ids + DwordOctets(d.serial), flags);
    HoldsParts(buffer, at, ids, DwordOctets(d.serial));
    HoldsParts(buffer, at, WordOctets(d.individualAddress), WordOctets(d.manufacturer));
    HoldsWord(buffer, at, d.individualAddress);
    HoldsWord(buffer, at + 2, d.manufacturer);
    var serial := DwordOctets(d.serial);
    HoldsOctet(buffer, at + 4, serial, 0);
    HoldsOctet(buffer, at + 4, serial, 1);
    HoldsOctet(buffer, at + 4, serial, 2);
    HoldsOctet(buffer, at + 4, serial, 3);
    DwordRoundTrip(d.serial);
    HoldsOctet(buffer, at + 8, flags, 0);
    HoldsOctet(buffer, at + 8, flags, 1);
  }
}
