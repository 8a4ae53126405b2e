/** The octets of a saved configuration container as numbers, position by position. */
module EtsLayout {
  import opened Octets
  import opened Crc
  import opened EtsFormat
  import opened EtsRoundTrip

  /** The big-endian 16-bit number at a position. */
  function Number(b: seq<byte>, at: nat): nat
    requires at + 2 <= |b|
  {
    256 * (b[at] as nat) + b[at + 1] as nat
  }

  lemma WordIsNumber(b: seq<byte>, at: nat)
    requires at + 2 <= |b|
    ensures WordAt(b, at) as nat == Number(b, at)
  {
    hide MakeWord;
    JoinedNumber(b[at], b[at + 1]);
  }

  lemma CountIsNumber(b: seq<byte>, at: nat)
    requires at + 2 <= |b|
    ensures CountAt(b, at) == Number(b, at)
  {
    WordIsNumber(b, at);
    hide WordAt, Number;
  }

  function WordValue(w: word): nat { w as nat }

  function DwordValue(d: dword): nat { d as nat }

  lemma WordRestored(a: word)
    ensures 0 <= a as int < 0x1_0000 && (a as int) as word == a
  {
  }

  lemma DwordRestored(a: dword)
    ensures 0 <= a as int < 0x1_0000_0000 && (a as int) as dword == a
  {
  }

  lemma SameWord(a: word, b: word)
    requires WordValue(a) == WordValue(b)
    ensures a == b
  {
    WordRestored(a);
    WordRestored(b);
  }

  lemma SameDword(a: dword, b: dword)
    requires DwordValue(a) == DwordValue(b)
    ensures a == b
  {
    DwordRestored(a);
    DwordRestored(b);
  }

  lemma StoredCrcs(b: seq<byte>)
    requires |b| >= 20
    ensures WordValue(StoredHeaderCrc(b)) == Number(b, 6)
    ensures DwordValue(StoredPayloadCrc(b)) == 0x1_0000 * Number(b, 8) + Number(b, 10)
  {
    hide MakeWord, MakeDword;
    JoinedNumber(b[6], b[7]);
    JoinedNumber32(b[8], b[9], b[10], b[11]);
  }

  lemma CrcsIff(b: seq<byte>, headerCrc: word, payloadCrc: dword)
    requires |b| >= 20
    ensures StoredHeaderCrc(b) == headerCrc <==> Number(b, 6) == WordValue(headerCrc)
    ensures StoredPayloadCrc(b) == payloadCrc <==> 0x1_0000 * Number(b, 8) + Number(b, 10) == DwordValue(payloadCrc)
  {
    hide StoredHeaderCrc, StoredPayloadCrc, Number, WordValue, DwordValue;
    StoredCrcs(b);
    if WordValue(StoredHeaderCrc(b)) == WordValue(headerCrc) {
      SameWord(StoredHeaderCrc(b), headerCrc);
    }
    if DwordValue(StoredPayloadCrc(b)) == DwordValue(payloadCrc) {
      SameDword(StoredPayloadCrc(b), payloadCrc);
    }
  }

  /** Exactly which buffers pass full validation. */
  lemma ValidatesIff(b: seq<byte>)
    ensures Validates(b) <==>
      && |b| >= 20 && b[0] == 0xAE && b[1] == 0xDD && b[2] == 1
      && Number(b, 6) == WordValue(Crc16Bits(b[..6]))
      && (|b| > 20 ==> 0x1_0000 * Number(b, 8) + Number(b, 10) == DwordValue(Crc32Bits(b[20..])))
  {
    hide Crc16Bits, Crc32Bits, Number, StoredHeaderCrc, StoredPayloadCrc, WordValue, DwordValue;
    if |b| >= 20 {
      CrcsIff(b, Crc16Bits(b[..6]), Crc32Bits(b[20..]));
    }
  }

  /** Magic, version and checksums. */
  lemma ChecksumLayout(c: Config)
    requires Savable(c)
    ensures var b := Serialized(c);
      && |b| > 20 && b[..6] == [0xAE, 0xDD, 1, 0, 0, 0]
      && Number(b, 6) == WordValue(Crc16Bits(b[..6]))
      && 0x1_0000 * Number(b, 8) + Number(b, 10) == DwordValue(Crc32Bits(b[20..]))
  {
    SerializedParts(c);
    hide Serialized, Validates, Number, Crc16Bits, Crc32Bits, Payload, SizeFields, AddressTable, AssociationTable,
      ObjectTable, WordOctets, DwordOctets, DeviceOctets, Savable, WordValue, DwordValue;
    var b := Serialized(c);
    SavedValidates(c);
    ValidatesIff(b);
    assert b[..6] == PREAMBLE;
  }

  /** The four section sizes. */
  lemma SizeLayout(c: Config)
    requires Savable(c)
    ensures var b := Serialized(c);
      && |b| >= 20 && Number(b, 12) == 10 && Number(b, 14) == 2 + 2 * |c.addresses|
      && Number(b, 16) == 2 + 2 * |c.associations| && Number(b, 18) == 2 + 5 * |c.objects|
  {
    SerializedParts(c);
    TableSizes(c);
    hide Serialized, CountAt, Payload, SizeFields, AddressTable, AssociationTable, ObjectTable, Number, Holds, Savable,
      Crc16Bits, Crc32Bits;
    var b := Serialized(c);
    SizesReadBack(c, b);
    CountIsNumber(b, 12);
    CountIsNumber(b, 14);
    CountIsNumber(b, 16);
    CountIsNumber(b, 18);
  }

  /** The device section. */
  lemma DeviceLayout(c: Config)
    requires Canonical(c) && Savable(c)
    ensures var b := Serialized(c); var d := c.device;
      && |b| >= 30
      && Number(b, 20) == d.individualAddress as int && Number(b, 22) == d.manufacturer as int
      && 0x1_0000 * Number(b, 24) + Number(b, 26) == d.serial as int
      && b[28] == d.appVersion && b[29] == d.configured
  {
    var b := Serialized(c);
    SectionsReadBack(c);
    hide Serialized, CountAt, MakeDword, WordAt, Number, AddressesAt, AssociationsAt, ObjectsAt, TableInside,
      AddressTable, AssociationTable, Savable, Canonical;
    WordIsNumber(b, 20);
    WordIsNumber(b, 22);
    SerialIsNumber(b, c.device.serial);
  }

  lemma SerialIsNumber(b: seq<byte>, serial: dword)
    requires |b| >= 30 && MakeDword(b[24], b[25], b[26], b[27]) == serial
    ensures 0x1_0000 * Number(b, 24) + Number(b, 26) == serial as int
  {
    JoinedNumber32(b[24], b[25], b[26], b[27]);
    hide MakeDword;
  }

  /** The three tables: a count and the entries in order. */
  lemma TableLayout(c: Config)
    requires Canonical(c) && Savable(c)
    ensures var b := Serialized(c); var s := 32 + 2 * |c.addresses|; var o := s + 2 + 2 * |c.associations|;
      && |b| == o + 2 + 5 * |c.objects|
      && Number(b, 30) == |c.addresses| && Number(b, s) == |c.associations| && Number(b, o) == |c.objects|
  {
    var b := Serialized(c);
    SectionsReadBack(c);
    SerializedSize(c);
    TableSizes(c);
    hide Serialized, Number, DeviceAt, AddressTable, AssociationTable, ObjectTable, Savable, Canonical, CountAt;
    CountIsNumber(b, 30);
    CountIsNumber(b, 32 + 2 * |c.addresses|);
    CountIsNumber(b, 34 + 2 * |c.addresses| + 2 * |c.associations|);
  }

  lemma TableSizes(c: Config)
    ensures |AddressTable(c)| == 2 + 2 * |c.addresses| && |AssociationTable(c)| == 2 + 2 * |c.associations|
    ensures |ObjectTable(c)| == 2 + 5 * |c.objects|
    ensures RequiredSize(c) == 36 + 2 * |c.addresses| + 2 * |c.associations| + 5 * |c.objects|
  {
  }

  lemma AddressAt(b: seq<byte>, at: nat, t: seq<AddressEntry>, i: nat)
    requires TableInside(b, at, 2) && AddressesAt(b, at + 2, CountAt(b, at)) == t && i < |t|
    ensures at + 4 + 2 * i <= |b| && Number(b, at + 2 + 2 * i) == t[i].group as int
  {
    hide CountAt, Number, WordAt;
    assert AddressesAt(b, at + 2, CountAt(b, at))[i] == t[i];
    WordIsNumber(b, at + 2 + 2 * i);
  }

  lemma AssociationAt(b: seq<byte>, at: nat, t: seq<Association>, i: nat)
    requires TableInside(b, at, 2) && AssociationsAt(b, at + 2, CountAt(b, at)) == t && i < |t|
    ensures at + 4 + 2 * i <= |b| && b[at + 2 + 2 * i] as int == t[i].objectIndex as int
    ensures b[at + 3 + 2 * i] == t[i].priority
  {
    hide CountAt, MakeWord;
    assert AssociationsAt(b, at + 2, CountAt(b, at))[i] == t[i];
    JoinedNumber(0, b[at + 2 + 2 * i]);
  }

  lemma ObjectAt(b: seq<byte>, at: nat, t: seq<GroupConfig>, i: nat)
    requires TableInside(b, at, 5) && ObjectsAt(b, at + 2, CountAt(b, at)) == t && i < |t|
    ensures at + 7 + 5 * i <= |b| && Number(b, at + 2 + 5 * i) == t[i].dpt as int
    ensures b[at + 4 + 5 * i] == t[i].flags && Number(b, at + 5 + 5 * i) == t[i].initial as int
  {
    hide CountAt, Number, WordAt;
    assert ObjectsAt(b, at + 2, CountAt(b, at))[i] == t[i];
    WordIsNumber(b, at + 2 + 5 * i);
    WordIsNumber(b, at + 5 + 5 * i);
  }

  /** The sections with the sizes of the tables written out. */
  lemma SectionsInPlace(c: Config)
    requires Canonical(c) && Savable(c)
    ensures SectionsHold(c, Serialized(c), 2 + 2 * |c.addresses|, 2 + 2 * |c.associations|)
  {
    hide Serialized, SectionsHold, Canonical, Savable;
    SectionsReadBack(c);
    TableSizes(c);
  }

  lemma TablesOf(c: Config, b: seq<byte>, a: nat, s: nat)
    requires SectionsHold(c, b, a, s)
    ensures TableInside(b, 30, 2) && AddressesAt(b, 32, CountAt(b, 30)) == c.addresses
    ensures TableInside(b, 30 + a, 2) && AssociationsAt(b, 32 + a, CountAt(b, 30 + a)) == c.associations
    ensures TableInside(b, 30 + a + s, 5) && ObjectsAt(b, 32 + a + s, CountAt(b, 30 + a + s)) == c.objects
  {
    hide AddressesAt, AssociationsAt, ObjectsAt, CountAt, DeviceAt;
  }

  lemma AddressIn(c: Config, b: seq<byte>, i: nat)
    requires SectionsHold(c, b, 2 + 2 * |c.addresses|, 2 + 2 * |c.associations|) && i < |c.addresses|
    ensures 34 + 2 * i <= |b| && Number(b, 32 + 2 * i) == c.addresses[i].group as int
  {
    hide SectionsHold, AddressesAt, AssociationsAt, ObjectsAt, CountAt, TableInside, DeviceAt, Number;
    TablesOf(c, b, 2 + 2 * |c.addresses|, 2 + 2 * |c.associations|);
    AddressAt(b, 30, c.addresses, i);
  }

  lemma AssociationIn(c: Config, b: seq<byte>, i: nat)
    requires SectionsHold(c, b, 2 + 2 * |c.addresses|, 2 + 2 * |c.associations|) && i < |c.associations|
    ensures var at := 34 + 2 * |c.addresses| + 2 * i;
      at + 2 <= |b| && b[at] as int == c.associations[i].objectIndex as int && b[at + 1] == c.associations[i].priority
  {
    hide SectionsHold, AddressesAt, AssociationsAt, ObjectsAt, CountAt, TableInside, DeviceAt, Number;
    TablesOf(c, b, 2 + 2 * |c.addresses|, 2 + 2 * |c.associations|);
    AssociationAt(b, 32 + 2 * |c.addresses|, c.associations, i);
  }

  lemma ObjectIn(c: Config, b: seq<byte>, i: nat)
    requires SectionsHold(c, b, 2 + 2 * |c.addresses|, 2 + 2 * |c.associations|) && i < |c.objects|
    ensures var at := 36 + 2 * |c.addresses| + 2 * |c.associations| + 5 * i;
      && at + 5 <= |b| && Number(b, at) == c.objects[i].dpt as int && b[at + 2] == c.objects[i].flags
      && Number(b, at + 3) == c.objects[i].initial as int
  {
    hide SectionsHold, AddressesAt, AssociationsAt, ObjectsAt, CountAt, TableInside, DeviceAt, Number;
    TablesOf(c, b, 2 + 2 * |c.addresses|, 2 + 2 * |c.associations|);
    ObjectAt(b, 34 + 2 * |c.addresses| + 2 * |c.associations|, c.objects, i);
  }

  /** One entry of the address table. */
  lemma AddressLayout(c: Config, i: nat)
    requires Canonical(c) && Savable(c) && i < |c.addresses|
    ensures 34 + 2 * i <= |Serialized(c)| && Number(Serialized(c), 32 + 2 * i) == c.addresses[i].group as int
  {
    hide Serialized, SectionsHold, Canonical, Savable, Number;
    SectionsInPlace(c);
    AddressIn(c, Serialized(c), i);
  }

  /** One entry of the association table. */
  lemma AssociationLayout(c: Config, i: nat)
    requires Canonical(c) && Savable(c) && i < |c.associations|
    ensures var b := Serialized(c); var at := 34 + 2 * |c.addresses| + 2 * i;
      at + 2 <= |b| && b[at] as int == c.associations[i].objectIndex as int && b[at + 1] == c.associations[i].priority
  {
    hide Serialized, SectionsHold, Canonical, Savable, Number;
    SectionsInPlace(c);
    AssociationIn(c, Serialized(c), i);
  }

  /** One entry of the object table. */
  lemma ObjectLayout(c: Config, i: nat)
    requires Canonical(c) && Savable(c) && i < |c.objects|
    ensures var b := Serialized(c); var at := 36 + 2 * |c.addresses| + 2 * |c.associations| + 5 * i;
      && at + 5 <= |b| && Number(b, at) == c.objects[i].dpt as int && b[at + 2] == c.objects[i].flags
      && Number(b, at + 3) == c.objects[i].initial as int
  {
    hide Serialized, SectionsHold, Canonical, Savable, Number;
    SectionsInPlace(c);
    ObjectIn(c, Serialized(c), i);
  }
}
