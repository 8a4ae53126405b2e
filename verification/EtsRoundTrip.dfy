/** Saving and loading a configuration, and which corruptions full validation sees. */
module EtsRoundTrip {
  import opened Octets
  import opened Crc
  import opened EtsFormat

  lemma WholeHolds(a: seq<byte>, b: seq<byte>)
    ensures Holds(a + b, 0, a) && Holds(a + b, |a|, b)
  {
    assert (a + b)[0..0 + |a + b|] == a + b;
    HoldsParts(a + b, 0, a, b);
  }

  lemma SizesReadBack(c: Config, buffer: seq<byte>)
    requires Savable(c) && Holds(buffer, 12, SizeFields(c))
    ensures |buffer| >= HEADER_SIZE
    ensures CountAt(buffer, 12) == DEVICE_SIZE && CountAt(buffer, 14) == |AddressTable(c)|
    ensures CountAt(buffer, 16) == |AssociationTable(c)| && CountAt(buffer, 18) == |ObjectTable(c)|
  {
    hide WordOctets, WordAt, ToWord, AddressTable, AssociationTable, ObjectTable;
    var d, a := WordOctets(ToWord(DEVICE_SIZE)), WordOctets(ToWord(|AddressTable(c)|));
    var s, o := WordOctets(ToWord(|AssociationTable(c)|)), WordOctets(ToWord(|ObjectTable(c)|));
    HoldsParts(buffer, 12, d + a + s, o);
    HoldsParts(buffer, 12, d + a, s);
    HoldsParts(buffer, 12, d, a);
    HoldsWord(buffer, 12, ToWord(DEVICE_SIZE));
    HoldsWord(buffer, 14, ToWord(|AddressTable(c)|));
    HoldsWord(buffer, 16, ToWord(|AssociationTable(c)|));
    HoldsWord(buffer, 18, ToWord(|ObjectTable(c)|));
    CountSurvives(DEVICE_SIZE);
    CountSurvives(|AddressTable(c)|);
    CountSurvives(|AssociationTable(c)|);
    CountSurvives(|ObjectTable(c)|);
  }

  /** Where the parts of a saved container lie. */
  lemma SerializedParts(c: Config)
    requires Savable(c)
    ensures var b := Serialized(c); var a := |AddressTable(c)|; var s := |AssociationTable(c)|;
      && Holds(b, 0, PREAMBLE)
      && Holds(b, 6, WordOctets(Crc16Bits(PREAMBLE)))
      && Holds(b, 8, DwordOctets(Crc32Bits(Payload(c))))
      && Holds(b, 12, SizeFields(c))
      && b[HEADER_SIZE..] == Payload(c)
      && Holds(b, 20, DeviceOctets(c.device))
      && Holds(b, 30, AddressTable(c))
      && Holds(b, 30 + a, AssociationTable(c))
      && Holds(b, 30 + a + s, ObjectTable(c))
      && |b| == 30 + a + s + |ObjectTable(c)|
  {
    hide Holds, WordOctets, DwordOctets, DeviceOctets, AddressTable, AssociationTable, ObjectTable, SizeFields,
      Crc16Bits, Crc32Bits;
    var b := Serialized(c);
    var h := Header(c, Crc16Bits(PREAMBLE), Crc32Bits(Payload(c)));
    WholeHolds(h, Payload(c));
    var crc16, crc32 := WordOctets(Crc16Bits(PREAMBLE)), DwordOctets(Crc32Bits(Payload(c)));
    HoldsParts(b, 0, PREAMBLE + crc16 + crc32, SizeFields(c));
    HoldsParts(b, 0, PREAMBLE + crc16, crc32);
    HoldsParts(b, 0, PREAMBLE, crc16);
    var d, a, s := DeviceOctets(c.device), AddressTable(c), AssociationTable(c);
    HoldsParts(b, 20, d + a + s, ObjectTable(c));
    HoldsParts(b, 20, d + a, s);
    HoldsParts(b, 20, d, a);
  }

  lemma SavedValidates(c: Config)
    requires Savable(c)
    ensures Validates(Serialized(c))
  {
    hide Crc16Bits, Crc32Bits, WordOctets, DwordOctets, MakeWord, MakeDword, Payload, SizeFields, Serialized;
    var b := Serialized(c);
    SerializedParts(c);
    assert b[..6] == PREAMBLE;
    HoldsOctet(b, 0, PREAMBLE, 0);
    HoldsOctet(b, 0, PREAMBLE, 1);
    HoldsOctet(b, 0, PREAMBLE, 2);
    HoldsWord(b, 6, Crc16Bits(PREAMBLE));
    var crc := DwordOctets(Crc32Bits(Payload(c)));
    HoldsOctet(b, 8, crc, 0);
    HoldsOctet(b, 8, crc, 1);
    HoldsOctet(b, 8, crc, 2);
    HoldsOctet(b, 8, crc, 3);
    DwordRoundTrip(Crc32Bits(Payload(c)));
  }

  /**
   * Save then load: for every configuration that a load can leave and whose sections fit their size
   * fields, the saved container has exactly the required size, passes full validation, and loads
   * back to the same configuration, into any loader.
   */
  lemma SaveThenLoad(c: Config, before: Config)
    requires Canonical(c) && Savable(c) && (c.objects != [] || c.addresses != [])
    ensures |Serialized(c)| == RequiredSize(c)
    ensures Validates(Serialized(c))
    ensures Parse(before, Serialized(c)).ok && Parse(before, Serialized(c)).config == c
  {
    hide Validates, Parse, CountAt, TableInside, DeviceAt, AddressesAt, AssociationsAt, ObjectsAt, Serialized,
      Savable, Canonical, AddressTable, AssociationTable, ObjectTable, RequiredSize, SectionsHold;
    SerializedSize(c);
    SavedValidates(c);
    SectionsReadBack(c);
    SectionsInOrder(c, before, Serialized(c), |AddressTable(c)|, |AssociationTable(c)|);
  }

  /** Each section is found where the header says, and reads back; `a` and `s` are the sizes of two tables. */
  ghost predicate SectionsHold(c: Config, b: seq<byte>, a: nat, s: nat) {
    && |b| >= 32 + a + s && a >= 2 && s >= 2
    && CountAt(b, 12) == 10 && CountAt(b, 14) == a && CountAt(b, 16) == s && CountAt(b, 18) > 0
    && DeviceAt(b, 20) == c.device
    && TableInside(b, 30, 2) && AddressesAt(b, 32, CountAt(b, 30)) == c.addresses
    && TableInside(b, 30 + a, 2) && AssociationsAt(b, 32 + a, CountAt(b, 30 + a)) == c.associations
    && TableInside(b, 30 + a + s, 5) && ObjectsAt(b, 32 + a + s, CountAt(b, 30 + a + s)) == c.objects
  }

  lemma SectionsReadBack(c: Config)
    requires Canonical(c) && Savable(c)
    ensures SectionsHold(c, Serialized(c), |AddressTable(c)|, |AssociationTable(c)|)
  {
    hide CountAt, TableInside, DeviceAt, AddressesAt, AssociationsAt, ObjectsAt, Serialized, Payload, SizeFields,
      Canonical, Savable, AddressTable, AssociationTable, ObjectTable, Holds, RequiredSize;
    var b := Serialized(c);
    SerializedSize(c);
    SerializedParts(c);
    SizesReadBack(c, b);
    var a, s := |AddressTable(c)|, |AssociationTable(c)|;
    DeviceReadBack(c.device, b, 20);
    AddressesReadBack(c, b, 30);
    AssociationsReadBack(c, b, 30 + a);
    ObjectsReadBack(c, b, 30 + a + s);
  }

  lemma SerializedSize(c: Config)
    requires Savable(c)
    ensures |Serialized(c)| == RequiredSize(c) && |AddressTable(c)| >= 2 && |AssociationTable(c)| >= 2
    ensures |ObjectTable(c)| >= 2
  {
  }

  lemma SectionsInOrder(c: Config, before: Config, b: seq<byte>, a: nat, s: nat)
    requires SectionsHold(c, b, a, s)
    requires c.objects != [] || c.addresses != []
    ensures Parse(before, b).ok && Parse(before, b).config == c
  {
    hide DeviceAt, AddressesAt, AssociationsAt, ObjectsAt, CountAt;
  }

  /** A load leaves a configuration that can be saved exactly when its tables are not too long. */
  lemma SavableIff(c: Config)
    ensures Savable(c) <==> |c.addresses| <= 32766 && |c.associations| <= 32766 && |c.objects| <= 13106
  {
  }

  /** Load, save, load: whatever buffer the first load accepted, unless its tables are too long to save. */
  lemma LoadSaveLoad(buffer: seq<byte>, before: Config)
    ensures var first := Parse(EMPTY, buffer);
      first.ok && Savable(first.config) ==>
        var saved := Serialized(first.config);
        Validates(saved) && Parse(before, saved).ok && Parse(before, saved).config == first.config
  {
    hide Parse;
    var first := Parse(EMPTY, buffer);
    if first.ok && Savable(first.config) {
      LoadsAreCanonical(EMPTY, buffer);
      SaveThenLoad(first.config, before);
    }
  }

  // ---------------------------------------------------------------------------
  // Corruption
  // ---------------------------------------------------------------------------

  lemma StoredHeaderChanges(buffer: seq<byte>, i: nat, b: byte)
    requires |buffer| >= HEADER_SIZE && 6 <= i < 8 && b != buffer[i]
    ensures StoredHeaderCrc(buffer[i := b]) != StoredHeaderCrc(buffer)
  {
    var c := buffer[i := b];
    JoinThenSplit(buffer[6], buffer[7]);
    JoinThenSplit(c[6], c[7]);
    hide MakeWord, HighByte, LowByte;
  }

  lemma StoredPayloadChanges(buffer: seq<byte>, i: nat, b: byte)
    requires |buffer| >= HEADER_SIZE && 8 <= i < 12 && b != buffer[i]
    ensures StoredPayloadCrc(buffer[i := b]) != StoredPayloadCrc(buffer)
  {
    var c := buffer[i := b];
    DwordInjective(buffer[8], buffer[9], buffer[10], buffer[11]);
    DwordInjective(c[8], c[9], c[10], c[11]);
    hide MakeDword, DwordOctets;
    assert [buffer[8], buffer[9], buffer[10], buffer[11]][i - 8] == buffer[i];
    assert [c[8], c[9], c[10], c[11]][i - 8] == b;
  }

  /** The octets no checksum covers: the section sizes, and the payload checksum of an empty payload. */
  predicate Uncovered(buffer: seq<byte>, i: nat) {
    12 <= i < HEADER_SIZE || (|buffer| == HEADER_SIZE && 8 <= i < 12)
  }

  /** A changed octet of a valid container passes full validation exactly if it is an uncovered one. */
  lemma CorruptionPassesIff(buffer: seq<byte>, i: nat, b: byte)
    requires Validates(buffer) && i < |buffer| && b != buffer[i]
    ensures Validates(buffer[i := b]) <==> Uncovered(buffer, i)
  {
    hide Crc16Bits, Crc32Bits, MakeWord, MakeDword;
    var c := buffer[i := b];
    if i < 6 {
      assert c[..6] == buffer[..6][i := b];
      Crc16DetectsOctet(buffer[..6], i, b);
    } else {
      assert c[..6] == buffer[..6];
      if i < 8 {
        StoredHeaderChanges(buffer, i, b);
      } else if i < HEADER_SIZE {
        assert c[HEADER_SIZE..] == buffer[HEADER_SIZE..];
        if i < 12 {
          StoredPayloadChanges(buffer, i, b);
        }
      } else {
        assert c[HEADER_SIZE..] == buffer[HEADER_SIZE..][i - HEADER_SIZE := b];
        Crc32DetectsOctet(buffer[HEADER_SIZE..], i - HEADER_SIZE, b);
      }
    }
  }
}
