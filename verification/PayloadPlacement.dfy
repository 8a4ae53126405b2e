/**
 * Where a service's payload travels: in the six data bits of the APCI, in the octets after it, or in
 * both. Transmit and receive path are the two halves of one encoding.
 */
module PayloadPlacement {
  import opened Octets
  import opened Apci

  const MAX_APDU_LENGTH := 254

  /** Room for a header and the longest payload. */
  const TPDU_CAPACITY := 2 + MAX_APDU_LENGTH

  predicate UsesData6(service: Service) {
    || service == MEMORY_READ || service == MEMORY_WRITE || service == MEMORY_RESPONSE
    || service == DEVICE_DESCRIPTOR_READ || service == DEVICE_DESCRIPTOR_RESPONSE
    || service == ADC_READ || service == ADC_RESPONSE
  }

  predicate IsGroupValueWrite(service: Service) {
    service == GROUP_VALUE_WRITE || service == GROUP_VALUE_RESPONSE
  }

  /** A service code with six bits of data merged in. */
  function Merge(service: Service, data6: byte): Service { service | ((data6 & 0x3F) as bv16) }

  function Data6(apci: Service): byte { (apci & 0x3F) as byte }

  /** Codes that are matched on all ten bits. */
  predicate InExactBlock(apci: Service) {
    var full := apci & 0x3FF;
    || apci & 0x3C0 == ESCAPE
    || FUNCTION_PROPERTY_COMMAND <= full <= FUNCTION_PROPERTY_STATE_RESPONSE
    || MEMORY_EXTENDED_WRITE <= full <= MEMORY_EXTENDED_READ_RESPONSE
    || PROPERTY_EXT_VALUE_READ <= full <= FUNCTION_PROPERTY_EXT_STATE_RESPONSE
    || SYSTEM_NETWORK_PARAMETER_READ <= full <= SYSTEM_NETWORK_PARAMETER_WRITE
  }

  function ServiceOf(apci: Service): Service { if InExactBlock(apci) then apci & 0x3FF else apci & 0x3C0 }

  /** The two header octets of unnumbered data. */
  function PackHeader(apci: Service): (h: seq<byte>)
    ensures |h| == 2
  {
    [((apci >> 8) & 0x03) as byte, (apci & 0xFF) as byte]
  }

  predicate IsControl(tpdu0: byte) { tpdu0 & 0x80 != 0 }

  function UnpackHeader(tpdu0: byte, tpdu1: byte): Service {
    if IsControl(tpdu0) then 0 else (((tpdu0 & 0x03) as bv16) << 8) | tpdu1 as bv16
  }

  /** The data bits and the octets that follow the header. */
  datatype Placement = Placement(data6: byte, body: seq<byte>)

  /** The transmit path: short or long group values, data6 services, and everything else. */
  function Place(service: Service, data: seq<byte>): Result<Placement> {
    if service == GROUP_VALUE_READ then Ok(Placement(0, []))
    else if IsGroupValueWrite(service) then
      if data == [] then Err(InvalidParameter)
      else if |data| == 1 && data[0] <= 0x3F then Ok(Placement(data[0], []))
      else Ok(Placement(0, data))
    else if UsesData6(service) then
      if data == [] then Err(InvalidParameter) else Ok(Placement(data[0], data[1..]))
    else Ok(Placement(0, data))
  }

  function Build(service: Service, p: Placement): seq<byte> { PackHeader(Merge(service, p.data6)) + p.body }

  /**
   * The octets go into a vector that is first resized, at most to its capacity, and then written
   * through a view of the full length. A write behind the vector is reported here as an overrun.
   */
  method BuildInPlace(service: Service, p: Placement, vector: array<byte>) returns (size: nat, overrun: bool)
    requires vector.Length == TPDU_CAPACITY
    modifies vector
    ensures overrun <==> |p.body| > MAX_APDU_LENGTH
    ensures size == if overrun then TPDU_CAPACITY else |Build(service, p)|
    ensures size <= |Build(service, p)| && vector[..size] == Build(service, p)[..size]
  {
    hide PackHeader, Merge;
    var needed := 2 + |p.body|;
    size := if needed > TPDU_CAPACITY then TPDU_CAPACITY else needed;
    overrun := false;
    var header := PackHeader(Merge(service, p.data6));
    vector[0], vector[1] := header[0], header[1];
    for i := 0 to |p.body|
      invariant overrun <==> 2 + i > TPDU_CAPACITY
      invariant forall k :: 0 <= k < 2 + i && k < TPDU_CAPACITY ==> vector[k] == Build(service, p)[k]
    {
      if 2 + i < TPDU_CAPACITY {
        vector[2 + i] := p.body[i];
      } else {
        overrun := true;
      }
    }
  }

  /** The write stays inside the vector. */
  predicate StaysInside(tpdu: seq<byte>) { |tpdu| <= TPDU_CAPACITY }

  /** The bounded payload vector drops what does not fit. */
  function Bounded(data: seq<byte>): seq<byte> {
    if |data| <= MAX_APDU_LENGTH then data else data[..MAX_APDU_LENGTH]
  }

  /** The receive path. */
  function Receive(tpdu: seq<byte>): Option<(Service, seq<byte>)> {
    if |tpdu| < 2 then None
    else
      var apci := UnpackHeader(tpdu[0], tpdu[1]);
      var service := ServiceOf(apci);
      var data := Bounded((if UsesData6(service) then [Data6(apci)] else []) + tpdu[2..]);
      Some((service, if IsGroupValueWrite(service) && data == [] then [Data6(apci)] else data))
  }

  /** The receive path as it runs: octets pushed one by one into a vector of bounded capacity. */
  method Collect(tpdu: seq<byte>) returns (r: Option<(Service, seq<byte>)>)
    ensures r == Receive(tpdu)
  {
    hide ServiceOf, UsesData6, IsGroupValueWrite, Data6, UnpackHeader;
    if |tpdu| < 2 {
      return None;
    }
    var apci := UnpackHeader(tpdu[0], tpdu[1]);
    var service := ServiceOf(apci);
    var data := if UsesData6(service) then [Data6(apci)] else [];
    ghost var prefix := data;
    assert prefix + tpdu[2..2] == prefix;
    hide Bounded;
    NothingDropped(prefix);
    for i := 2 to |tpdu|
      invariant data == Bounded(prefix + tpdu[2..i])
    {
      OneMoreOctet(prefix, tpdu, i);
      if |data| < MAX_APDU_LENGTH {
        data := data + [tpdu[i]];
      }
    }
    assert tpdu[2..|tpdu|] == tpdu[2..];
    if IsGroupValueWrite(service) && data == [] {
      data := [Data6(apci)];
    }
    return Some((service, data));
  }

  lemma NothingDropped(data: seq<byte>)
    requires |data| <= 1
    ensures Bounded(data) == data
  {
  }

  lemma OneMoreOctet(prefix: seq<byte>, tpdu: seq<byte>, i: nat)
    requires 2 <= i < |tpdu|
    ensures var data := Bounded(prefix + tpdu[2..i]);
      Bounded(prefix + tpdu[2..i + 1]) == if |data| < MAX_APDU_LENGTH then data + [tpdu[i]] else data
  {
    assert prefix + tpdu[2..i + 1] == prefix + tpdu[2..i] + [tpdu[i]];
  }

  // ---------------------------------------------------------------------------
  // Round trip
  // ---------------------------------------------------------------------------

  lemma HeaderRoundTrip(apci: Service)
    requires apci <= 0x3FF
    ensures UnpackHeader(PackHeader(apci)[0], PackHeader(apci)[1]) == apci
  {
  }

  lemma MergeBits(service: Service, data6: byte)
    requires service <= 0x3FF
    ensures Merge(service, data6) <= 0x3FF
    ensures service & 0x3F == 0 ==> Data6(Merge(service, data6)) == data6 & 0x3F
    ensures service & 0x3F == 0 ==> Merge(service, data6) & 0x3C0 == service
    ensures data6 & 0x3F == 0 ==> Merge(service, data6) == service
    ensures (data6 & 0x3F == data6) == (data6 <= 0x3F)
  {
  }

  /** A code the receiver can tell from the codes around it. */
  predicate Recognisable(service: Service) { service & 0x3F == 0 || InExactBlock(service) }

  /** A code decodes to itself exactly if its data bits are clear or it lies in an exactly matched block. */
  lemma RecognisableIff(service: Service)
    requires service <= 0x3FF
    ensures ServiceOf(service) == service <==> Recognisable(service)
    ensures Recognisable(service) <==>
      || service & 0x3F == 0
      || 0x3C0 <= service <= 0x3FF || 0x2C7 <= service <= 0x2C9 || 0x1FB <= service <= 0x1FE
      || 0x1CC <= service <= 0x1D6 || 0x1C8 <= service <= 0x1CA
    ensures !Recognisable(service) ==> ServiceOf(service) == service & 0x3C0
  {
  }

  /** Data bits that turn an A_ADC_Response into a code of one of the exactly matched blocks. */
  predicate Hijacked(channel: byte) {
    8 <= channel & 0x3F <= 10 || 12 <= channel & 0x3F <= 22 || 59 <= channel & 0x3F <= 62
  }

  lemma AdcCollisions(channel: byte)
    ensures InExactBlock(Merge(ADC_RESPONSE, channel)) <==> Hijacked(channel)
  {
  }

  lemma MemoryIsClear(service: Service, data6: byte)
    requires service == MEMORY_READ || service == MEMORY_WRITE || service == MEMORY_RESPONSE
    ensures !InExactBlock(Merge(service, data6))
  {
  }

  lemma DescriptorIsClear(service: Service, data6: byte)
    requires service == DEVICE_DESCRIPTOR_READ || service == DEVICE_DESCRIPTOR_RESPONSE || service == ADC_READ
    ensures !InExactBlock(Merge(service, data6))
  {
  }

  lemma GroupValueIsClear(service: Service, data6: byte)
    requires service == GROUP_VALUE_WRITE || service == GROUP_VALUE_RESPONSE
    ensures !InExactBlock(Merge(service, data6))
  {
  }

  lemma NoOtherCollisions(service: Service, data6: byte)
    requires (UsesData6(service) && service != ADC_RESPONSE) || IsGroupValueWrite(service)
    ensures !InExactBlock(Merge(service, data6)) && service & 0x3F == 0
    ensures !IsGroupValueWrite(service) || !UsesData6(service)
  {
    hide InExactBlock;
    if service == MEMORY_READ || service == MEMORY_WRITE || service == MEMORY_RESPONSE {
      MemoryIsClear(service, data6);
    } else if service == DEVICE_DESCRIPTOR_READ || service == DEVICE_DESCRIPTOR_RESPONSE || service == ADC_READ {
      DescriptorIsClear(service, data6);
    } else {
      GroupValueIsClear(service, data6);
    }
  }

  /** What a caller has to respect for a payload to arrive as it was given. */
  predicate Respected(service: Service, data: seq<byte>) {
    && Recognisable(service) && |data| <= MAX_APDU_LENGTH
    && (service == GROUP_VALUE_READ ==> data == [])
    && (UsesData6(service) ==> data != [] && data[0] <= 0x3F)
    && (service == ADC_RESPONSE ==> data != [] && !Hijacked(data[0]))
  }

  lemma ReceiveBuilt(service: Service, p: Placement)
    requires service <= 0x3FF && |p.body| <= MAX_APDU_LENGTH
    ensures var apci := Merge(service, p.data6); var s := ServiceOf(apci);
      var data := Bounded((if UsesData6(s) then [Data6(apci)] else []) + p.body);
      Receive(Build(service, p))
      == Some((s, if IsGroupValueWrite(s) && data == [] then [Data6(apci)] else data))
  {
    MergeBits(service, p.data6);
    HeaderRoundTrip(Merge(service, p.data6));
    hide PackHeader, UnpackHeader, ServiceOf, Merge, UsesData6, IsGroupValueWrite, Data6;
    assert Build(service, p)[2..] == p.body;
  }

  lemma GroupValueArrives(service: Service, data: seq<byte>)
    requires IsGroupValueWrite(service) && 1 <= |data| <= MAX_APDU_LENGTH
    ensures Receive(Build(service, Place(service, data).value)) == Some((service, data))
  {
    var p := Place(service, data).value;
    ReceiveBuilt(service, p);
    MergeBits(service, p.data6);
    NoOtherCollisions(service, p.data6);
    hide Merge, Data6, InExactBlock, Receive, Build;
    assert [] + p.body == p.body;
    if |data| == 1 {
      assert data == [data[0]];
    }
  }

  lemma Data6Service(service: Service, data6: byte)
    requires UsesData6(service)
    ensures ServiceOf(Merge(service, data6)) == service <==> !(service == ADC_RESPONSE && Hijacked(data6))
    ensures Data6(Merge(service, data6)) == data6 <==> data6 <= 0x3F
    ensures Recognisable(service) && service <= 0x3FF && service != GROUP_VALUE_READ && !IsGroupValueWrite(service)
  {
    MergeBits(service, data6);
    if service == ADC_RESPONSE {
      AdcCollisions(data6);
    } else {
      NoOtherCollisions(service, data6);
    }
  }

  lemma Data6Arrives(service: Service, data: seq<byte>)
    requires UsesData6(service) && 1 <= |data| <= MAX_APDU_LENGTH + 1
    ensures Receive(Build(service, Place(service, data).value)) == Some((service, data))
      <==> Respected(service, data)
  {
    hide UsesData6, IsGroupValueWrite, Recognisable, ServiceOf, Merge, Data6, Receive, Build, Hijacked;
    Data6Service(service, data[0]);
    ReceiveBuilt(service, Placement(data[0], data[1..]));
    var first := Data6(Merge(service, data[0]));
    assert [first] + data[1..] == data <==> first == data[0];
  }

  lemma PlainArrives(service: Service, data: seq<byte>)
    requires service <= 0x3FF && !UsesData6(service) && !IsGroupValueWrite(service) && |data| <= MAX_APDU_LENGTH
    ensures Receive(Build(service, Place(service, data).value)) == Some((service, data))
      <==> Respected(service, data)
  {
    var p := Place(service, data).value;
    ReceiveBuilt(service, p);
    MergeBits(service, 0);
    RecognisableIff(service);
    hide Merge, Data6, InExactBlock, Receive, Build, Recognisable;
    if ServiceOf(service) == service {
      assert [] + p.body == p.body;
    }
  }

  /**
   * For every service code and every payload the transmit path accepts: the octets stay inside the
   * vector and the receive path rebuilds the same service and payload from them, exactly when the
   * caller respected the limits.
   */
  lemma PlacementRoundTrip(service: Service, data: seq<byte>)
    requires service <= 0x3FF && Place(service, data).Ok?
    ensures var tpdu := Build(service, Place(service, data).value);
      StaysInside(tpdu) && Receive(tpdu) == Some((service, data)) <==> Respected(service, data)
  {
    hide Receive, InExactBlock, PackHeader, Merge;
    var p := Place(service, data).value;
    if |p.body| <= MAX_APDU_LENGTH {
      if UsesData6(service) {
        Data6Arrives(service, data);
      } else if IsGroupValueWrite(service) {
        GroupValueArrives(service, data);
        GroupValueIsRecognised(service);
      } else if service == GROUP_VALUE_READ {
        PlainArrives(service, []);
      } else {
        PlainArrives(service, data);
      }
    }
  }

  lemma GroupValueIsRecognised(service: Service)
    requires IsGroupValueWrite(service)
    ensures Recognisable(service) && !UsesData6(service) && service != GROUP_VALUE_READ && service != ADC_RESPONSE
  {
  }

  /** Two services that do not arrive as sent. */
  lemma Misread()
    ensures Receive(Build(ADC_RESPONSE, Placement(8, [1, 0, 0]))) == Some((SYSTEM_NETWORK_PARAMETER_READ, [1, 0, 0]))
    ensures Receive(Build(RESTART_RESPONSE, Placement(0, [0, 0, 0]))) == Some((RESTART, [0, 0, 0]))
  {
    ReceiveBuilt(ADC_RESPONSE, Placement(8, [1, 0, 0]));
    ReceiveBuilt(RESTART_RESPONSE, Placement(0, [0, 0, 0]));
    assert [] + [1 as byte, 0, 0] == [1, 0, 0] && [] + [0 as byte, 0, 0] == [0, 0, 0];
  }

  // ---------------------------------------------------------------------------
  // The octets spelled out
  // ---------------------------------------------------------------------------

  /** Memory, device descriptor and A/D converter services carry their first octet in the data bits. */
  const DATA6_SERVICES: set<Service> := {0x200, 0x240, 0x280, 0x300, 0x340, 0x180, 0x1C0}

  lemma Data6Iff(service: Service)
    ensures UsesData6(service) <==> service in DATA6_SERVICES
  {
  }

  /** The data bits and the octets after the header that a payload is split into. */
  lemma PlacedAs(service: Service, data: seq<byte>)
    ensures var groupWrite := service == 0x080 || service == 0x040;
      var short := groupWrite && |data| == 1 && data[0] <= 0x3F;
      var inBits := service in DATA6_SERVICES;
      && (Place(service, data) == Err(InvalidParameter) <==> data == [] && (groupWrite || inBits))
      && (Place(service, data).Ok? ==>
            var p := Place(service, data).value;
            && p.data6 == (if short || inBits then data[0] else 0)
            && p.body == if service == 0x000 || short then [] else if inBits then data[1..] else data)
  {
    Data6Iff(service);
  }

  lemma HeaderOctets(service: Service, data6: byte)
    requires service <= 0x3FF
    ensures var h := PackHeader(Merge(service, data6));
      h[0] <= 3 && MakeWord(h[0], h[1]) == service | (data6 & 0x3F) as bv16
  {
  }

  /**
   * The TPDU: a big-endian word with the service code and the data bits, and the octets after it. A
   * group value of one octet up to 0x3F fits the word, so that its TPDU has two octets.
   */
  lemma TpduOctets(service: Service, data: seq<byte>)
    requires service <= 0x3FF && Place(service, data).Ok?
    ensures var tpdu := Build(service, Place(service, data).value);
      var groupWrite := service == 0x080 || service == 0x040;
      var short := groupWrite && |data| == 1 && data[0] <= 0x3F;
      var inBits := service in DATA6_SERVICES;
      && |tpdu| == (if service == 0x000 || short then 2 else if inBits then 1 + |data| else 2 + |data|)
      && tpdu[0] <= 3
      && MakeWord(tpdu[0], tpdu[1]) == service | ((if short || inBits then data[0] else 0) & 0x3F) as bv16
      && tpdu[2..] == (if service == 0x000 || short then [] else if inBits then data[1..] else data)
  {
    PlacedAs(service, data);
    var p := Place(service, data).value;
    HeaderOctets(service, p.data6);
    hide Place, PackHeader, Merge, MakeWord;
    assert Build(service, p)[2..] == p.body;
  }

  /** Switching on, and reading three octets at 0x0116. */
  lemma KnownTpdus()
    ensures Build(0x080, Place(0x080, [0x01]).value) == [0x00, 0x81]
    ensures Build(0x200, Place(0x200, [0x03, 0x01, 0x16]).value) == [0x02, 0x03, 0x01, 0x16]
  {
  }

  /** A transport control TPDU carries no service code; what follows its first two octets goes to code zero. */
  lemma ControlTpdu(tpdu: seq<byte>)
    requires |tpdu| >= 2 && tpdu[0] & 0x80 != 0
    ensures Receive(tpdu) == Some((0x000, Bounded(tpdu[2..])))
  {
    assert [] + tpdu[2..] == tpdu[2..];
  }
}
