/** The TP1 L_Data codec: standard and extended frames protected by an XOR frame check octet. */
module FrameCodec {
  import opened Octets

  datatype AddressType = Individual | Group

  datatype Priority = System | Normal | Urgent | Low

  datatype LDataFrame = LDataFrame(
    standardFrame: bool,
    repeated: bool,
    priority: Priority,
    ackRequested: bool,
    confirmation: bool,
    source: word,
    destination: word,
    destinationType: AddressType,
    hopCount: nat,
    tpdu: seq<byte>)

  const MAX_APDU_SIZE := 254

  predicate IsOperationalIndividual(raw: word) { raw != 0x0000 && raw != 0xFFFF }

  predicate IsInitialIndividual(raw: word) { raw == 0xFFFF }

  predicate IsBroadcast(raw: word) { raw == 0x0000 }

  function PayloadLength(tpdu: seq<byte>): nat { if |tpdu| >= 2 then |tpdu| - 2 else 0 }

  predicate IsValid(f: LDataFrame) {
    && (IsOperationalIndividual(f.source) || IsInitialIndividual(f.source))
    && (f.destinationType.Group? ==> f.destination != 0 || IsBroadcast(f.destination))
    && (f.destinationType.Individual? ==>
          || IsOperationalIndividual(f.destination)
          || IsInitialIndividual(f.destination)
          || IsBroadcast(f.destination))
    && f.tpdu != []
    && PayloadLength(f.tpdu) <= MAX_APDU_SIZE
    && f.hopCount <= 7
  }

  /** Every destination is allowed; a frame needs a source, 1 to 256 TPDU octets and a three-bit hop count. */
  lemma ValidIff(f: LDataFrame)
    ensures IsValid(f) <==> f.source != 0 && 1 <= |f.tpdu| <= 256 && f.hopCount <= 7
  {
  }

  // ---------------------------------------------------------------------------
  // Frame check octet
  // ---------------------------------------------------------------------------

  /** The frame check octet: the complement of the XOR of all octets. */
  ghost function Fcs(data: seq<byte>): byte {
    if data == [] then 0xFF else Fcs(data[..|data| - 1]) ^ data[|data| - 1]
  }

  method CalculateChecksum(data: seq<byte>) returns (checksum: byte)
    ensures checksum == Fcs(data)
  {
    checksum := 0xFF;
    for i := 0 to |data|
      invariant checksum == Fcs(data[..i])
    {
      assert data[..i + 1][..i] == data[..i];
      checksum := checksum ^ data[i];
    }
    assert data[..|data|] == data;
  }

  /** Replacing one octet moves the check octet by exactly the difference. */
  lemma {:induction false} FcsUpdate(data: seq<byte>, i: nat, b: byte)
    requires i < |data|
    ensures Fcs(data[i := b]) == Fcs(data) ^ data[i] ^ b
  {
    var n := |data| - 1;
    if i == n {
      assert data[i := b][..n] == data[..n];
    } else {
      FcsUpdate(data[..n], i, b);
      assert data[i := b][..n] == data[..n][i := b];
    }
  }

  // ---------------------------------------------------------------------------
  // Control and routing octets
  // ---------------------------------------------------------------------------

  function PriorityBits(p: Priority): byte {
    match p case System => 0 case Normal => 1 case Urgent => 2 case Low => 3
  }

  function PriorityOf(code: byte): Priority {
    if code == 0 then System else if code == 1 then Normal else if code == 2 then Urgent else Low
  }

  function Flag(on: bool, mask: byte): byte { if on then mask else 0 }

  datatype Control = Control(standard: bool, repeated: bool, priority: Priority, ack: bool, confirm: bool)

  /** Bit 5 is inverted on the wire: 1 means "not repeated". The encoder always sets bit 4, `fixed`. */
  function ControlOctet(c: Control, fixed: bool): byte {
    Flag(c.standard, 0x80) | Flag(!c.repeated, 0x20) | Flag(fixed, 0x10)
    | ((PriorityBits(c.priority) << 2) & 0x0C) | Flag(c.ack, 0x02) | Flag(c.confirm, 0x01)
  }

  predicate ReservedBit(ctrl: byte) { ctrl & 0x40 != 0 }

  predicate FixedBit(ctrl: byte) { ctrl & 0x10 != 0 }

  function ReadControl(ctrl: byte): Control {
    Control(ctrl & 0x80 != 0, ctrl & 0x20 == 0, PriorityOf((ctrl & 0x0C) >> 2), ctrl & 0x02 != 0, ctrl & 0x01 != 0)
  }

  lemma ControlRoundTrip(c: Control, fixed: bool)
    ensures ReadControl(ControlOctet(c, fixed)) == c
    ensures !ReservedBit(ControlOctet(c, fixed)) && FixedBit(ControlOctet(c, fixed)) == fixed
  {
  }

  lemma ControlRestored(ctrl: byte)
    requires !ReservedBit(ctrl)
    ensures ControlOctet(ReadControl(ctrl), FixedBit(ctrl)) == ctrl
  {
  }

  /** Address type in bit 7, hop count in bits 6..4, and a length or format nibble. */
  function RoutingOctet(addressType: AddressType, hops: nat, low: nat): byte
    requires hops <= 7 && low <= 15
  {
    Flag(addressType.Group?, 0x80) | (ToOctet(hops) << 4) | (ToOctet(low) & 0x0F)
  }

  function RoutingType(b: byte): AddressType { if b & 0x80 != 0 then Group else Individual }

  function RoutingHops(b: byte): (hops: nat)
    ensures hops <= 7
  {
    ((b >> 4) & 0x07) as nat
  }

  function RoutingLow(b: byte): (low: nat)
    ensures low <= 15
  {
    (b & 0x0F) as nat
  }

  lemma RoutingRoundTrip(addressType: AddressType, hops: nat, low: nat)
    requires hops <= 7 && low <= 15
    ensures var b := RoutingOctet(addressType, hops, low);
      RoutingType(b) == addressType && RoutingHops(b) == hops && RoutingLow(b) == low
  {
    var h, l := ToOctet(hops), ToOctet(low);
    var b := RoutingOctet(addressType, hops, low);
    assert h <= 7 && l <= 15;
    assert (b >> 4) & 0x07 == h && b & 0x0F == l;
  }

  lemma RoutingRestored(b: byte)
    ensures RoutingOctet(RoutingType(b), RoutingHops(b), RoutingLow(b)) == b
  {
    OctetRestored((b >> 4) & 0x07);
    OctetRestored(b & 0x0F);
    hide ToOctet;
  }

  // ---------------------------------------------------------------------------
  // Wire layout
  // ---------------------------------------------------------------------------

  /** Standard frames carry up to 16 TPDU octets; longer ones go out as L_Data_Extended. */
  predicate IsExtended(f: LDataFrame) { |f.tpdu| > 16 }

  function ControlOf(f: LDataFrame, extended: bool): Control {
    Control(!extended, f.repeated, f.priority, f.ackRequested, f.confirmation)
  }

  /** The fields fit their places in one of the two formats. */
  predicate Framable(f: LDataFrame, extended: bool) {
    1 <= |f.tpdu| <= (if extended then 256 else 16) && f.hopCount <= 7
  }

  function StandardHeader(ctrl: byte, source: word, destination: word, routing: byte): (h: seq<byte>)
    ensures |h| == 6
  {
    [ctrl, HighByte(source), LowByte(source), HighByte(destination), LowByte(destination), routing]
  }

  function ExtendedHeader(ctrl: byte, routing: byte, source: word, destination: word, length: byte): (h: seq<byte>)
    ensures |h| == 7
  {
    [ctrl, routing, HighByte(source), LowByte(source), HighByte(destination), LowByte(destination), length]
  }

  function Header(f: LDataFrame, extended: bool, fixed: bool): (h: seq<byte>)
    requires Framable(f, extended)
    ensures |h| == if extended then 7 else 6
  {
    var ctrl := ControlOctet(ControlOf(f, extended), fixed);
    var length := |f.tpdu| - 1;
    if extended then
      ExtendedHeader(ctrl, RoutingOctet(f.destinationType, f.hopCount, 0), f.source, f.destination, ToOctet(length))
    else
      StandardHeader(ctrl, f.source, f.destination, RoutingOctet(f.destinationType, f.hopCount, length))
  }

  ghost function Body(f: LDataFrame, extended: bool, fixed: bool): seq<byte>
    requires Framable(f, extended)
  {
    Header(f, extended, fixed) + f.tpdu
  }

  /** The octets of a frame in one of the formats. */
  ghost function Framed(f: LDataFrame, extended: bool, fixed: bool): seq<byte>
    requires Framable(f, extended)
  {
    Body(f, extended, fixed) + [Fcs(Body(f, extended, fixed))]
  }

  /** The octets of a frame as the encoder sends it. */
  ghost function Wire(f: LDataFrame): seq<byte>
    requires 1 <= |f.tpdu| <= 256 && f.hopCount <= 7
  {
    Framed(f, IsExtended(f), true)
  }

  function WireLength(f: LDataFrame): nat { |f.tpdu| + if IsExtended(f) then 8 else 7 }

  /**
   * Encodes into a caller-supplied buffer through a moving index. A valid frame has 1 to 256 TPDU
   * octets, so there is no separate length error.
   */
  method EncodeFrame(f: LDataFrame, buffer: array<byte>) returns (r: Result<nat>)
    modifies buffer
    ensures !IsValid(f) ==> r == Err(InvalidParameter)
    ensures IsValid(f) && buffer.Length < WireLength(f) ==> r == Err(BufferTooSmall)
    ensures IsValid(f) && buffer.Length >= WireLength(f) ==> r == Ok(WireLength(f))
    ensures r.Ok? ==> buffer[..r.value] == Wire(f)
    ensures forall k :: (if r.Ok? then r.value else 0) <= k < buffer.Length ==> buffer[k] == old(buffer[k])
  {
    hide ControlOctet, RoutingOctet, HighByte, LowByte;
    if !IsValid(f) {
      return Err(InvalidParameter);
    }
    if buffer.Length < WireLength(f) {
      return Err(BufferTooSmall);
    }
    var idx := CopyInto(buffer, 0, Header(f, IsExtended(f), true));
    idx := CopyInto(buffer, idx, f.tpdu);
    assert buffer[..idx] == Body(f, IsExtended(f), true);
    var checksum := CalculateChecksum(buffer[..idx]);
    idx := CopyInto(buffer, idx, [checksum]);
    r := Ok(idx);
  }

  // ---------------------------------------------------------------------------
  // Decoding
  // ---------------------------------------------------------------------------

  /** The frame read from a control octet, the address block at `at`, and a routing octet. */
  function ReadFields(buffer: seq<byte>, at: nat, routing: byte, tpdu: seq<byte>): LDataFrame
    requires 1 <= at && at + 4 <= |buffer|
  {
    var c := ReadControl(buffer[0]);
    LDataFrame(c.standard, c.repeated, c.priority, c.ack, c.confirm,
      MakeWord(buffer[at], buffer[at + 1]), MakeWord(buffer[at + 2], buffer[at + 3]),
      RoutingType(routing), RoutingHops(routing), tpdu)
  }

  function Validated(f: LDataFrame): Result<LDataFrame> { if IsValid(f) then Ok(f) else Err(DecodeFailed) }

  /** What follows the checksum test; the formats put the address block at octet 1 or octet 2. */
  function Parse(buffer: seq<byte>): Result<LDataFrame>
    requires |buffer| >= 7
  {
    if ReservedBit(buffer[0]) then Err(InvalidFrameSize)
    else if ReadControl(buffer[0]).standard then
      var length := RoutingLow(buffer[5]) + 1;
      if |buffer| != 6 + length + 1 then Err(InvalidFrameSize)
      else Validated(ReadFields(buffer, 1, buffer[5], buffer[6..6 + length]))
    else if |buffer| < 9 || RoutingLow(buffer[1]) != 0 then Err(InvalidFrameSize)
    else
      var length := buffer[6] as nat + 1;
      if |buffer| != 7 + length + 1 then Err(InvalidFrameSize)
      else Validated(ReadFields(buffer, 2, buffer[1], buffer[7..7 + length]))
  }

  ghost function Decode(buffer: seq<byte>): Result<LDataFrame> {
    if |buffer| < 7 then Err(InvalidFrameSize)
    else if Fcs(buffer[..|buffer| - 1]) != buffer[|buffer| - 1] then Err(ChecksumError)
    else Parse(buffer)
  }

  method DecodeFrame(buffer: seq<byte>) returns (r: Result<LDataFrame>)
    ensures r == Decode(buffer)
  {
    if |buffer| < 7 {
      return Err(InvalidFrameSize);
    }
    var checksum := CalculateChecksum(buffer[..|buffer| - 1]);
    if checksum != buffer[|buffer| - 1] {
      return Err(ChecksumError);
    }
    r := Parse(buffer);
  }

  // ---------------------------------------------------------------------------
  // Properties
  // ---------------------------------------------------------------------------

  /** The frame a receiver sees: the format flag follows from the TPDU length alone. */
  function OnWire(f: LDataFrame): LDataFrame { f.(standardFrame := !IsExtended(f)) }

  lemma FramedParts(f: LDataFrame, extended: bool, fixed: bool)
    requires Framable(f, extended)
    ensures var w := Framed(f, extended, fixed); var h := Header(f, extended, fixed);
      && |w| == |h| + |f.tpdu| + 1
      && w[..|w| - 1] == Body(f, extended, fixed) && w[|w| - 1] == Fcs(Body(f, extended, fixed))
      && w[..|h|] == h && w[|h|..|h| + |f.tpdu|] == f.tpdu
  {
    hide Header, Fcs;
  }

  lemma WireParts(f: LDataFrame)
    requires IsValid(f)
    ensures var w := Wire(f);
      |w| == (if IsExtended(f) then 8 else 7) + |f.tpdu| && w[0] == ControlOctet(ControlOf(f, IsExtended(f)), true)
  {
    hide ControlOctet, RoutingOctet, HighByte, LowByte, Fcs;
    FramedParts(f, IsExtended(f), true);
  }

  lemma FieldsOfHeader(f: LDataFrame, extended: bool, fixed: bool, w: seq<byte>, at: nat, routing: byte)
    requires 1 <= at && at + 4 <= |w|
    requires w[0] == ControlOctet(ControlOf(f, extended), fixed)
    requires w[at] == HighByte(f.source) && w[at + 1] == LowByte(f.source)
    requires w[at + 2] == HighByte(f.destination) && w[at + 3] == LowByte(f.destination)
    requires RoutingType(routing) == f.destinationType && RoutingHops(routing) == f.hopCount
    ensures ReadFields(w, at, routing, f.tpdu) == f.(standardFrame := !extended)
  {
    hide ControlOctet, HighByte, LowByte, MakeWord, ReadControl, RoutingType, RoutingHops;
    ControlRoundTrip(ControlOf(f, extended), fixed);
    SplitThenJoin(f.source);
    SplitThenJoin(f.destination);
  }

  lemma ParseOfFramed(f: LDataFrame, extended: bool, fixed: bool)
    requires Framable(f, extended)
    ensures Parse(Framed(f, extended, fixed)) == Validated(f.(standardFrame := !extended))
  {
    hide ControlOctet, RoutingOctet, HighByte, LowByte, MakeWord, ReadControl, ReservedBit,
      RoutingType, RoutingHops, RoutingLow, Fcs, ReadFields, Validated, Framed, Body, ToOctet;
    FramedParts(f, extended, fixed);
    ControlRoundTrip(ControlOf(f, extended), fixed);
    RoutingRoundTrip(f.destinationType, f.hopCount, if extended then 0 else |f.tpdu| - 1);
    LengthOctet(|f.tpdu| - 1);
    var w, h := Framed(f, extended, fixed), Header(f, extended, fixed);
    assert forall k :: 0 <= k < |h| ==> w[k] == h[k];
    FieldsOfHeader(f, extended, fixed, w, |h| - 5, if extended then w[1] else w[5]);
  }

  /** Framed octets are decoded to the frame, in both formats and with either value of bit 4, if it has a source. */
  lemma DecodeOfFramed(f: LDataFrame, extended: bool, fixed: bool)
    requires Framable(f, extended)
    ensures Decode(Framed(f, extended, fixed))
      == if f.source != 0 then Ok(f.(standardFrame := !extended)) else Err(DecodeFailed)
  {
    FramedParts(f, extended, fixed);
    ParseOfFramed(f, extended, fixed);
    ValidIff(f.(standardFrame := !extended));
    hide Parse, Header, Fcs, Framed, Body, IsValid;
  }

  /** Decoding inverts encoding on every valid frame, in both formats. */
  lemma DecodeInvertsEncode(f: LDataFrame)
    requires IsValid(f)
    ensures Decode(Wire(f)) == Ok(OnWire(f))
  {
    ValidIff(f);
    hide Decode, Framed;
    DecodeOfFramed(f, IsExtended(f), true);
  }

  /** Setting the repeat flag in a buffered frame and refreshing the check octet. */
  ghost function MarkRepeated(buffer: seq<byte>): (r: seq<byte>)
    requires |buffer| >= 2
    ensures |r| == |buffer|
  {
    var body := buffer[..|buffer| - 1][0 := buffer[0] & 0xDF];
    body + [Fcs(body)]
  }

  lemma RepeatBitCleared(c: Control)
    ensures ControlOctet(c, true) & 0xDF == ControlOctet(c.(repeated := true), true)
  {
  }

  /** Patching the octets in place is the same as encoding the frame with its flag set. */
  lemma MarkRepeatedCommutes(f: LDataFrame)
    requires IsValid(f)
    ensures MarkRepeated(Wire(f)) == Wire(f.(repeated := true))
  {
    var g, extended := f.(repeated := true), IsExtended(f);
    RepeatedHeader(f, extended);
    FramedParts(f, extended, true);
    hide Header, Fcs, ControlOctet;
    var h, h' := Header(f, extended, true), Header(g, extended, true);
    PatchedBody(h, f.tpdu, h'[0]);
  }

  lemma PatchedBody(header: seq<byte>, tpdu: seq<byte>, ctrl: byte)
    requires header != []
    ensures (header + tpdu)[0 := ctrl] == header[0 := ctrl] + tpdu && (header + tpdu)[0] == header[0]
  {
  }

  lemma PatchedHeaders(ctrl: byte, patched: byte, source: word, destination: word, routing: byte, length: byte)
    ensures StandardHeader(ctrl, source, destination, routing)[0 := patched]
         == StandardHeader(patched, source, destination, routing)
    ensures ExtendedHeader(ctrl, routing, source, destination, length)[0 := patched]
         == ExtendedHeader(patched, routing, source, destination, length)
    ensures StandardHeader(ctrl, source, destination, routing)[0] == ctrl
    ensures ExtendedHeader(ctrl, routing, source, destination, length)[0] == ctrl
  {
    hide HighByte, LowByte;
  }

  lemma RepeatedHeader(f: LDataFrame, extended: bool)
    requires Framable(f, extended)
    ensures var h, g := Header(f, extended, true), Header(f.(repeated := true), extended, true);
      h[0] == ControlOctet(ControlOf(f, extended), true) && g[0] == h[0] & 0xDF && g == h[0 := g[0]]
  {
    var c := ControlOf(f, extended);
    RepeatBitCleared(c);
    hide ControlOctet, RoutingOctet, StandardHeader, ExtendedHeader, ToOctet;
    var length, patched := |f.tpdu| - 1, ControlOctet(c.(repeated := true), true);
    PatchedHeaders(ControlOctet(c, true), patched, f.source, f.destination,
      RoutingOctet(f.destinationType, f.hopCount, if extended then 0 else length), ToOctet(length));
    PatchedHeaders(patched, patched, f.source, f.destination,
      RoutingOctet(f.destinationType, f.hopCount, if extended then 0 else length), ToOctet(length));
  }

  lemma XorMoves(x: byte, a: byte, b: byte)
    requires a != b
    ensures x ^ a ^ b != x
  {
  }

  /** One changed octet, anywhere in an accepted buffer, makes the decoder reject it. */
  lemma SingleOctetCorruptionIsRejected(buffer: seq<byte>, i: nat, b: byte)
    requires Decode(buffer).Ok? && i < |buffer| && b != buffer[i]
    ensures Decode(buffer[i := b]) == Err(ChecksumError)
  {
    var n := |buffer| - 1;
    if i < n {
      FcsUpdate(buffer[..n], i, b);
      XorMoves(Fcs(buffer[..n]), buffer[i], b);
      assert buffer[i := b][..n] == buffer[..n][i := b];
    } else {
      assert buffer[i := b][..n] == buffer[..n];
    }
  }

  // ---------------------------------------------------------------------------
  // Exactly which octets are accepted
  // ---------------------------------------------------------------------------

  /** What a buffer that passes the format checks holds. */
  lemma FormatHolds(buffer: seq<byte>)
    requires |buffer| >= 7 && Parse(buffer) != Err(InvalidFrameSize)
    ensures !ReservedBit(buffer[0])
    ensures var standard := ReadControl(buffer[0]).standard;
      if standard then |buffer| == 7 + RoutingLow(buffer[5]) + 1
      else |buffer| >= 9 && RoutingLow(buffer[1]) == 0 && |buffer| == 8 + buffer[6] as nat + 1
  {
    hide ReadControl, ReservedBit, RoutingLow, ReadFields;
  }

  /** The frame a buffer would stand for, whether it is valid or not. */
  ghost function Held(buffer: seq<byte>): LDataFrame
    requires |buffer| >= 7 && Parse(buffer) != Err(InvalidFrameSize)
  {
    FormatHolds(buffer);
    if ReadControl(buffer[0]).standard then ReadFields(buffer, 1, buffer[5], buffer[6..|buffer| - 1])
    else ReadFields(buffer, 2, buffer[1], buffer[7..|buffer| - 1])
  }

  lemma HeldIsParsed(buffer: seq<byte>)
    requires |buffer| >= 7 && Parse(buffer) != Err(InvalidFrameSize)
    ensures Parse(buffer) == Validated(Held(buffer))
    ensures Framable(Held(buffer), !ReadControl(buffer[0]).standard)
    ensures Held(buffer).standardFrame == ReadControl(buffer[0]).standard
  {
    hide ReservedBit, MakeWord, RoutingType, Validated;
    FormatHolds(buffer);
    LengthOctet(buffer[6] as nat);
  }

  lemma HeadersRestored(buffer: seq<byte>)
    requires |buffer| >= 7
    ensures StandardHeader(buffer[0], MakeWord(buffer[1], buffer[2]), MakeWord(buffer[3], buffer[4]), buffer[5])
         == buffer[..6]
    ensures ExtendedHeader(buffer[0], buffer[1], MakeWord(buffer[2], buffer[3]), MakeWord(buffer[4], buffer[5]), buffer[6])
         == buffer[..7]
  {
    JoinThenSplit(buffer[1], buffer[2]);
    JoinThenSplit(buffer[3], buffer[4]);
    JoinThenSplit(buffer[2], buffer[3]);
    JoinThenSplit(buffer[4], buffer[5]);
    hide HighByte, LowByte, MakeWord;
  }

  lemma HeldFields(buffer: seq<byte>)
    requires |buffer| >= 7 && Parse(buffer) != Err(InvalidFrameSize)
    ensures var f := Held(buffer); var extended := !ReadControl(buffer[0]).standard; var at := if extended then 2 else 1;
      var routing := if extended then buffer[1] else buffer[5];
      && at + 5 < |buffer|
      && ControlOf(f, extended) == ReadControl(buffer[0])
      && f.source == MakeWord(buffer[at], buffer[at + 1]) && f.destination == MakeWord(buffer[at + 2], buffer[at + 3])
      && f.destinationType == RoutingType(routing) && f.hopCount == RoutingHops(routing)
      && f.tpdu == buffer[at + 5..|buffer| - 1]
      && RoutingLow(routing) == (if extended then 0 else |f.tpdu| - 1)
      && (extended ==> buffer[6] as nat == |f.tpdu| - 1)
  {
    FormatHolds(buffer);
    hide Parse, MakeWord, ReadControl, ReservedBit, RoutingType, RoutingHops, RoutingLow;
  }

  lemma HeaderRestored(buffer: seq<byte>)
    requires |buffer| >= 7 && Parse(buffer) != Err(InvalidFrameSize)
    ensures var f := Held(buffer); var extended := !ReadControl(buffer[0]).standard;
      && Framable(f, extended) && f.tpdu == buffer[if extended then 7 else 6..|buffer| - 1]
      && Header(f, extended, FixedBit(buffer[0])) == buffer[..if extended then 7 else 6]
  {
    FormatHolds(buffer);
    HeldIsParsed(buffer);
    HeldFields(buffer);
    HeadersRestored(buffer);
    ControlRestored(buffer[0]);
    RoutingRestored(if ReadControl(buffer[0]).standard then buffer[5] else buffer[1]);
    OctetRestored(buffer[6]);
    hide Parse, Held, ControlOf, ControlOctet, RoutingOctet, StandardHeader, ExtendedHeader, MakeWord, ReadControl,
      ReservedBit, FixedBit, RoutingType, RoutingHops, RoutingLow, ToOctet;
  }

  lemma Reassembled(buffer: seq<byte>, h: nat)
    requires h < |buffer|
    ensures buffer == buffer[..h] + buffer[h..|buffer| - 1] + [buffer[|buffer| - 1]]
    ensures buffer[..h] + buffer[h..|buffer| - 1] == buffer[..|buffer| - 1]
  {
  }

  /** A buffer that passes checksum and format is the framing of what it holds. */
  lemma AcceptedIsFramed(buffer: seq<byte>)
    requires |buffer| >= 7 && Parse(buffer) != Err(InvalidFrameSize)
    requires Fcs(buffer[..|buffer| - 1]) == buffer[|buffer| - 1]
    ensures var f, extended := Held(buffer), !ReadControl(buffer[0]).standard;
      Framable(f, extended) && buffer == Framed(f, extended, FixedBit(buffer[0]))
  {
    FormatHolds(buffer);
    HeaderRestored(buffer);
    hide Parse, ReadControl, ReservedBit, RoutingLow, FixedBit, Header, Fcs, Framable, Held;
    Reassembled(buffer, if ReadControl(buffer[0]).standard then 6 else 7);
  }

  /** The decoder accepts exactly the framings of frames with a source, and gives the frame. */
  lemma DecodeIff(buffer: seq<byte>, f: LDataFrame)
    ensures Decode(buffer) == Ok(f) <==>
      && Framable(f, !f.standardFrame) && f.source != 0
      && (buffer == Framed(f, !f.standardFrame, true) || buffer == Framed(f, !f.standardFrame, false))
  {
    hide Framable, Framed, Header, Fcs, IsValid;
    if Decode(buffer) == Ok(f) {
      AcceptedIsFramed(buffer);
      HeldIsParsed(buffer);
      ValidIff(f);
    } else if Framable(f, !f.standardFrame) {
      DecodeOfFramed(f, !f.standardFrame, true);
      DecodeOfFramed(f, !f.standardFrame, false);
    }
  }

  /** Octets the encoder could have produced: bit 4 set, and no extended frame that fits a standard one. */
  ghost predicate Canonical(buffer: seq<byte>)
    requires |buffer| >= 7
  {
    FixedBit(buffer[0]) && (!ReadControl(buffer[0]).standard ==> |buffer| > 8 + 16)
  }

  /** Encoding after decoding gives the same octets exactly for canonical buffers. */
  lemma EncodeInvertsDecode(buffer: seq<byte>)
    requires Decode(buffer).Ok?
    ensures IsValid(Decode(buffer).value) && (Wire(Decode(buffer).value) == buffer <==> Canonical(buffer))
  {
    AcceptedIsFramed(buffer);
    HeldIsParsed(buffer);
    var f, extended := Held(buffer), !ReadControl(buffer[0]).standard;
    FramedParts(f, extended, FixedBit(buffer[0]));
    WireParts(f);
    ControlRoundTrip(ControlOf(f, IsExtended(f)), true);
    hide ControlOctet, ReadControl, FixedBit, Header, Parse, Fcs, Held;
  }

  // ---------------------------------------------------------------------------
  // The octets as numbers and as bits
  // ---------------------------------------------------------------------------

  /** One bit of an octet. */
  predicate Bit(b: byte, mask: byte) { b & mask != 0 }

  const BITS: set<byte> := {0x01, 0x02, 0x04, 0x08, 0x10, 0x20, 0x40, 0x80}

  /** How many octets have a bit set. */
  function BitCount(data: seq<byte>, mask: byte): nat {
    if data == [] then 0 else BitCount(data[..|data| - 1], mask) + if Bit(data[|data| - 1], mask) then 1 else 0
  }

  lemma BitOfXor(a: byte, b: byte, mask: byte)
    requires mask in BITS
    ensures Bit(a ^ b, mask) == (Bit(a, mask) != Bit(b, mask)) && Bit(0xFF, mask)
  {
  }

  lemma SameBits(a: byte, b: byte)
    requires forall mask :: mask in BITS ==> Bit(a, mask) == Bit(b, mask)
    ensures a == b
  {
    assert Bit(a, 0x01) == Bit(b, 0x01) && Bit(a, 0x02) == Bit(b, 0x02) && Bit(a, 0x04) == Bit(b, 0x04);
    assert Bit(a, 0x08) == Bit(b, 0x08) && Bit(a, 0x10) == Bit(b, 0x10) && Bit(a, 0x20) == Bit(b, 0x20);
    assert Bit(a, 0x40) == Bit(b, 0x40) && Bit(a, 0x80) == Bit(b, 0x80);
  }

  lemma {:induction false} FcsParity(data: seq<byte>, mask: byte)
    requires mask in BITS
    ensures Bit(Fcs(data), mask) <==> BitCount(data, mask) % 2 == 0
  {
    hide Bit;
    if data == [] {
      BitOfXor(0, 0, mask);
    } else {
      var n := |data| - 1;
      FcsParity(data[..n], mask);
      BitOfXor(Fcs(data[..n]), data[n], mask);
    }
  }

  /** The check octet is right exactly if every bit is set in an odd number of the octets of the whole buffer. */
  lemma ChecksumIff(buffer: seq<byte>)
    requires buffer != []
    ensures Fcs(buffer[..|buffer| - 1]) == buffer[|buffer| - 1]
      <==> forall mask :: mask in BITS ==> BitCount(buffer, mask) % 2 == 1
  {
    hide Bit, Fcs;
    var front, last := buffer[..|buffer| - 1], buffer[|buffer| - 1];
    forall mask | mask in BITS
      ensures BitCount(buffer, mask) % 2 == 1 <==> Bit(Fcs(front), mask) == Bit(last, mask)
    {
      FcsParity(front, mask);
    }
    if forall mask :: mask in BITS ==> BitCount(buffer, mask) % 2 == 1 {
      SameBits(Fcs(front), last);
    }
  }

  /** Which error the decoder reports for a buffer it does not accept. */
  lemma DecodeErrors(buffer: seq<byte>)
    ensures |buffer| < 7 ==> Decode(buffer) == Err(InvalidFrameSize)
    ensures Decode(buffer) == Err(ChecksumError) <==>
      |buffer| >= 7 && exists mask :: mask in BITS && BitCount(buffer, mask) % 2 == 0
    ensures Decode(buffer) == Err(DecodeFailed) ==>
      exists f: LDataFrame, extended, fixed :: Framable(f, extended) && f.source == 0 && buffer == Framed(f, extended, fixed)
    ensures Decode(buffer).Err? ==> Decode(buffer).error in {InvalidFrameSize, ChecksumError, DecodeFailed}
  {
    hide Fcs, BitCount, Framed, Framable, IsValid;
    if |buffer| >= 7 {
      ChecksumIff(buffer);
      if Decode(buffer) == Err(DecodeFailed) {
        AcceptedIsFramed(buffer);
        HeldIsParsed(buffer);
        ValidIff(Held(buffer));
        hide Held, Parse;
        DecodeOfFramed(Held(buffer), !ReadControl(buffer[0]).standard, FixedBit(buffer[0]));
      }
    }
  }

  lemma ControlNumber(c: Control, fixed: bool)
    ensures ControlOctet(c, fixed) as int
      == (if c.standard then 128 else 0) + (if c.repeated then 0 else 32) + (if fixed then 16 else 0)
         + (match c.priority case System => 0 case Normal => 4 case Urgent => 8 case Low => 12)
         + (if c.ack then 2 else 0) + (if c.confirm then 1 else 0)
  {
  }

  lemma RoutingNumber(addressType: AddressType, hops: nat, low: nat)
    requires hops <= 7 && low <= 15
    ensures RoutingOctet(addressType, hops, low) as int == (if addressType.Group? then 128 else 0) + 16 * hops + low
  {
    var h, l := ToOctet(hops), ToOctet(low);
    LengthOctet(hops);
    LengthOctet(low);
    RoutingSum(addressType.Group?, h, l);
    hide Flag;
  }

  lemma RoutingSum(group: bool, h: byte, l: byte)
    requires h <= 7 && l <= 15
    ensures (Flag(group, 0x80) | (h << 4) | (l & 0x0F)) as int == (if group then 128 else 0) + 16 * (h as int) + l as int
  {
    assert Flag(group, 0x80) | (h << 4) | (l & 0x0F) == Flag(group, 0x80) + (h << 4) + l;
  }

  /** The layout of a frame, octet by octet: numbers are big-endian, the length is one less than the TPDU's. */
  lemma FrameLayout(f: LDataFrame, extended: bool, fixed: bool)
    requires Framable(f, extended)
    ensures var w, at := Framed(f, extended, fixed), if extended then 2 else 1;
      && |w| == (if extended then 8 else 7) + |f.tpdu|
      && w[0] as int
         == (if extended then 0 else 128) + (if f.repeated then 0 else 32) + (if fixed then 16 else 0)
            + (match f.priority case System => 0 case Normal => 4 case Urgent => 8 case Low => 12)
            + (if f.ackRequested then 2 else 0) + (if f.confirmation then 1 else 0)
      && 256 * (w[at] as int) + w[at + 1] as int == f.source as int
      && 256 * (w[at + 2] as int) + w[at + 3] as int == f.destination as int
      && w[if extended then 1 else 5] as int
         == (if f.destinationType.Group? then 128 else 0) + 16 * f.hopCount + (if extended then 0 else |f.tpdu| - 1)
      && (extended ==> w[6] as int == |f.tpdu| - 1)
      && w[at + 5..at + 5 + |f.tpdu|] == f.tpdu
  {
    FramedParts(f, extended, fixed);
    ControlNumber(ControlOf(f, extended), fixed);
    RoutingNumber(f.destinationType, f.hopCount, if extended then 0 else |f.tpdu| - 1);
    SplitNumber(f.source);
    SplitNumber(f.destination);
    LengthOctet(|f.tpdu| - 1);
    hide ControlOctet, RoutingOctet, HighByte, LowByte, Fcs, ToOctet, Framed, Body;
    var w, h := Framed(f, extended, fixed), Header(f, extended, fixed);
    assert forall k :: 0 <= k < |h| ==> w[k] == h[k];
  }

  /** In every framed frame each bit is set in an odd number of octets. */
  lemma FramedParity(f: LDataFrame, extended: bool, fixed: bool, mask: byte)
    requires Framable(f, extended) && mask in BITS
    ensures BitCount(Framed(f, extended, fixed), mask) % 2 == 1
  {
    hide Fcs, BitCount, Header;
    FramedParts(f, extended, fixed);
    ChecksumIff(Framed(f, extended, fixed));
  }

  /** Device 1.1.1 switches group 1/1/1 on. */
  const SWITCH_ON := LDataFrame(true, false, Low, false, false, 0x1101, 0x0901, Group, 6, [0x00, 0x81])

  lemma FcsAppend(data: seq<byte>, b: byte)
    ensures Fcs(data + [b]) == Fcs(data) ^ b
  {
    assert (data + [b])[..|data|] == data;
  }

  lemma SwitchOnBody()
    ensures Body(SWITCH_ON, false, true) == [0xBC, 0x11, 0x01, 0x09, 0x01, 0xE1, 0x00, 0x81]
  {
  }

  lemma SwitchOnTelegram()
    ensures IsValid(SWITCH_ON) && Wire(SWITCH_ON) == [0xBC, 0x11, 0x01, 0x09, 0x01, 0xE1, 0x00, 0x81, 0x3B]
  {
    SwitchOnBody();
    hide Header;
    var a: seq<byte>, b: seq<byte> := [0xBC, 0x11, 0x01, 0x09], [0x01, 0xE1, 0x00, 0x81];
    FcsAppend([], 0xBC);
    FcsAppend([0xBC], 0x11);
    FcsAppend([0xBC, 0x11], 0x01);
    FcsAppend([0xBC, 0x11, 0x01], 0x09);
    assert [] + [0xBC as byte] == [0xBC] && [0xBC as byte] + [0x11] == [0xBC, 0x11];
    assert [0xBC as byte, 0x11] + [0x01] == [0xBC, 0x11, 0x01] && [0xBC as byte, 0x11, 0x01] + [0x09] == a;
    FcsAppend(a, 0x01);
    FcsAppend(a + [0x01], 0xE1);
    FcsAppend(a + [0x01] + [0xE1], 0x00);
    FcsAppend(a + [0x01] + [0xE1] + [0x00], 0x81);
    var body: seq<byte> := [0xBC, 0x11, 0x01, 0x09, 0x01, 0xE1, 0x00, 0x81];
    assert a + [0x01] + [0xE1] + [0x00] + [0x81] == a + b == body;
    assert Fcs(body) == 0x3B;
    assert Wire(SWITCH_ON) == body + [0x3B];
  }
}
