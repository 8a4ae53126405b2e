/** Octets, 16-bit words in big-endian order, and the stack's error codes. */
module Octets {

  type byte = bv8

  /** A 16-bit quantity: an address, a length field or a table count. */
  type word = bv16

  datatype ErrorCode =
    | Busy
    | Timeout
    | TransmissionFailed
    | NotInitialized
    | OperationNotReady
    | OperationNotSupported
    | OperationFailed
    | InvalidParameter
    | InvalidAddress
    | InvalidFrameSize
    | BufferTooSmall
    | ChecksumError
    | DecodeFailed
    | ResourceUnavailable

  datatype Result<+T> = Ok(value: T) | Err(error: ErrorCode)

  datatype Option<+T> = None | Some(value: T)

  function HighByte(w: word): byte { ((w >> 8) & 0xFF) as byte }

  function LowByte(w: word): byte { (w & 0xFF) as byte }

  function MakeWord(hi: byte, lo: byte): word { ((hi as word) << 8) | lo as word }

  /** Splitting a word into octets and joining them again gives the word. */
  lemma SplitThenJoin(w: word)
    ensures MakeWord(HighByte(w), LowByte(w)) == w
  {
  }

  /** Joining two octets and splitting the word again gives the octets. */
  lemma JoinThenSplit(hi: byte, lo: byte)
    ensures HighByte(MakeWord(hi, lo)) == hi && LowByte(MakeWord(hi, lo)) == lo
  {
  }

  /** Two octets in big-endian order, as a number. */
  function Number16(hi: byte, lo: byte): nat { 256 * (hi as nat) + lo as nat }

  lemma HighPart(hi: byte)
    ensures ((hi as word) << 8) as int == 256 * (hi as int)
  {
  }

  lemma JoinIsSum(hi: byte, lo: byte)
    ensures MakeWord(hi, lo) == ((hi as word) << 8) + lo as word
  {
  }

  lemma SumOfParts(hi: byte, lo: byte)
    ensures (((hi as word) << 8) + lo as word) as int == ((hi as word) << 8) as int + lo as int
  {
  }

  /** A joined word is the number its octets stand for. */
  lemma JoinedNumber(hi: byte, lo: byte)
    ensures MakeWord(hi, lo) as int == Number16(hi, lo)
  {
    HighPart(hi);
    JoinIsSum(hi, lo);
    SumOfParts(hi, lo);
    hide MakeWord;
  }

  /** The octets of a word stand for it. */
  lemma SplitNumber(w: word)
    ensures Number16(HighByte(w), LowByte(w)) == w as int
  {
    SplitThenJoin(w);
    hide HighByte, LowByte, MakeWord;
    JoinedNumber(HighByte(w), LowByte(w));
  }

  function ToOctet(n: nat): byte
    requires n < 0x100
  {
    n as byte
  }

  /** A length below 256, or below 16, survives the trip through an octet, or a nibble. */
  lemma LengthOctet(n: nat)
    requires n < 0x100
    ensures ToOctet(n) as int == n
    ensures n < 0x10 ==> ToOctet(n) & 0x0F == ToOctet(n)
  {
    assert n / 0x100 == 0 && n % 0x100 == n;
  }

  lemma OctetRestored(b: byte)
    ensures ToOctet(b as nat) == b
  {
  }

  /** A count truncated to 16 bits. */
  function ToWord(n: nat): word { (n % 0x1_0000) as word }

  lemma RemainderSurvives(n: nat)
    requires n <= 0xFFFF
    ensures ((n % 0x1_0000) as word) as nat == n
  {
  }

  lemma CountSurvives(n: nat)
    requires n <= 0xFFFF
    ensures ToWord(n) as nat == n
  {
    RemainderSurvives(n);
  }

  /** A 32-bit quantity in big-endian order. */
  type dword = bv32

  function DwordOctets(d: dword): (r: seq<byte>)
    ensures |r| == 4
  {
    [((d >> 24) & 0xFF) as byte, ((d >> 16) & 0xFF) as byte, ((d >> 8) & 0xFF) as byte, (d & 0xFF) as byte]
  }

  function MakeDword(a: byte, b: byte, c: byte, d: byte): dword {
    ((a as dword) << 24) | ((b as dword) << 16) | ((c as dword) << 8) | d as dword
  }

  /** Four octets in big-endian order, as a number. */
  function Number32(a: byte, b: byte, c: byte, d: byte): nat { 0x1_0000 * Number16(a, b) + Number16(c, d) }

  lemma HighWord(w: word)
    ensures ((w as dword) << 16) as int == 0x1_0000 * (w as int)
  {
  }

  lemma JoinWords(a: byte, b: byte, c: byte, d: byte)
    ensures MakeDword(a, b, c, d) == ((MakeWord(a, b) as dword) << 16) + MakeWord(c, d) as dword
  {
  }

  lemma SumOfWords(hi: word, lo: word)
    ensures (((hi as dword) << 16) + lo as dword) as int == ((hi as dword) << 16) as int + lo as int
  {
  }

  lemma JoinedNumber32(a: byte, b: byte, c: byte, d: byte)
    ensures MakeDword(a, b, c, d) as int == Number32(a, b, c, d)
  {
    JoinWords(a, b, c, d);
    hide MakeWord, MakeDword;
    HighWord(MakeWord(a, b));
    SumOfWords(MakeWord(a, b), MakeWord(c, d));
    JoinedNumber(a, b);
    JoinedNumber(c, d);
  }

  lemma DwordRoundTrip(d: dword)
    ensures var r := DwordOctets(d); MakeDword(r[0], r[1], r[2], r[3]) == d
  {
  }

  lemma DwordInjective(a: byte, b: byte, c: byte, d: byte)
    ensures DwordOctets(MakeDword(a, b, c, d)) == [a, b, c, d]
  {
  }

  function WordOctets(w: word): (r: seq<byte>)
    ensures |r| == 2
  {
    [HighByte(w), LowByte(w)]
  }

  /** Appends octets at a moving index. */
  method CopyInto(buffer: array<byte>, start: nat, octets: seq<byte>) returns (idx: nat)
    requires start + |octets| <= buffer.Length
    modifies buffer
    ensures idx == start + |octets|
    ensures buffer[..idx] == old(buffer[..start]) + octets
    ensures forall k :: idx <= k < buffer.Length ==> buffer[k] == old(buffer[k])
  {
    idx := start;
    while idx < start + |octets|
      invariant start <= idx <= start + |octets|
      invariant buffer[..idx] == old(buffer[..start]) + octets[..idx - start]
      invariant forall k :: start + |octets| <= k < buffer.Length ==> buffer[k] == old(buffer[k])
    {
      buffer[idx] := octets[idx - start];
      idx := idx + 1;
    }
  }

  /** Appends octets to a part under construction that starts behind `before`. */
  method Append(buffer: array<byte>, start: nat, octets: seq<byte>, ghost before: seq<byte>, ghost part: seq<byte>)
    returns (idx: nat)
    requires start + |octets| <= buffer.Length && buffer[..start] == before + part
    modifies buffer
    ensures idx == start + |octets| && buffer[..idx] == before + (part + octets)
  {
    idx := CopyInto(buffer, start, octets);
    assert before + part + octets == before + (part + octets);
  }
}
