/**
 * DPT 9, the two-octet KNX float: an 11-bit signed mantissa in hundredths and a 4-bit exponent.
 * Everything here starts from the value already rounded to whole hundredths.
 */
module Dpt9 {
  import opened Octets

  const MIN_MANTISSA := -2048
  const MAX_MANTISSA := 2047
  const MAX_EXPONENT := 15

  predicate Fits(mantissa: int) { MIN_MANTISSA <= mantissa <= MAX_MANTISSA }

  /** q * 2^e */
  function Shifted(q: int, e: nat): int { if e == 0 then q else 2 * Shifted(q, e - 1) }

  /** Half of a number, rounded to the nearest integer with halves away from zero. */
  function HalfAway(x: int): int { if x >= 0 then (x + 1) / 2 else -((-x + 1) / 2) }

  ghost function Halved(m: int, times: nat): int {
    if times == 0 then m else HalfAway(Halved(m, times - 1))
  }

  /** The first exponent from `e` on at which the mantissa fits, or the largest exponent. */
  ghost function ExponentFrom(m: int, e: nat): (r: nat)
    requires e <= MAX_EXPONENT
    ensures e <= r <= MAX_EXPONENT
    ensures Fits(Halved(m, r)) || r == MAX_EXPONENT
    ensures forall k :: e <= k < r ==> !Fits(Halved(m, k))
    decreases MAX_EXPONENT - e
  {
    if Fits(Halved(m, e)) || e == MAX_EXPONENT then e else ExponentFrom(m, e + 1)
  }

  ghost function Exponent(m: int): nat { ExponentFrom(m, 0) }

  ghost function Mantissa(m: int): int { Halved(m, Exponent(m)) }

  /** The value, in hundredths, that the encoding of `m` stands for. */
  ghost function Value(m: int): int { Shifted(Mantissa(m), Exponent(m)) }

  /** The distance between neighbouring values at the exponent chosen for `m`. */
  ghost function Step(m: int): int { Shifted(1, Exponent(m)) }

  predicate InDomain(m: int) { MIN_MANTISSA * 0x8000 <= m <= MAX_MANTISSA * 0x8000 }

  /** The normalising loop of the encoder. */
  method Normalise(m: int) returns (mantissa: int, exponent: nat)
    ensures exponent == Exponent(m) && mantissa == Mantissa(m)
  {
    mantissa, exponent := m, 0;
    while (mantissa < MIN_MANTISSA || mantissa > MAX_MANTISSA) && exponent < MAX_EXPONENT
      invariant exponent <= MAX_EXPONENT
      invariant mantissa == Halved(m, exponent)
      invariant ExponentFrom(m, exponent) == Exponent(m)
      decreases MAX_EXPONENT - exponent
    {
      mantissa := HalfAway(mantissa);
      exponent := exponent + 1;
    }
  }

  // ---------------------------------------------------------------------------
  // The encoded word
  // ---------------------------------------------------------------------------

  /** Sign in bit 15, exponent in bits 14..11, low eleven mantissa bits in two's complement. */
  function Pack(mantissa: int, exponent: nat): (raw: nat)
    requires Fits(mantissa) && exponent <= MAX_EXPONENT
    ensures raw < 0x1_0000
  {
    (if mantissa < 0 then 0x8000 else 0) + exponent * 0x800 + mantissa % 0x800
  }

  function RawExponent(raw: nat): nat { raw / 0x800 % 16 }

  function RawMantissa(raw: nat): int { raw % 0x800 - (if raw >= 0x8000 then 0x800 else 0) }

  function DecodeRaw(raw: nat): int { Shifted(RawMantissa(raw), RawExponent(raw)) }

  method Encode(m: int) returns (r: Result<nat>)
    ensures r.Ok? <==> InDomain(m)
    ensures r.Err? ==> r == Err(InvalidParameter)
    ensures r.Ok? ==> r.value < 0x1_0000 && DecodeRaw(r.value) == Value(m) && CanonicalRaw(r.value)
  {
    var mantissa, exponent := Normalise(m);
    EncodesExactlyTheDomain(m);
    NormalisedMantissa(m);
    if mantissa < MIN_MANTISSA || mantissa > MAX_MANTISSA {
      return Err(InvalidParameter);
    }
    PackRoundTrip(mantissa, exponent);
    return Ok(Pack(mantissa, exponent));
  }

  lemma PackRoundTrip(mantissa: int, exponent: nat)
    requires Fits(mantissa) && exponent <= MAX_EXPONENT
    ensures var raw := Pack(mantissa, exponent);
      RawMantissa(raw) == mantissa && RawExponent(raw) == exponent
  {
  }

  lemma RawParts(raw: nat)
    requires raw < 0x1_0000
    ensures Fits(RawMantissa(raw)) && RawExponent(raw) <= MAX_EXPONENT
    ensures Pack(RawMantissa(raw), RawExponent(raw)) == raw
  {
  }

  // ---------------------------------------------------------------------------
  // Shifting and halving
  // ---------------------------------------------------------------------------

  lemma {:induction false} ShiftedSum(a: int, b: int, e: nat)
    ensures Shifted(a + b, e) == Shifted(a, e) + Shifted(b, e)
  {
    if e > 0 {
      ShiftedSum(a, b, e - 1);
    }
  }

  lemma {:induction false} ShiftedSign(q: int, e: nat)
    ensures q > 0 ==> Shifted(q, e) >= Shifted(1, e) >= 1
    ensures q == 0 ==> Shifted(q, e) == 0
    ensures q < 0 ==> Shifted(q, e) <= -Shifted(1, e)
    ensures Shifted(1, e) >= 1
  {
    if e > 0 {
      ShiftedSign(q, e - 1);
    }
  }

  /** Different mantissas are at least one step apart. */
  lemma ShiftedMonotone(a: int, b: int, e: nat)
    ensures a <= b ==> Shifted(a, e) <= Shifted(b, e)
    ensures a < b ==> Shifted(a, e) + Shifted(1, e) <= Shifted(b, e)
  {
    ShiftedSum(b - a, a, e);
    ShiftedSign(b - a, e);
  }

  lemma {:induction false} ShiftedGrows(q: int, e: nat, f: nat)
    requires e <= f
    ensures q >= 0 ==> Shifted(q, e) <= Shifted(q, f)
    ensures q <= 0 ==> Shifted(q, e) >= Shifted(q, f)
    decreases f - e
  {
    if e < f {
      ShiftedGrows(q, e, f - 1);
      ShiftedSign(q, f - 1);
    }
  }

  lemma {:induction false} ShiftedTwice(q: int, a: nat, b: nat)
    ensures Shifted(Shifted(q, a), b) == Shifted(q, a + b)
  {
    if b > 0 {
      ShiftedTwice(q, a, b - 1);
    }
  }

  /** Repeated halving with halves away from zero moves away from zero, by less than one step. */
  lemma {:induction false} HalvedBounds(m: int, e: nat)
    ensures m >= 0 ==> Halved(m, e) >= 0 && m <= Shifted(Halved(m, e), e) <= m + Shifted(1, e) - 1
    ensures m < 0 ==> Halved(m, e) < 0 && m - Shifted(1, e) + 1 <= Shifted(Halved(m, e), e) <= m
  {
    if e > 0 {
      HalvedBounds(m, e - 1);
      var h := Halved(m, e - 1);
      var p := HalfAway(h);
      assert Shifted(p, e) == Shifted(2 * p, e - 1) by {
        ShiftedSum(p, p, e - 1);
      }
      ShiftedSum(h, 2 * p - h, e - 1);
      assert 2 * p - h == 0 || 2 * p - h == 1 || 2 * p - h == -1;
      ShiftedSum(1, -1, e - 1);
      ShiftedSign(0, e - 1);
    }
  }

  lemma {:induction false} HalvedMonotone(a: int, b: int, e: nat)
    requires a <= b
    ensures Halved(a, e) <= Halved(b, e)
  {
    if e > 0 {
      HalvedMonotone(a, b, e - 1);
    }
  }

  lemma {:induction false} HalvedShifted(q: int, e: nat, k: nat)
    requires k <= e
    ensures Halved(Shifted(q, e), k) == Shifted(q, e - k)
  {
    if k > 0 {
      HalvedShifted(q, e, k - 1);
    }
  }

  // ---------------------------------------------------------------------------
  // Properties
  // ---------------------------------------------------------------------------

  lemma DomainEnds()
    ensures Shifted(MAX_MANTISSA, 15) == MAX_MANTISSA * 0x8000
    ensures Shifted(MIN_MANTISSA, 15) == MIN_MANTISSA * 0x8000
  {
    assert Shifted(MAX_MANTISSA, 5) == 65504 && Shifted(MIN_MANTISSA, 5) == -65536;
    assert Shifted(65504, 5) == 2096128 && Shifted(-65536, 5) == -2097152;
    ShiftedTwice(MAX_MANTISSA, 5, 5);
    ShiftedTwice(MIN_MANTISSA, 5, 5);
    assert Shifted(2096128, 5) == 67076096 && Shifted(-2097152, 5) == -67108864;
    ShiftedTwice(MAX_MANTISSA, 10, 5);
    ShiftedTwice(MIN_MANTISSA, 10, 5);
  }

  /** The values that mantissas at an exponent span. */
  predicate InRange(m: int, e: nat) { Shifted(MIN_MANTISSA, e) <= m <= Shifted(MAX_MANTISSA, e) }

  /** After any number of halvings the mantissa fits exactly if the value was in the range of that exponent. */
  lemma FitsIff(m: int, e: nat)
    ensures Fits(Halved(m, e)) <==> InRange(m, e)
  {
    HalvedBounds(m, e);
    var h := Halved(m, e);
    ShiftedMonotone(h, MAX_MANTISSA, e);
    ShiftedMonotone(MAX_MANTISSA, h, e);
    ShiftedMonotone(h, MIN_MANTISSA, e);
    ShiftedMonotone(MIN_MANTISSA, h, e);
    ShiftedSign(MIN_MANTISSA, e);
    ShiftedSign(MAX_MANTISSA, e);
  }

  /** The loop finds the smallest exponent whose range holds the value. */
  lemma ExponentIsLeast(m: int, e: nat)
    requires e <= MAX_EXPONENT && InRange(m, e)
    ensures Exponent(m) == e <==> e == 0 || !InRange(m, e - 1)
  {
    hide Shifted, Halved;
    FitsIff(m, e);
    FitsIff(m, Exponent(m));
    if e > 0 {
      FitsIff(m, e - 1);
      if Exponent(m) < e {
        ShiftedGrows(MAX_MANTISSA, Exponent(m), e - 1);
        ShiftedGrows(MIN_MANTISSA, Exponent(m), e - 1);
      }
    }
  }

  /** The ranges lie in the domain, and the last one is all of it. */
  lemma RangeInDomain(m: int, e: nat)
    requires e <= MAX_EXPONENT
    ensures InRange(m, e) ==> InDomain(m)
    ensures InDomain(m) <==> InRange(m, MAX_EXPONENT)
  {
    DomainEnds();
    ShiftedGrows(MAX_MANTISSA, e, MAX_EXPONENT);
    ShiftedGrows(MIN_MANTISSA, e, MAX_EXPONENT);
  }

  /** Every value of the domain has a smallest exponent whose range holds it. */
  lemma LeastRangeExists(m: int) returns (e: nat)
    requires InDomain(m)
    ensures e <= MAX_EXPONENT && InRange(m, e) && (e == 0 || !InRange(m, e - 1))
  {
    e := Exponent(m);
    EncodesExactlyTheDomain(m);
    FitsIff(m, e);
    ExponentIsLeast(m, e);
  }

  /** Encoding succeeds on the whole documented range and nowhere else. */
  lemma EncodesExactlyTheDomain(m: int)
    ensures Fits(Mantissa(m)) <==> InDomain(m)
  {
    FitsIff(m, Exponent(m));
    FitsIff(m, MAX_EXPONENT);
    RangeInDomain(m, Exponent(m));
  }

  /** The encoded value is off by less than one step, and never towards zero. */
  lemma ErrorBound(m: int)
    ensures Exponent(m) <= MAX_EXPONENT
    ensures -(Step(m) - 1) <= m - Value(m) <= Step(m) - 1
    ensures (m >= 0 ==> Value(m) >= m) && (m < 0 ==> Value(m) <= m)
  {
    HalvedBounds(m, Exponent(m));
  }

  /** At an exponent where a value does not fit, it lies beyond every value that does. */
  lemma BeyondTheFit(m: int, e: nat, q: int)
    requires !Fits(Halved(m, e)) && Fits(q)
    ensures m >= 0 ==> m > Shifted(q, e)
    ensures m < 0 ==> m < Shifted(q, e)
  {
    HalvedBounds(m, e);
    var h := Halved(m, e);
    ShiftedMonotone(q, h, e);
    ShiftedMonotone(h, q, e);
  }

  /** Encoding and decoding never swaps two values. */
  lemma Monotone(a: int, b: int)
    requires InDomain(a) && InDomain(b) && a <= b
    ensures Value(a) <= Value(b)
  {
    var ea, eb := Exponent(a), Exponent(b);
    EncodesExactlyTheDomain(a);
    EncodesExactlyTheDomain(b);
    HalvedBounds(a, ea);
    HalvedBounds(b, eb);
    if ea == eb {
      HalvedMonotone(a, b, ea);
      ShiftedMonotone(Mantissa(a), Mantissa(b), ea);
    } else if ea < eb {
      BeyondTheFit(b, ea, Mantissa(a));
    } else {
      BeyondTheFit(a, eb, Mantissa(b));
    }
  }

  /** A value that some mantissa and exponent represent is encoded without loss. */
  lemma RepresentableIsExact(q: int, e: nat)
    requires Fits(q) && e <= MAX_EXPONENT
    ensures var m := Shifted(q, e); Exponent(m) <= e && Fits(Mantissa(m)) && Value(m) == m
  {
    var m := Shifted(q, e);
    HalvedShifted(q, e, e);
    var k := Exponent(m);
    HalvedShifted(q, e, k);
    ShiftedTwice(q, e - k, k);
  }

  /** A mantissa and exponent are kept exactly when the mantissa would not fit doubled. */
  lemma KeptIff(q: int, e: nat)
    requires Fits(q) && e <= MAX_EXPONENT
    ensures var m := Shifted(q, e);
      Mantissa(m) == q && Exponent(m) == e <==> e == 0 || !(-1024 <= q <= 1023)
  {
    var m := Shifted(q, e);
    RepresentableIsExact(q, e);
    var k := Exponent(m);
    HalvedShifted(q, e, k);
    if e > 0 {
      HalvedShifted(q, e, e - 1);
      assert Shifted(q, 1) == 2 * q;
      if k < e {
        ShiftedGrows(q, 1, e - k);
      }
    }
  }

  /** A word whose mantissa could not be doubled at a smaller exponent. */
  predicate CanonicalRaw(raw: nat) { RawExponent(raw) == 0 || !(-1024 <= RawMantissa(raw) <= 1023) }

  /** The mantissa of a normalised value could not be doubled. */
  lemma NormalisedMantissa(m: int)
    ensures Exponent(m) == 0 || !(-1024 <= Mantissa(m) <= 1023)
  {
    if Exponent(m) > 0 {
      assert Mantissa(m) == HalfAway(Halved(m, Exponent(m) - 1));
    }
  }

  /** The word: a sign bit, four bits of exponent, and eleven bits of mantissa in two's complement with the sign. */
  lemma WordLayout(negative: bool, exponent: nat, fraction: nat)
    requires exponent < 16 && fraction < 2048
    ensures DecodeRaw((if negative then 32768 else 0) + 2048 * exponent + fraction)
         == Shifted(fraction - (if negative then 2048 else 0), exponent)
  {
  }

  /** 21.00 and -0.01. */
  lemma KnownWords()
    ensures DecodeRaw(0x0C1A) == 2100 && DecodeRaw(0x87FF) == -1
  {
    assert Shifted(1050, 1) == 2100;
    WordLayout(false, 1, 1050);
    WordLayout(true, 0, 2047);
  }

  /** Decoding a word and encoding the value again gives the same word exactly for canonical words. */
  lemma EncodeOfDecode(raw: nat)
    requires raw < 0x1_0000
    ensures var m := DecodeRaw(raw);
      Fits(Mantissa(m)) && (Pack(Mantissa(m), Exponent(m)) == raw <==> CanonicalRaw(raw))
  {
    hide Pack, RawMantissa, RawExponent, Shifted, Exponent, Mantissa;
    RawParts(raw);
    var q, e := RawMantissa(raw), RawExponent(raw);
    var m := DecodeRaw(raw);
    RepresentableIsExact(q, e);
    KeptIff(q, e);
    PackRoundTrip(Mantissa(m), Exponent(m));
  }

  lemma RemainderBelow(q: int, step: int, short: int)
    requires 0 <= short < step
    ensures (q * step - short) % step == if short == 0 then 0 else step - short
  {
    var p := if short == 0 then q else q - 1;
    var rest := if short == 0 then 0 else step - short;
    assert q * step - short == p * step + rest;
    RemainderUnique(p, step, rest);
  }

  lemma RemainderUnique(p: int, step: int, rest: int)
    requires 0 <= rest < step
    ensures (p * step + rest) % step == rest
  {
    var x := p * step + rest;
    var d, r := x / step, x % step;
    var k := d - p;
    assert k * step == rest - r;
    assert k >= 1 ==> k * step >= step;
    assert k <= -1 ==> k * step <= -step;
  }

  // ---------------------------------------------------------------------------
  // Rounding to nearest
  // ---------------------------------------------------------------------------

  function Distance(a: int, b: int): nat { if a <= b then b - a else a - b }

  /** No representable value is closer than the one chosen. */
  ghost predicate IsNearest(m: int) {
    forall q, e :: Fits(q) && 0 <= e <= MAX_EXPONENT ==> Distance(m, Value(m)) <= Distance(m, Shifted(q, e))
  }

  function Power(e: nat): (r: nat)
    ensures r >= 1
  {
    if e == 0 then 1 else 2 * Power(e - 1)
  }

  lemma {:induction false} ShiftedIsProduct(q: int, e: nat)
    ensures Shifted(q, e) == q * Power(e)
  {
    if e > 0 {
      ShiftedIsProduct(q, e - 1);
      assert q * Power(e) == 2 * (q * Power(e - 1));
    }
  }

  /** Between the last value of one exponent and the first that only the next one has. */
  predicate InGap(m: int, half: nat) { MAX_MANTISSA * half < m < (MAX_MANTISSA + 1) * half }

  /**
   * The value is representable at `e` or lies at least half way to the neighbour away from zero,
   * where the neighbours in a gap are half a step apart.
   */
  predicate NearerAway(m: int, e: nat) {
    e == 0 ||
    var half := Power(e - 1);
    var rest := (if m >= 0 then m else -m) % (2 * half);
    if InGap(m, half) then 2 * (m - MAX_MANTISSA * half) >= half else rest == 0 || rest >= half
  }

  /** The representable value next to `m` towards zero, when `m` is not representable itself. */
  ghost function Inner(m: int, half: nat): int {
    if InGap(m, half) then MAX_MANTISSA * half else if m >= 0 then Value(m) - 2 * half else Value(m) + 2 * half
  }

  /** A value at the chosen exponent or above lies at or beyond the chosen one, or a full step inside. */
  lemma CoarserValue(m: int, q: int, e: nat)
    requires Exponent(m) <= e
    ensures var x, v := Shifted(q, e), Value(m);
      x == v || x >= v + Step(m) || x <= v - Step(m)
  {
    hide Shifted, Halved, Exponent;
    var at := Exponent(m);
    var k := Shifted(q, e - at);
    ShiftedTwice(q, e - at, at);
    ShiftedMonotone(k, Mantissa(m), at);
    ShiftedMonotone(Mantissa(m), k, at);
  }

  /** Below the chosen exponent nothing reaches beyond the range of the next smaller one. */
  lemma FinerValue(q: int, e: nat, at: nat)
    requires Fits(q) && e < at
    ensures MIN_MANTISSA * Power(at - 1) <= Shifted(q, e) <= MAX_MANTISSA * Power(at - 1)
  {
    ShiftedMonotone(q, MAX_MANTISSA, e);
    ShiftedMonotone(MIN_MANTISSA, q, e);
    ShiftedGrows(MAX_MANTISSA, e, at - 1);
    ShiftedGrows(MIN_MANTISSA, e, at - 1);
    ShiftedIsProduct(MAX_MANTISSA, at - 1);
    ShiftedIsProduct(MIN_MANTISSA, at - 1);
  }

  /** Where the chosen value lies, seen from the ends of the next smaller range. */
  lemma ChosenValue(m: int)
    requires Exponent(m) > 0
    ensures var half, v := Power(Exponent(m) - 1), Value(m);
      && half >= 1 && Step(m) == 2 * half
      && (m >= 0 ==> m > MAX_MANTISSA * half && m <= v < m + 2 * half)
      && (m < 0 ==> m < MIN_MANTISSA * half && m - 2 * half < v <= m)
      && (InGap(m, half) ==> v == 2048 * half)
      && (v > 2048 * half ==> v >= 2050 * half)
      && (v < -2048 * half ==> v <= -2050 * half)
  {
    hide Shifted, Halved;
    var at := Exponent(m);
    ErrorBound(m);
    FitsIff(m, at - 1);
    ShiftedIsProduct(1, at);
    ShiftedSign(MAX_MANTISSA, at - 1);
    ShiftedIsProduct(MAX_MANTISSA, at - 1);
    ShiftedIsProduct(MIN_MANTISSA, at - 1);
    ShiftedIsProduct(1024, at);
    ShiftedIsProduct(-1024, at);
    ShiftedMonotone(Mantissa(m), 1024, at);
    ShiftedMonotone(1024, Mantissa(m), at);
    ShiftedMonotone(Mantissa(m), -1024, at);
    ShiftedMonotone(-1024, Mantissa(m), at);
  }

  /** No representable value lies strictly between the inner neighbour and the chosen value. */
  lemma NothingBetween(m: int, q: int, e: nat)
    requires Exponent(m) > 0 && Value(m) != m && Fits(q) && e <= MAX_EXPONENT
    ensures var x, v, inner := Shifted(q, e), Value(m), Inner(m, Power(Exponent(m) - 1));
      if m >= 0 then x >= v || x <= inner else x <= v || x >= inner
  {
    hide Shifted, Exponent, Halved;
    ChosenValue(m);
    if e < Exponent(m) {
      FinerValue(q, e, Exponent(m));
    } else {
      CoarserValue(m, q, e);
    }
  }

  /** The inner neighbour is representable, and lies on the other side of `m`. */
  lemma InnerIsRepresentable(m: int) returns (q: int, e: nat)
    requires InDomain(m) && Exponent(m) > 0 && Value(m) != m
    ensures Fits(q) && e <= MAX_EXPONENT && Shifted(q, e) == Inner(m, Power(Exponent(m) - 1))
    ensures if m >= 0 then Shifted(q, e) < m else Shifted(q, e) > m
  {
    hide Shifted, Halved, Exponent, Power;
    var at := Exponent(m);
    ChosenValue(m);
    ErrorBound(m);
    EncodesExactlyTheDomain(m);
    if InGap(m, Power(at - 1)) {
      q, e := MAX_MANTISSA, at - 1;
      ShiftedIsProduct(q, e);
    } else {
      q, e := if m >= 0 then Mantissa(m) - 1 else Mantissa(m) + 1, at;
      ShiftedIsProduct(1, at);
      ShiftedIsProduct(-1, at);
      ShiftedSum(Mantissa(m), q - Mantissa(m), at);
      NonZeroMantissa(m);
    }
  }

  lemma NonZeroMantissa(m: int)
    ensures m != 0 && m >= 0 ==> Mantissa(m) >= 1
    ensures m < 0 ==> Mantissa(m) <= -1
  {
    HalvedBounds(m, Exponent(m));
    ShiftedSign(Mantissa(m), Exponent(m));
  }

  /** What the magnitude leaves when divided by the step: the step less the way to the chosen value. */
  lemma RestOfStep(m: int)
    requires Exponent(m) > 0
    ensures var short := Distance(m, Value(m));
      (if m >= 0 then m else -m) % Power(Exponent(m)) == if short == 0 then 0 else Power(Exponent(m)) - short
  {
    ChosenValue(m);
    ShiftedIsProduct(Mantissa(m), Exponent(m));
    ShiftedIsProduct(1, Exponent(m));
    RestOfMagnitude(m, Mantissa(m), Power(Exponent(m)));
  }

  lemma RestOfMagnitude(m: int, p: int, step: nat)
    requires if m >= 0 then m <= p * step < m + step else m - step < p * step <= m
    ensures var short := Distance(m, p * step);
      (if m >= 0 then m else -m) % step == if short == 0 then 0 else step - short
  {
    if m >= 0 {
      RemainderBelow(p, step, p * step - m);
    } else {
      Negated(p, step);
      RemainderBelow(-p, step, m - p * step);
    }
  }

  /** The nearer of two neighbours is chosen exactly if the condition holds. */
  lemma NearerOfTwo(m: int)
    requires Exponent(m) > 0
    ensures var half := Power(Exponent(m) - 1);
      NearerAway(m, Exponent(m)) <==> Value(m) == m || Distance(m, Value(m)) <= Distance(m, Inner(m, half))
  {
    ChosenValue(m);
    RestOfStep(m);
    hide Shifted, Halved, Exponent;
  }

  /**
   * Repeated rounding is not rounding to nearest. With `e` the smallest exponent whose range holds
   * the value: no representable value is closer than the encoded one exactly when the value is
   * representable or nearer to its neighbour away from zero than to the one towards zero.
   */
  lemma NearestIff(m: int, e: nat)
    requires e <= MAX_EXPONENT && InRange(m, e) && (e == 0 || !InRange(m, e - 1))
    ensures IsNearest(m) <==> NearerAway(m, e)
  {
    ExponentIsLeast(m, e);
    if e > 0 && Value(m) != m {
      RangeInDomain(m, e);
      var inner, at := InnerIsRepresentable(m);
      ChosenValue(m);
      NearerOfTwo(m);
      hide Shifted, Exponent, Halved, NearerAway, Inner;
      if NearerAway(m, e) {
        forall q, k | Fits(q) && 0 <= k <= MAX_EXPONENT
          ensures Distance(m, Value(m)) <= Distance(m, Shifted(q, k))
        {
          NothingBetween(m, q, k);
        }
      }
    } else if e > 0 {
      NearerOfTwo(m);
    }
  }

  lemma Negated(q: int, step: int)
    ensures (-q) * step == -(q * step)
  {
  }

  /** 40.97 is encoded as 41.00 and 163.77 as 163.84, although 40.96 and 163.76 are representable. */
  lemma NotAlwaysNearest()
    ensures Value(4097) == 4100 && Shifted(1024, 2) == 4096 && !IsNearest(4097)
    ensures Value(16377) == 16384 && Shifted(2047, 3) == 16376 && !IsNearest(16377)
  {
    assert Halved(4097, 1) == 2049 && Halved(4097, 2) == 1025;
    assert Exponent(4097) == 2 && Shifted(1025, 2) == 4100;
    assert Shifted(1024, 2) == 4096;
    assert Halved(16377, 1) == 8189 && Halved(16377, 2) == 4095 && Halved(16377, 3) == 2048 && Halved(16377, 4) == 1024;
    assert Exponent(16377) == 4 && Shifted(1024, 4) == 16384;
    assert Shifted(2047, 3) == 16376;
  }
}
