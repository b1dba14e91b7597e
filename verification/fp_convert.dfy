/** Conversions between the half, bfloat16, single and double formats, on raw
    words. */
module FPConversions {
  import opened Bits
  import opened Bitfields
  import opened CompilerIntrinsics
  import opened FloatFormat
  import opened FPRounding
  import opened DoubleRounding

  datatype FPClass = FP_NAN | FP_INFINITE | FP_ZERO | FP_SUBNORMAL | FP_NORMAL

  predicate IsWord(f: Format, raw: nat) {
    raw < Pow2(f.ebits + f.mbits + 1)
  }

  function Sign(f: Format, raw: nat): nat {
    Shr(raw, f.ebits + f.mbits)
  }

  /** The word without its sign bit. */
  function Magnitude(f: Format, raw: nat): nat {
    Low(raw, f.ebits + f.mbits)
  }

  function WithSign(f: Format, sign: nat, magnitude: nat): nat {
    Shl(sign, f.ebits + f.mbits) + magnitude
  }

  function Classify(f: Format, raw: nat): FPClass {
    var n := Magnitude(f, raw);
    if n > f.Inf() then FP_NAN
    else if n == f.Inf() then FP_INFINITE
    else if n == 0 then FP_ZERO
    else if n < Pow2(f.mbits) then FP_SUBNORMAL
    else FP_NORMAL
  }

  function QuietBit(f: Format): nat
    requires f.Valid()
  {
    Pow2(f.mbits - 1)
  }

  predicate IsSignallingNaN(f: Format, raw: nat)
    requires f.Valid()
  {
    Classify(f, raw) == FP_NAN && !Bit(raw, f.mbits - 1)
  }

  function DefaultNaN(f: Format): nat
    requires f.Valid()
  {
    f.Inf() + QuietBit(f)
  }

  /** Narrowing: finite numbers are rounded exactly once, NaNs keep their sign and
      the top of their payload and become quiet. */
  function Narrow(wide: Format, narrow: Format, mode: RoundMode, useDefaultNaN: bool, raw: nat): nat
    requires Narrows(wide, narrow)
  {
    var s, n := Sign(wide, raw), Magnitude(wide, raw);
    if n < wide.Inf() then
      WithSign(narrow, s, Round(narrow, mode, wide.Value(n), UnitGap(wide, narrow)))
    else if n == wide.Inf() then
      WithSign(narrow, s, narrow.Inf())
    else if useDefaultNaN then
      DefaultNaN(narrow)
    else
      WithSign(narrow, s,
        narrow.Inf() + Or(Shr(Low(n, wide.mbits), wide.mbits - narrow.mbits), QuietBit(narrow)))
  }

  /** Widening: the wide word nearest to the same number; NaNs keep sign and
      payload and become quiet. */
  function Widen(narrow: Format, wide: Format, useDefaultNaN: bool, raw: nat): nat
    requires Narrows(wide, narrow)
  {
    var s, n := Sign(narrow, raw), Magnitude(narrow, raw);
    if n < narrow.Inf() then
      WithSign(wide, s, Nearest(wide, Shl(narrow.Value(n), UnitGap(wide, narrow)), 0))
    else if n == narrow.Inf() then
      WithSign(wide, s, wide.Inf())
    else if useDefaultNaN then
      DefaultNaN(wide)
    else
      WithSign(wide, s,
        wide.Inf() + Or(Shl(Low(n, narrow.mbits), wide.mbits - narrow.mbits), QuietBit(wide)))
  }

  predicate Narrows(wide: Format, narrow: Format) {
    wide.Valid() && narrow.Valid() && narrow.mbits <= wide.mbits && UnitGap(wide, narrow) >= 0
  }

  lemma Formats()
    ensures HALF == Format(5, 10) && BFLOAT == Format(8, 7) && SINGLE == Format(8, 23) && DOUBLE == Format(11, 52)
    ensures HALF.Valid() && BFLOAT.Valid() && SINGLE.Valid() && DOUBLE.Valid()
    ensures HALF.Inf() == 0x7c00 && BFLOAT.Inf() == 0x7f80
    ensures SINGLE.Inf() == 0x7f80_0000 && DOUBLE.Inf() == 0x7ff0_0000_0000_0000
    ensures HALF.Bias() == 15 && BFLOAT.Bias() == 127 && SINGLE.Bias() == 127 && DOUBLE.Bias() == 1023
    ensures UnitGap(DOUBLE, SINGLE) == 925 && UnitGap(DOUBLE, HALF) == 1050
    ensures UnitGap(SINGLE, HALF) == 125 && UnitGap(SINGLE, BFLOAT) == 16
    ensures Inside(HALF, SINGLE) && Inside(HALF, DOUBLE) && Inside(SINGLE, DOUBLE)
    ensures Narrows(DOUBLE, SINGLE) && Narrows(DOUBLE, HALF) && Narrows(SINGLE, HALF) && Narrows(SINGLE, BFLOAT)
  {
    Pow2Values();
    ShlIsMul(0x1f, 10);
    ShlIsMul(0xff, 7);
    ShlIsMul(0xff, 23);
    ShlIsMul(0x7ff, 52);
  }

  // ---- Fields ----

  /** A word is its sign, exponent and fraction. */
  lemma Fields(f: Format, raw: nat)
    requires f.Valid() && IsWord(f, raw)
    ensures Sign(f, raw) <= 1
    ensures Magnitude(f, raw) < Pow2(f.ebits + f.mbits)
    ensures Low(Magnitude(f, raw), f.mbits) == Low(raw, f.mbits) < Pow2(f.mbits)
    ensures Shr(Magnitude(f, raw), f.mbits) == Low(Shr(raw, f.mbits), f.ebits) < Pow2(f.ebits)
  {
    hide Shr, Low, Pow2;
    var w := f.ebits + f.mbits;
    Pow2Step(1);
    ShlOfOne(0);
    Split(raw, w);
    ShiftedBound(raw, 1, w);
    LowLow(raw, f.mbits, w);
    Split(raw, f.mbits);
    Split(Shr(raw, f.mbits), f.ebits);
    LowShr(raw, f.mbits, f.ebits);
  }

  lemma {:induction false} LowShr(n: nat, i: nat, k: nat)
    ensures Shr(Low(n, i + k), i) == Low(Shr(n, i), k)
    decreases i
  {
    if i > 0 {
      LowShr(n / 2, i - 1, k);
    }
  }

  lemma SignAndMagnitude(f: Format, sign: nat, magnitude: nat)
    requires f.Valid() && sign <= 1 && magnitude < Pow2(f.ebits + f.mbits)
    ensures var raw := WithSign(f, sign, magnitude);
            && IsWord(f, raw) && Sign(f, raw) == sign && Magnitude(f, raw) == magnitude
  {
    hide Shl, Shr, Low, Pow2;
    var w := f.ebits + f.mbits;
    Pow2Step(w + 1);
    ShlIsMul(sign, w);
    SplitUnique(WithSign(f, sign, magnitude), w, sign, magnitude);
    ShlOfOne(w);
  }

  /** Infinity and NaN have the largest exponent, told apart by the fraction. */
  lemma ClassFromFields(f: Format, raw: nat)
    requires f.Valid() && IsWord(f, raw)
    ensures var e, m := Low(Shr(raw, f.mbits), f.ebits), Low(raw, f.mbits);
            && (Classify(f, raw) == FP_NAN <==> e == Pow2(f.ebits) - 1 && m != 0)
            && (Classify(f, raw) == FP_INFINITE <==> e == Pow2(f.ebits) - 1 && m == 0)
            && (Classify(f, raw) == FP_ZERO <==> e == 0 && m == 0)
            && (Classify(f, raw) == FP_SUBNORMAL <==> e == 0 && m != 0)
            && Magnitude(f, raw) == Shl(e, f.mbits) + m
  {
    hide Shl, Shr, Low, Pow2, Format.Inf, Magnitude;
    var n, e, m := Magnitude(f, raw), Low(Shr(raw, f.mbits), f.ebits), Low(raw, f.mbits);
    Fields(f, raw);
    Split(n, f.mbits);
    ShlIsMul(e, f.mbits);
    ShlOfOne(f.mbits);
    ValueOfInf(f);
    EncodingOrder(f, e, m);
  }

  lemma EncodingOrder(f: Format, e: nat, m: nat)
    requires f.Valid() && e < Pow2(f.ebits) && m < Pow2(f.mbits)
    ensures e < Pow2(f.ebits) - 1 ==> Shl(e, f.mbits) + m < f.Inf()
    ensures e == Pow2(f.ebits) - 1 ==> Shl(e, f.mbits) == f.Inf()
    ensures e > 0 ==> Pow2(f.mbits) <= Shl(e, f.mbits)
    ensures e == 0 ==> Shl(e, f.mbits) == 0
  {
    if e < Pow2(f.ebits) - 1 {
      EncodingBelowInf(f, e, m);
    }
    if e > 1 {
      ShlLess(1, e, f.mbits);
    }
    ShlOfOne(f.mbits);
  }

  // ---- From the routine's input to the exact value ----

  lemma RoundScales(f: Format, mode: RoundMode, num: nat, d: nat, c: nat)
    requires f.Valid()
    ensures Round(f, mode, Shl(num, c), d + c) == Round(f, mode, num, d)
  {
    RoundingScales(f, num, d, c);
  }

  /** The same number, whatever power of two is moved into the mantissa. */
  lemma RoundInputScaled(f: Format, mode: RoundMode, exponent: int, m: nat, u: nat, gap: nat)
    requires f.Valid() && m > 0 && Scale(f, exponent, m) == u - gap
    ensures RoundInput(f, mode, exponent, m) == Round(f, mode, Shl(m, u), gap)
  {
    hide Shl, Round, Scale;
    if u >= gap {
      RoundScales(f, mode, Shl(m, u - gap), 0, gap);
      ShlShl(m, u - gap, gap);
    } else {
      RoundScales(f, mode, m, gap - u, u);
    }
  }

  /** A nonzero number below half of the smallest subnormal. */
  lemma RoundTiny(f: Format, mode: RoundMode, num: nat, d: nat)
    requires f.Valid() && 0 < num && 2 * num < Pow2(d)
    ensures Round(f, mode, num, d) == if mode == FPTieEven then 0 else 1
  {
    InfIsEven(f);
    ValueOfZero(f);
    ShlOfOne(d);
    Pow2Grows(0, f.mbits);
    SplitUnique(1, f.mbits, 0, 1);
    FloorIs(f, num, d, 0);
  }

  /** A subnormal wide input is tiny for the narrow format, whichever exponent
      and implicit bit the caller attaches to its fraction. */
  lemma SubnormalIsTiny(wide: Format, narrow: Format, mode: RoundMode, n: nat, m: nat)
    requires wide.Valid() && narrow.Valid() && wide.mbits >= narrow.mbits
    requires wide.Bias() >= narrow.Bias() + narrow.mbits + 1
    requires 0 < n < Pow2(wide.mbits) && m > 0
    ensures UnitGap(wide, narrow) >= 0
    ensures RoundInput(narrow, mode, 0 - wide.Bias(), m) == Round(narrow, mode, wide.Value(n), UnitGap(wide, narrow))
  {
    var gap := UnitGap(wide, narrow);
    SplitUnique(n, wide.mbits, 0, n);
    assert wide.Value(n) == n;
    Pow2AtMost(wide.mbits + 1, gap);
    RoundTiny(narrow, mode, n, gap);
    HighBitBounds(m);
    var d := -Scale(narrow, 0 - wide.Bias(), m);
    assert d >= HighBit(m) + 2;
    Pow2AtMost(HighBit(m) + 2, d);
    RoundTiny(narrow, mode, m, d);
  }

  lemma NormalInput(wide: Format, narrow: Format, mode: RoundMode, n: nat, e: nat, m: nat)
    requires wide.Valid() && narrow.Valid() && UnitGap(wide, narrow) >= 0
    requires m < Pow2(wide.mbits) && e >= 1 && n == Shl(e, wide.mbits) + m
    ensures RoundInput(narrow, mode, e - wide.Bias(), Pow2(wide.mbits) + m) ==
            Round(narrow, mode, wide.Value(n), UnitGap(wide, narrow))
  {
    hide Shl, Shr, Low, Pow2, HighBit, RoundInput, Round;
    ShlIsMul(e, wide.mbits);
    SplitUnique(n, wide.mbits, e, m);
    HighBitUnique(Pow2(wide.mbits) + m, wide.mbits);
    RoundInputScaled(narrow, mode, e - wide.Bias(), Pow2(wide.mbits) + m, e - 1, UnitGap(wide, narrow));
  }

  /** The three fields the conversions start from. */
  lemma InputFields(f: Format, raw: nat)
    requires f.Valid() && IsWord(f, raw)
    ensures var e, m := ExtractUnsignedBitfield64(f.ebits + f.mbits - 1, f.mbits, raw),
                        ExtractUnsignedBitfield64(f.mbits - 1, 0, raw);
            && e == Low(Shr(raw, f.mbits), f.ebits) < Pow2(f.ebits)
            && m == Low(raw, f.mbits) < Pow2(f.mbits)
            && Magnitude(f, raw) == Shl(e, f.mbits) + m
            && Low(Magnitude(f, raw), f.mbits) == m
            && Sign(f, raw) <= 1
  {
    hide ExtractUnsignedBitfield64;
    Bitfield(f.ebits + f.mbits - 1, f.mbits, raw);
    Bitfield(f.mbits - 1, 0, raw);
    assert Shr(raw, 0) == raw;
    Fields(f, raw);
    ClassFromFields(f, raw);
  }

  // ---- Narrowing, case by case ----

  lemma RoundZero(f: Format, mode: RoundMode, d: nat)
    requires f.Valid()
    ensures Round(f, mode, 0, d) == 0
  {
    InfIsEven(f);
    ValueOfZero(f);
    ShlOfOne(d);
    RoundingExact(f, 0, d);
  }

  lemma NarrowSpecial(wide: Format, narrow: Format, mode: RoundMode, raw: nat)
    requires Narrows(wide, narrow)
    ensures Classify(wide, raw) == FP_ZERO ==>
              Narrow(wide, narrow, mode, false, raw) == Narrow(wide, narrow, mode, true, raw) ==
              WithSign(narrow, Sign(wide, raw), 0)
    ensures Classify(wide, raw) == FP_INFINITE ==>
              Narrow(wide, narrow, mode, false, raw) == Narrow(wide, narrow, mode, true, raw) ==
              WithSign(narrow, Sign(wide, raw), narrow.Inf())
    ensures Classify(wide, raw) == FP_NAN ==>
              Narrow(wide, narrow, mode, true, raw) == DefaultNaN(narrow)
    ensures Classify(wide, raw) == FP_NAN ==>
              Narrow(wide, narrow, mode, false, raw) ==
              WithSign(narrow, Sign(wide, raw), narrow.Inf() +
                Or(Shr(Low(Magnitude(wide, raw), wide.mbits), wide.mbits - narrow.mbits), QuietBit(narrow)))
  {
    hide Shl, Shr, Low, Or, Pow2, Round, Format.Inf, Format.Value, UnitGap;
    InfIsEven(wide);
    ValueOfZero(wide);
    RoundZero(narrow, mode, UnitGap(wide, narrow));
  }

  lemma NarrowNormal(wide: Format, narrow: Format, mode: RoundMode, dn: bool, raw: nat, e: nat, m: nat)
    requires Narrows(wide, narrow) && IsWord(wide, raw) && Classify(wide, raw) == FP_NORMAL
    requires e == Low(Shr(raw, wide.mbits), wide.ebits) && m == Low(raw, wide.mbits)
    ensures Narrow(wide, narrow, mode, dn, raw) ==
            WithSign(narrow, Sign(wide, raw), RoundInput(narrow, mode, e - wide.Bias(), Pow2(wide.mbits) + m))
  {
    Fields(wide, raw);
    ClassFromFields(wide, raw);
    NormalInput(wide, narrow, mode, Magnitude(wide, raw), e, m);
  }

  lemma NarrowSubnormal(wide: Format, narrow: Format, mode: RoundMode, dn: bool, raw: nat, m: nat)
    requires Narrows(wide, narrow) && IsWord(wide, raw) && Classify(wide, raw) == FP_SUBNORMAL
    requires wide.Bias() >= narrow.Bias() + narrow.mbits + 1 && m > 0
    ensures Narrow(wide, narrow, mode, dn, raw) ==
            WithSign(narrow, Sign(wide, raw), RoundInput(narrow, mode, 0 - wide.Bias(), m))
  {
    SubnormalIsTiny(wide, narrow, mode, Magnitude(wide, raw), m);
  }

  /** Adding the implicit bit with an `or` or with a sum. */
  lemma ImplicitBit(k: nat, m: nat)
    requires m < Pow2(k)
    ensures Or(m, Shl(1, k)) == Pow2(k) + m && m + Shl(1, k) == Pow2(k) + m
  {
    ShlOfOne(k);
    OrIsSum(1, k, m);
  }

  lemma OrBound(a: nat, b: nat, k: nat)
    requires a < Pow2(k) && b < Pow2(k)
    ensures Or(a, b) < Pow2(k)
  {
    ShrOfOr(a, b, k);
    LowOfSmall(a, k);
    LowOfSmall(b, k);
    Split(Or(a, b), k);
  }

  lemma OrAssoc(a: nat, b: nat, c: nat)
    ensures Or(Or(a, b), c) == Or(a, Or(b, c))
  {
    forall j: nat
      ensures Bit(Or(Or(a, b), c), j) == Bit(Or(a, Or(b, c)), j)
    {
      BitOr(Or(a, b), c, j);
      BitOr(a, b, j);
      BitOr(a, Or(b, c), j);
      BitOr(b, c, j);
    }
    SameBits(Or(Or(a, b), c), Or(a, Or(b, c)));
  }

  /** A quiet NaN put together from infinity and a payload. */
  lemma QuietNaN(f: Format, sign: nat, payload: nat)
    requires f.Valid() && sign <= 1 && payload < Pow2(f.mbits)
    ensures Shl(Pow2(f.ebits) - 1, f.mbits) == f.Inf()
    ensures Or(payload, QuietBit(f)) < Pow2(f.mbits)
    ensures Or(Or(Shl(sign, f.ebits + f.mbits), f.Inf()), Or(payload, QuietBit(f))) ==
            WithSign(f, sign, f.Inf() + Or(payload, QuietBit(f)))
    ensures Or(Or(WithSign(f, sign, f.Inf()), payload), QuietBit(f)) ==
            WithSign(f, sign, f.Inf() + Or(payload, QuietBit(f)))
  {
    hide Shl, Or, Pow2;
    Pow2Grows(f.mbits - 1, f.mbits);
    Pow2Step(f.ebits);
    OrBound(payload, QuietBit(f), f.mbits);
    AssembleFields(f, sign, Pow2(f.ebits) - 1, 0);
    AssembleFields(f, sign, Pow2(f.ebits) - 1, Or(payload, QuietBit(f)));
    OrZero(Or(Shl(sign, f.ebits + f.mbits), f.Inf()));
    OrAssoc(WithSign(f, sign, f.Inf()), payload, QuietBit(f));
  }

  /** Dropping the quiet bit before forcing it changes nothing. */
  lemma PayloadWithoutQuietBit(raw: nat, lsb: nat, k: nat)
    ensures Or(Low(Shr(raw, lsb), k), Pow2(k)) == Or(Shr(Low(raw, lsb + k + 1), lsb), Pow2(k))
  {
    forall j: nat
      ensures Bit(Or(Low(Shr(raw, lsb), k), Pow2(k)), j) == Bit(Or(Shr(Low(raw, lsb + k + 1), lsb), Pow2(k)), j)
    {
      BitOr(Low(Shr(raw, lsb), k), Pow2(k), j);
      BitOr(Shr(Low(raw, lsb + k + 1), lsb), Pow2(k), j);
      BitOfPow2(k, j);
      BitLow(Shr(raw, lsb), k, j);
      BitShr(raw, lsb, j);
      BitShr(Low(raw, lsb + k + 1), lsb, j);
      BitLow(raw, lsb + k + 1, j + lsb);
    }
    SameBits(Or(Low(Shr(raw, lsb), k), Pow2(k)), Or(Shr(Low(raw, lsb + k + 1), lsb), Pow2(k)));
  }

  lemma WithSignIs(f: Format, sign: nat, magnitude: nat)
    ensures WithSign(f, sign, magnitude) == Shl(sign, f.ebits + f.mbits) + magnitude
  {
  }

  lemma NotNaNNotSignalling(f: Format, raw: nat)
    requires f.Valid()
    ensures IsSignallingNaN(f, raw) ==> Classify(f, raw) == FP_NAN
  {
  }

  /** The routine may be called with any exponent and mantissa of a conversion. */
  lemma RoundCallable(f: Format, exponent: int, mantissa: nat)
    requires f.Valid() && f.Bias() <= 1023 && -2000 <= exponent <= 2000 && mantissa < Pow2(54)
    ensures mantissa < Pow2(64) && ExponentInRange(f, exponent) && ShiftDefined(f, exponent, mantissa)
  {
    Pow2Grows(54, 63);
    Pow2Grows(54, 64);
  }

  /** What the narrowing conversions use of their two formats. */
  lemma NarrowingFacts(wide: Format, narrow: Format, raw: nat)
    requires wide.Valid() && narrow.Valid() && narrow.mbits <= wide.mbits <= 52 && wide.ebits <= 11
    requires IsWord(wide, raw)
    ensures Sign(wide, raw) == Shr(raw, wide.ebits + wide.mbits) <= 1
    ensures Pow2(wide.mbits) <= Pow2(52) && 2 * Pow2(52) < Pow2(54) && Pow2(wide.ebits) <= 2048
    ensures Shr(Low(raw, wide.mbits), wide.mbits - narrow.mbits) < Pow2(narrow.mbits)
    ensures Shl(1, narrow.mbits - 1) == QuietBit(narrow)
  {
    hide Shl, Shr, Low, Pow2, Format.Inf;
    Pow2Values();
    Fields(wide, raw);
    Split(raw, wide.mbits);
    ShiftedBound(Low(raw, wide.mbits), narrow.mbits, wide.mbits - narrow.mbits);
    ShlOfOne(narrow.mbits - 1);
    Pow2AtMost(wide.mbits, 52);
    Pow2AtMost(wide.ebits, 11);
  }

  /** The special words that appear as constants. */
  lemma NaNWords(f: Format)
    requires f.Valid()
    ensures DefaultNaN(f) == f.Inf() + QuietBit(f) && QuietBit(f) == Pow2(f.mbits - 1)
  {
  }

  lemma SmallSigns(f: Format)
    requires f.ebits + f.mbits == 15
    ensures forall n: nat :: WithSign(f, 0, n) == n && WithSign(f, 1, n) == 0x8000 + n
  {
    ShlOfOne(15);
    Pow2Values();
  }

  lemma SpecialHalfWords()
    ensures HALF.Valid() && HALF.Inf() == 0x7c00 && QuietBit(HALF) == 0x200
    ensures DefaultNaN(HALF) == 0x7e00
    ensures forall n: nat :: WithSign(HALF, 0, n) == n && WithSign(HALF, 1, n) == 0x8000 + n
  {
    hide *;
    Formats();
    Pow2Values();
    NaNWords(HALF);
    SmallSigns(HALF);
  }

  lemma SpecialBFloatWords()
    ensures BFLOAT.Valid() && BFLOAT.Inf() == 0x7f80 && QuietBit(BFLOAT) == 0x40
    ensures DefaultNaN(BFLOAT) == 0x7fc0
    ensures forall n: nat :: WithSign(BFLOAT, 0, n) == n && WithSign(BFLOAT, 1, n) == 0x8000 + n
  {
    hide *;
    Formats();
    Pow2Values();
    NaNWords(BFLOAT);
    SmallSigns(BFLOAT);
  }

  lemma SpecialSingleWords()
    ensures SINGLE.Valid() && SINGLE.Inf() == 0x7f80_0000 && QuietBit(SINGLE) == 0x40_0000
    ensures DefaultNaN(SINGLE) == 0x7fc0_0000
    ensures Shl(0xff, 23) == SINGLE.Inf()
  {
    hide *;
    Formats();
    Pow2Values();
    NaNWords(SINGLE);
    ShlIsMul(0xff, 23);
  }

  // ---- The narrowing conversions ----

  /** Double to single, with either rounding. */
  method DoubleToSingle(raw: nat, mode: RoundMode, useDefaultNaN: bool) returns (word: nat, exception: bool)
    requires IsWord(DOUBLE, raw)
    ensures Narrows(DOUBLE, SINGLE)
    ensures word == Narrow(DOUBLE, SINGLE, mode, useDefaultNaN, raw)
    ensures exception <==> IsSignallingNaN(DOUBLE, raw)
  {
    hide *;
    Formats();
    NarrowingFacts(DOUBLE, SINGLE, raw);
    SpecialSingleWords();
    InputFields(DOUBLE, raw);
    ClassFromFields(DOUBLE, raw);
    NarrowSpecial(DOUBLE, SINGLE, mode, raw);
    NotNaNNotSignalling(DOUBLE, raw);
    exception := false;
    match Classify(DOUBLE, raw)
    case FP_NAN =>
      exception := IsSignallingNaN(DOUBLE, raw);
      if useDefaultNaN {
        word := 0x7fc0_0000;
        return;
      }
      var sign := Shr(raw, 63);
      var exponent := 0xff;
      var payload := ExtractUnsignedBitfield64(50, 29, raw);
      Bitfield(50, 29, raw);
      PayloadWithoutQuietBit(raw, 29, 22);
      payload := Or(payload, Shl(1, 22));
      Pow2Values();
      QuietNaN(SINGLE, sign, Shr(Low(raw, 52), 29));
      word := Or(Or(Shl(sign, 31), Shl(exponent, 23)), payload);
    case FP_ZERO =>
      word := WithSign(SINGLE, Shr(raw, 63), 0);
    case FP_INFINITE =>
      word := WithSign(SINGLE, Shr(raw, 63), SINGLE.Inf());
    case FP_NORMAL =>
      var sign := Shr(raw, 63);
      var exponent := ExtractUnsignedBitfield64(62, 52, raw) - 1023;
      var mantissa := ExtractUnsignedBitfield64(51, 0, raw);
      ImplicitBit(52, mantissa);
      NarrowNormal(DOUBLE, SINGLE, mode, useDefaultNaN, raw, exponent + 1023, mantissa);
      mantissa := Or(mantissa, Shl(1, 52));
      RoundCallable(SINGLE, exponent, mantissa);
      word := FPRound(SINGLE, sign, exponent, mantissa, mode);
      WithSignIs(SINGLE, sign, RoundInput(SINGLE, mode, exponent, mantissa));
    case FP_SUBNORMAL =>
      var sign := Shr(raw, 63);
      var exponent := ExtractUnsignedBitfield64(62, 52, raw) - 1023;
      var mantissa := ExtractUnsignedBitfield64(51, 0, raw);
      NarrowSubnormal(DOUBLE, SINGLE, mode, useDefaultNaN, raw, mantissa);
      RoundCallable(SINGLE, exponent, mantissa);
      word := FPRound(SINGLE, sign, exponent, mantissa, mode);
      WithSignIs(SINGLE, sign, RoundInput(SINGLE, mode, exponent, mantissa));
  }

  /** Single to half, ties to even. */
  method SingleToHalf(raw: nat, useDefaultNaN: bool) returns (word: nat, exception: bool)
    requires IsWord(SINGLE, raw)
    ensures Narrows(SINGLE, HALF)
    ensures word == Narrow(SINGLE, HALF, FPTieEven, useDefaultNaN, raw)
    ensures exception <==> IsSignallingNaN(SINGLE, raw)
  {
    hide *;
    Formats();
    NarrowingFacts(SINGLE, HALF, raw);
    SpecialHalfWords();
    InputFields(SINGLE, raw);
    ClassFromFields(SINGLE, raw);
    NarrowSpecial(SINGLE, HALF, FPTieEven, raw);
    NotNaNNotSignalling(SINGLE, raw);
    var sign := Shr(raw, 31);
    var exponent := ExtractUnsignedBitfield64(30, 23, raw) - 127;
    var mantissa := ExtractUnsignedBitfield64(22, 0, raw);
    exception := false;
    var class_ := Classify(SINGLE, raw);
    if class_ == FP_NAN {
      exception := IsSignallingNaN(SINGLE, raw);
      if useDefaultNaN {
        word := 0x7e00;
        return;
      }
      word := if sign == 0 then 0x7c00 else 0xfc00;
      QuietNaN(HALF, sign, Shr(mantissa, 13));
      word := Or(word, Shr(mantissa, 13));
      word := Or(word, Shl(1, 9));
    } else if class_ == FP_ZERO {
      word := if sign == 0 then 0 else 0x8000;
    } else if class_ == FP_INFINITE {
      word := if sign == 0 then 0x7c00 else 0xfc00;
    } else {
      // The implicit bit is added to subnormals as well.
      ImplicitBit(23, mantissa);
      if class_ == FP_NORMAL {
        NarrowNormal(SINGLE, HALF, FPTieEven, useDefaultNaN, raw, exponent + 127, mantissa);
      } else {
        NarrowSubnormal(SINGLE, HALF, FPTieEven, useDefaultNaN, raw, mantissa + Shl(1, 23));
      }
      mantissa := mantissa + Shl(1, 23);
      RoundCallable(HALF, exponent, mantissa);
      word := FPRound(HALF, sign, exponent, mantissa, FPTieEven);
      WithSignIs(HALF, sign, RoundInput(HALF, FPTieEven, exponent, mantissa));
    }
  }

  /** Double to half, ties to even. */
  method DoubleToHalf(raw: nat, useDefaultNaN: bool) returns (word: nat, exception: bool)
    requires IsWord(DOUBLE, raw)
    ensures Narrows(DOUBLE, HALF)
    ensures word == Narrow(DOUBLE, HALF, FPTieEven, useDefaultNaN, raw)
    ensures exception <==> IsSignallingNaN(DOUBLE, raw)
  {
    hide *;
    Formats();
    NarrowingFacts(DOUBLE, HALF, raw);
    SpecialHalfWords();
    InputFields(DOUBLE, raw);
    ClassFromFields(DOUBLE, raw);
    NarrowSpecial(DOUBLE, HALF, FPTieEven, raw);
    NotNaNNotSignalling(DOUBLE, raw);
    var sign := Shr(raw, 63);
    var exponent := ExtractUnsignedBitfield64(62, 52, raw) - 1023;
    var mantissa := ExtractUnsignedBitfield64(51, 0, raw);
    exception := false;
    var class_ := Classify(DOUBLE, raw);
    if class_ == FP_NAN {
      exception := IsSignallingNaN(DOUBLE, raw);
      if useDefaultNaN {
        word := 0x7e00;
        return;
      }
      word := if sign == 0 then 0x7c00 else 0xfc00;
      QuietNaN(HALF, sign, Shr(mantissa, 42));
      word := Or(word, Shr(mantissa, 42));
      word := Or(word, Shl(1, 9));
    } else if class_ == FP_ZERO {
      word := if sign == 0 then 0 else 0x8000;
    } else if class_ == FP_INFINITE {
      word := if sign == 0 then 0x7c00 else 0xfc00;
    } else {
      // The implicit bit is added to subnormals as well.
      ImplicitBit(52, mantissa);
      if class_ == FP_NORMAL {
        NarrowNormal(DOUBLE, HALF, FPTieEven, useDefaultNaN, raw, exponent + 1023, mantissa);
      } else {
        NarrowSubnormal(DOUBLE, HALF, FPTieEven, useDefaultNaN, raw, mantissa + Shl(1, 52));
      }
      mantissa := mantissa + Shl(1, 52);
      RoundCallable(HALF, exponent, mantissa);
      word := FPRound(HALF, sign, exponent, mantissa, FPTieEven);
      WithSignIs(HALF, sign, RoundInput(HALF, FPTieEven, exponent, mantissa));
    }
  }

  /** A single-precision subnormal, normalised before the call. */
  lemma BFloatSubnormal(raw: nat, dn: bool, m: nat)
    requires IsWord(SINGLE, raw) && Classify(SINGLE, raw) == FP_SUBNORMAL && m == Low(raw, 23)
    ensures BFLOAT.Valid() && Narrows(SINGLE, BFLOAT) && 0 < m < Pow2(23) && HighBit(m) < 23
    ensures IsWidth(32) && m < Pow2(64) && Low(m, 32) == m
    ensures Narrow(SINGLE, BFLOAT, FPTieEven, dn, raw) ==
            WithSign(BFLOAT, Sign(SINGLE, raw), RoundInput(BFLOAT, FPTieEven, HighBit(m) - 149, m))
  {
    hide Shl, Shr, Low, HighBit, Pow2, RoundInput, Format.Inf, Format.Value;
    SubnormalMagnitude(raw, m);
    BFloatOfSubnormal(m);
    HighBitBelow(m, 23);
    Pow2AtMost(23, 32);
    Pow2AtMost(23, 64);
    LowOfSmall(m, 32);
  }

  lemma SubnormalMagnitude(raw: nat, m: nat)
    requires IsWord(SINGLE, raw) && Classify(SINGLE, raw) == FP_SUBNORMAL && m == Low(raw, 23)
    ensures SINGLE.Valid() && Magnitude(SINGLE, raw) == m && m < SINGLE.Inf() && 0 < m < Pow2(23)
  {
    hide Shl, Shr, Low, Pow2, Format.Inf;
    Formats();
    ClassFromFields(SINGLE, raw);
    Fields(SINGLE, raw);
    ShlOfOne(23);
  }

  lemma ShlZero(m: nat)
    ensures Shl(m, 0) == m
  {
  }

  lemma BFloatOfSubnormal(m: nat)
    requires 0 < m < Pow2(23)
    ensures BFLOAT.Valid() && Narrows(SINGLE, BFLOAT) && UnitGap(SINGLE, BFLOAT) == 16
    ensures RoundInput(BFLOAT, FPTieEven, HighBit(m) - 149, m) ==
            Round(BFLOAT, FPTieEven, SINGLE.Value(m), 16)
  {
    hide Shl, Shr, Low, HighBit, Pow2, RoundInput, Format.Inf, Round, Format.Bias, Format.Valid, UnitGap, Inside;
    Formats();
    SplitUnique(m, 23, 0, m);
    assert Scale(BFLOAT, HighBit(m) - 149, m) == 0 - 16;
    ShlZero(m);
    RoundInputScaled(BFLOAT, FPTieEven, HighBit(m) - 149, m, 0, 16);
  }

  /** Single to bfloat16, ties to even. */
  method SingleToBFloat(raw: nat, useDefaultNaN: bool) returns (word: nat, exception: bool)
    requires IsWord(SINGLE, raw)
    ensures Narrows(SINGLE, BFLOAT)
    ensures word == Narrow(SINGLE, BFLOAT, FPTieEven, useDefaultNaN, raw)
    ensures exception <==> IsSignallingNaN(SINGLE, raw)
  {
    hide *;
    Formats();
    NarrowingFacts(SINGLE, BFLOAT, raw);
    SpecialBFloatWords();
    InputFields(SINGLE, raw);
    ClassFromFields(SINGLE, raw);
    NarrowSpecial(SINGLE, BFLOAT, FPTieEven, raw);
    NotNaNNotSignalling(SINGLE, raw);
    var sign := Shr(raw, 31);
    var exponent := ExtractUnsignedBitfield64(30, 23, raw) - 127;
    var mantissa := ExtractUnsignedBitfield64(22, 0, raw);
    exception := false;
    match Classify(SINGLE, raw)
    case FP_NAN =>
      exception := IsSignallingNaN(SINGLE, raw);
      if useDefaultNaN {
        word := 0x7fc0;
        return;
      }
      word := if sign == 0 then 0x7f80 else 0xff80;
      QuietNaN(BFLOAT, sign, Shr(mantissa, 16));
      word := Or(word, Shr(mantissa, 16));
      word := Or(word, Shl(1, 6));
    case FP_ZERO =>
      word := if sign == 0 then 0 else 0x8000;
    case FP_INFINITE =>
      word := if sign == 0 then 0x7f80 else 0xff80;
    case FP_NORMAL =>
      ImplicitBit(23, mantissa);
      NarrowNormal(SINGLE, BFLOAT, FPTieEven, useDefaultNaN, raw, exponent + 127, mantissa);
      mantissa := mantissa + Shl(1, 23);
      RoundCallable(BFLOAT, exponent, mantissa);
      word := FPRound(BFLOAT, sign, exponent, mantissa, FPTieEven);
      WithSignIs(BFLOAT, sign, RoundInput(BFLOAT, FPTieEven, exponent, mantissa));
    case FP_SUBNORMAL =>
      BFloatSubnormal(raw, useDefaultNaN, mantissa);
      var leadingZeros := CountLeadingZerosFallBack(mantissa, 32);
      var leadingMantissaBits := leadingZeros - (32 - 23);
      exponent := exponent - leadingMantissaBits;
      RoundCallable(BFLOAT, exponent, mantissa);
      word := FPRound(BFLOAT, sign, exponent, mantissa, FPTieEven);
      WithSignIs(BFLOAT, sign, RoundInput(BFLOAT, FPTieEven, exponent, mantissa));
  }
}
