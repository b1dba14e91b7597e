/** The widening conversions, which are exact. */
module FPWidening {
  import opened Bits
  import opened Bitfields
  import opened CompilerIntrinsics
  import opened FloatFormat
  import opened FPRounding
  import opened DoubleRounding
  import opened FPConversions

  /** An encoding with the right value is the widened one. */
  lemma WidenTo(narrow: Format, wide: Format, dn: bool, raw: nat, p: nat)
    requires Narrows(wide, narrow) && Magnitude(narrow, raw) < narrow.Inf() && p < wide.Inf()
    requires wide.Value(p) == Shl(narrow.Value(Magnitude(narrow, raw)), UnitGap(wide, narrow))
    ensures Widen(narrow, wide, dn, raw) == WithSign(wide, Sign(narrow, raw), p)
  {
    hide Shl, Format.Value, Format.Inf, Format.Bias, Nearest;
    RoundingExact(wide, p, 0);
    ShlZero(wide.Value(p));
  }

  lemma WidenSpecial(narrow: Format, wide: Format, raw: nat)
    requires Narrows(wide, narrow)
    ensures Classify(narrow, raw) == FP_INFINITE ==>
              Widen(narrow, wide, false, raw) == Widen(narrow, wide, true, raw) ==
              WithSign(wide, Sign(narrow, raw), wide.Inf())
    ensures Classify(narrow, raw) == FP_NAN ==> Widen(narrow, wide, true, raw) == DefaultNaN(wide)
    ensures Classify(narrow, raw) == FP_NAN ==>
              Widen(narrow, wide, false, raw) ==
              WithSign(wide, Sign(narrow, raw), wide.Inf() +
                Or(Shl(Low(Magnitude(narrow, raw), narrow.mbits), wide.mbits - narrow.mbits), QuietBit(wide)))
  {
  }

  /** A normal number keeps its fraction, moved up, and is rebiased. */
  lemma WidenNormal(narrow: Format, wide: Format, dn: bool, raw: nat, e: nat, m: nat)
    requires Inside(narrow, wide) && Narrows(wide, narrow) && IsWord(narrow, raw)
    requires Classify(narrow, raw) == FP_NORMAL
    requires e == Low(Shr(raw, narrow.mbits), narrow.ebits) && m == Low(raw, narrow.mbits)
    ensures var e', m' := e + wide.Bias() - narrow.Bias(), Shl(m, wide.mbits - narrow.mbits);
            && 0 < e' < Pow2(wide.ebits) - 1 && m' < Pow2(wide.mbits)
            && Widen(narrow, wide, dn, raw) == WithSign(wide, Sign(narrow, raw), Shl(e', wide.mbits) + m')
  {
    var k := wide.mbits - narrow.mbits;
    var e', m' := e + wide.Bias() - narrow.Bias(), Shl(m, k);
    NormalExponent(narrow, wide, raw, e);
    hide Shl, Shr, Low, Pow2, Format.Value, Format.Inf, Format.Bias, Widen;
    Fields(narrow, raw);
    ClassFromFields(narrow, raw);
    RebiasedValue(narrow, wide, e, m, e');
    WidenTo(narrow, wide, dn, raw, Shl(e', wide.mbits) + m');
  }

  lemma RebiasedValue(narrow: Format, wide: Format, e: nat, m: nat, e': nat)
    requires Narrows(wide, narrow) && e >= 1 && m < Pow2(narrow.mbits)
    requires e' == e + wide.Bias() - narrow.Bias() && 1 <= e' < Pow2(wide.ebits) - 1
    ensures var m' := Shl(m, wide.mbits - narrow.mbits);
            && m' < Pow2(wide.mbits) && Shl(e', wide.mbits) + m' < wide.Inf()
            && wide.Value(Shl(e', wide.mbits) + m') ==
               Shl(narrow.Value(Shl(e, narrow.mbits) + m), UnitGap(wide, narrow))
  {
    hide Shl, Pow2, Format.Value, Format.Inf, Format.Bias;
    var k := wide.mbits - narrow.mbits;
    var m' := Shl(m, k);
    ShiftFits(m, narrow.mbits, k);
    NormalValue(narrow, e, m);
    NormalValue(wide, e', m');
    EncodingBelowInf(wide, e', m');
    ShlAdd(Pow2(narrow.mbits), m, k);
    ShlOfOne(narrow.mbits);
    ShlShl(1, narrow.mbits, k);
    ShlOfOne(wide.mbits);
    ShlShl(Pow2(narrow.mbits) + m, k, e' - 1);
    ShlShl(Pow2(narrow.mbits) + m, e - 1, UnitGap(wide, narrow));
  }

  lemma NormalExponent(narrow: Format, wide: Format, raw: nat, e: nat)
    requires Inside(narrow, wide) && IsWord(narrow, raw) && Classify(narrow, raw) == FP_NORMAL
    requires e == Low(Shr(raw, narrow.mbits), narrow.ebits)
    ensures 1 <= e && 1 <= e + wide.Bias() - narrow.Bias() < Pow2(wide.ebits) - 1
  {
    hide Shl, Shr, Low, Pow2, Format.Inf, Magnitude, Classify;
    Pow2Step(narrow.ebits);
    Pow2Step(wide.ebits);
    Fields(narrow, raw);
    ClassFromFields(narrow, raw);
    Pow2Grows(narrow.ebits - 1, wide.ebits - 1);
  }

  lemma NormalValue(f: Format, e: nat, m: nat)
    requires f.Valid() && e >= 1 && m < Pow2(f.mbits)
    ensures f.Value(Shl(e, f.mbits) + m) == Shl(Pow2(f.mbits) + m, e - 1)
  {
    EncodingFields(f, e, m);
  }

  /** Half to single. */
  method HalfToSingle(raw: nat, useDefaultNaN: bool) returns (word: nat, exception: bool)
    requires IsWord(HALF, raw)
    ensures Narrows(SINGLE, HALF)
    ensures word == Widen(HALF, SINGLE, useDefaultNaN, raw)
    ensures exception <==> IsSignallingNaN(HALF, raw)
  {
    hide *;
    Formats();
    Pow2Values();
    SpecialSingleWords();
    InputFields(HALF, raw);
    HalfSign(raw);
    WidenSpecial(HALF, SINGLE, raw);
    NotNaNNotSignalling(HALF, raw);
    ClassFromFields(HALF, raw);
    var sign := Shr(raw, 15);
    var exponent := ExtractUnsignedBitfield64(14, 10, raw);
    var mantissa := ExtractUnsignedBitfield64(9, 0, raw);
    exception := false;
    match Classify(HALF, raw) {
      case FP_ZERO =>
        WidenZero(raw, useDefaultNaN);
        return if sign == 0 then 0 else 0x8000_0000, exception;
      case FP_INFINITE =>
        WidenInfinity(sign);
        return if sign == 0 then 0x7f80_0000 else 0xff80_0000, exception;
      case FP_SUBNORMAL =>
        WidenSubnormal(raw, useDefaultNaN, mantissa);
        var shift := CountLeadingZerosFallBack(Low(Shl(mantissa, 32 - 10), 32), 32);
        mantissa := Low(Shl(mantissa, (23 - 10) + shift + 1), 32);
        mantissa := And(mantissa, Shl(1, 23) - 1);
        exponent := exponent - shift + (-15 + 127);
      case FP_NAN =>
        exception := IsSignallingNaN(HALF, raw);
        if useDefaultNaN {
          return 0x7fc0_0000, exception;
        }
        WidenPayload(mantissa);
        exponent := Shl(1, 8) - 1;
        mantissa := Shl(mantissa, 23 - 10);
        mantissa := Or(mantissa, Shl(1, 22));
      case FP_NORMAL =>
        WidenNormal(HALF, SINGLE, useDefaultNaN, raw, exponent, mantissa);
        mantissa := Shl(mantissa, 23 - 10);
        exponent := exponent + (-15 + 127);
    }
    AssembleFields(SINGLE, sign, exponent, mantissa);
    WithSignIs(SINGLE, sign, Shl(exponent, 23) + mantissa);
    word := Or(Or(Shl(sign, 31), Shl(exponent, 23)), mantissa);
  }

  lemma HalfSign(raw: nat)
    ensures Sign(HALF, raw) == Shr(raw, 15)
  {
  }

  lemma WidenZero(raw: nat, dn: bool)
    requires IsWord(HALF, raw) && Classify(HALF, raw) == FP_ZERO
    ensures Narrows(SINGLE, HALF)
    ensures Widen(HALF, SINGLE, dn, raw) == if Shr(raw, 15) == 0 then 0 else 0x8000_0000
  {
    hide Shl, Shr, Low, Pow2, Format.Value, Format.Inf, Widen;
    Formats();
    Pow2Values();
    Fields(HALF, raw);
    InfIsEven(SINGLE);
    ValueOfZero(HALF);
    ValueOfZero(SINGLE);
    ShlOfOne(125);
    ShlOfOne(31);
    WidenTo(HALF, SINGLE, dn, raw, 0);
  }

  lemma WidenInfinity(sign: nat)
    requires sign <= 1
    ensures WithSign(SINGLE, sign, SINGLE.Inf()) == if sign == 0 then 0x7f80_0000 else 0xff80_0000
  {
    hide Shl, Pow2, Format.Inf;
    Formats();
    Pow2Values();
    ShlOfOne(31);
  }

  lemma WidenPayload(m: nat)
    requires m < Pow2(10)
    ensures SINGLE.Valid()
    ensures Shl(1, 8) == Pow2(8) && Shl(1, 22) == QuietBit(SINGLE)
    ensures Or(Shl(m, 13), Shl(1, 22)) < Pow2(23)
  {
    hide Shl, Or, Pow2;
    Formats();
    ShlOfOne(8);
    ShlOfOne(22);
    ShiftFits(m, 10, 13);
    Pow2Grows(22, 23);
    OrBound(Shl(m, 13), Pow2(22), 23);
  }

  /** A subnormal half is normalised. */
  lemma WidenSubnormal(raw: nat, dn: bool, m: nat)
    requires IsWord(HALF, raw) && Classify(HALF, raw) == FP_SUBNORMAL && m == Low(raw, 10)
    ensures Narrows(SINGLE, HALF) && 0 < m < Pow2(10) && HighBit(m) < 10 && IsWidth(32)
    ensures Low(Shl(m, 22), 32) < Pow2(64) && Low(Low(Shl(m, 22), 32), 32) > 0
    ensures HighBit(Low(Low(Shl(m, 22), 32), 32)) == 22 + HighBit(m)
    ensures Shl(1, 23) == Pow2(23)
    ensures var m' := And(Low(Shl(m, 23 - HighBit(m)), 32), Pow2(23) - 1);
            && m' < Pow2(23)
            && Widen(HALF, SINGLE, dn, raw) == WithSign(SINGLE, Sign(HALF, raw), Shl(103 + HighBit(m), 23) + m')
  {
    hide *;
    Formats();
    SubnormalHalf(raw, m);
    HighBitBelow(m, 10);
    NormaliseInWord(m, 22);
    NormaliseInWord(m, 23 - HighBit(m));
    NormalisedHalf(m);
    ShlOfOne(23);
    WidenTo(HALF, SINGLE, dn, raw, Shl(103 + HighBit(m), 23) + And(Shl(m, 23 - HighBit(m)), Pow2(23) - 1));
  }

  lemma NormalisedHalf(m: nat)
    requires 0 < m < Pow2(10) && HighBit(m) < 10
    ensures var m' := And(Shl(m, 23 - HighBit(m)), Pow2(23) - 1);
            && m' < Pow2(23)
            && Shl(103 + HighBit(m), 23) + m' < SINGLE.Inf()
            && SINGLE.Value(Shl(103 + HighBit(m), 23) + m') == Shl(m, 125)
  {
    hide *;
    Formats();
    var t, e := 23 - HighBit(m), 103 + HighBit(m);
    var v := Shl(m, t);
    ShlHighBit(m, t);
    HighBitBounds(v);
    SplitUnique(v, 23, 1, v - Pow2(23));
    AndMask(v, 23);
    EncodingFields(SINGLE, e, v - Pow2(23));
    ShlShl(m, t, e - 1);
    assert Pow2(8) == 256 by { Pow2Values(); }
    EncodingBelowInf(SINGLE, e, v - Pow2(23));
  }

  lemma SubnormalHalf(raw: nat, m: nat)
    requires IsWord(HALF, raw) && Classify(HALF, raw) == FP_SUBNORMAL && m == Low(raw, 10)
    ensures HALF.Valid() && Magnitude(HALF, raw) == m && m < HALF.Inf() && 0 < m < Pow2(10) && HALF.Value(m) == m
  {
    hide Shl, Shr, Low, Pow2, Format.Inf;
    Formats();
    ClassFromFields(HALF, raw);
    Fields(HALF, raw);
    ShlOfOne(10);
    SplitUnique(m, 10, 0, m);
  }

  /** Moving the mantissa up inside a 32-bit word loses nothing. */
  lemma NormaliseInWord(m: nat, t: nat)
    requires 0 < m < Pow2(10) && HighBit(m) + t < 32
    ensures Shl(m, t) > 0 && HighBit(Shl(m, t)) == HighBit(m) + t
    ensures Low(Shl(m, t), 32) == Shl(m, t) < Pow2(64) && Low(Low(Shl(m, t), 32), 32) == Shl(m, t)
    ensures IsWidth(32)
  {
    assert IsWidth(32);
    hide *;
    ShlHighBit(m, t);
    HighBitVersus(Shl(m, t), 32);
    HighBitVersus(Shl(m, t), 64);
    LowOfSmall(Shl(m, t), 32);
  }

  /** The host's conversion of a number, not a NaN, to the wider type. */
  function CastSingleToDouble(raw: nat): nat
    requires IsWord(SINGLE, raw)
  {
    Formats();
    Widen(SINGLE, DOUBLE, false, raw)
  }

  /** Single to double. */
  method SingleToDouble(raw: nat, useDefaultNaN: bool) returns (word: nat, exception: bool)
    requires IsWord(SINGLE, raw)
    ensures Narrows(DOUBLE, SINGLE)
    ensures word == Widen(SINGLE, DOUBLE, useDefaultNaN, raw)
    ensures exception <==> IsSignallingNaN(SINGLE, raw)
  {
    hide Shl, Shr, Low, Or, Pow2, Format.Value, Format.Inf, Format.Bias, Format.Valid, Inside, UnitGap;
    hide ExtractUnsignedBitfield64, Nearest;
    Formats();
    exception := false;
    match Classify(SINGLE, raw)
    case FP_NAN =>
      exception := IsSignallingNaN(SINGLE, raw);
      if useDefaultNaN {
        DoubleNaN();
        return 0x7ff8_0000_0000_0000, exception;
      }
      var sign := Shr(raw, 31);
      var exponent := 0x7ff;
      var payload := ExtractUnsignedBitfield64(21, 0, raw);
      payload := Shl(payload, 52 - 23);
      payload := Or(payload, Shl(1, 51));
      word := Or(Or(Shl(sign, 63), Shl(exponent, 52)), payload);
      SingleNaNToDouble(raw);
    case _ =>
      word := CastSingleToDouble(raw);
  }

  lemma DoubleNaN()
    ensures DOUBLE.Valid() && DefaultNaN(DOUBLE) == 0x7ff8_0000_0000_0000
  {
    hide *;
    Formats();
    Pow2Values();
    NaNWords(DOUBLE);
  }

  lemma SingleNaNToDouble(raw: nat)
    requires IsWord(SINGLE, raw) && Classify(SINGLE, raw) == FP_NAN
    ensures Narrows(DOUBLE, SINGLE)
    ensures var payload := Or(Shl(ExtractUnsignedBitfield64(21, 0, raw), 29), Shl(1, 51));
            Or(Or(Shl(Shr(raw, 31), 63), Shl(0x7ff, 52)), payload) == Widen(SINGLE, DOUBLE, false, raw)
  {
    hide Shl, Shr, Low, Or, Pow2, Format.Value, Format.Inf, Format.Bias, Format.Valid, Inside, UnitGap, Widen;
    hide ExtractUnsignedBitfield64;
    Formats();
    Pow2Values();
    WidenSpecial(SINGLE, DOUBLE, raw);
    Fields(SINGLE, raw);
    Bitfield(21, 0, raw);
    ShlOfOne(51);
    var m := Low(raw, 23);
    LowLow(raw, 22, 23);
    WidePayload(m);
    QuietNaN(DOUBLE, Shr(raw, 31), Shl(m, 29));
    ShrZero(raw);
  }

  lemma ShrZero(n: nat)
    ensures Shr(n, 0) == n
  {
  }

  lemma WidePayload(m: nat)
    requires m < Pow2(23)
    ensures Shl(m, 29) < Pow2(52)
    ensures Or(Shl(Low(m, 22), 29), Pow2(51)) == Or(Shl(m, 29), Pow2(51))
  {
    hide Shl, Low, Or, Pow2, Bit;
    ShiftFits(m, 23, 29);
    forall j: nat
      ensures Bit(Or(Shl(Low(m, 22), 29), Pow2(51)), j) == Bit(Or(Shl(m, 29), Pow2(51)), j)
    {
      BitOr(Shl(Low(m, 22), 29), Pow2(51), j);
      BitOr(Shl(m, 29), Pow2(51), j);
      BitOfPow2(51, j);
      BitShl(Low(m, 22), 29, j);
      BitShl(m, 29, j);
      if j >= 29 {
        BitLow(m, 22, j - 29);
        if j >= 52 {
          BitHigh(m, 23, j - 29);
        }
      }
    }
    SameBits(Or(Shl(Low(m, 22), 29), Pow2(51)), Or(Shl(m, 29), Pow2(51)));
  }
}
