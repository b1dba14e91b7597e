/** What the conversions guarantee together. */
module FPConversionTheorems {
  import opened Bits
  import opened CompilerIntrinsics
  import opened FloatFormat
  import opened FPRounding
  import opened DoubleRounding
  import opened FPConversions
  import opened FPWidening

  // ---- The rounding routine ----

  /** The routine is correctly rounded: with any denominator 2^d that makes the
      exact input an integer, no encoding is nearer, and ties are even; with
      rounding to odd the result is exact or odd, finite and nonzero. */
  lemma RoundInputIsCorrect(f: Format, exponent: int, mantissa: nat, d: nat)
    requires f.Valid() && mantissa > 0 && Scale(f, exponent, mantissa) + d >= 0
    ensures var num := Shl(mantissa, Scale(f, exponent, mantissa) + d);
            && IsNearestEven(f, num, d, RoundInput(f, FPTieEven, exponent, mantissa))
            && IsRoundedToOdd(f, num, d, RoundInput(f, FPRoundOdd, exponent, mantissa))
            && 0 < RoundInput(f, FPRoundOdd, exponent, mantissa)
  {
    hide Shl, Scale, RoundInput, Nearest, ToOdd, IsNearestEven, IsRoundedToOdd, Format.Valid;
    var u := Scale(f, exponent, mantissa) + d;
    var num := Shl(mantissa, u);
    RoundInputScaled(f, FPTieEven, exponent, mantissa, u, d);
    RoundInputScaled(f, FPRoundOdd, exponent, mantissa, u, d);
    NearestIsNearestEven(f, num, d, Nearest(f, num, d));
    ToOddIsRoundedToOdd(f, num, d, ToOdd(f, num, d));
    ShlLess(0, mantissa, u);
    ShlOfOne(u);
    ToOddStaysNonzero(f, num, d);
  }

  /** To nearest, infinity is the result exactly from halfway between the largest
      finite value and the next binade up; to odd, it never is. */
  lemma RoundInputOverflows(f: Format, exponent: int, mantissa: nat, d: nat)
    requires f.Valid() && mantissa > 0 && Scale(f, exponent, mantissa) + d >= 0
    ensures f.Inf() > 0
    ensures var num := Shl(mantissa, Scale(f, exponent, mantissa) + d);
            RoundInput(f, FPTieEven, exponent, mantissa) == f.Inf()
            <==> Shl(f.Value(f.Inf() - 1) + f.Value(f.Inf()), d) <= 2 * num
    ensures RoundInput(f, FPRoundOdd, exponent, mantissa) < f.Inf()
  {
    hide Shl, Scale, RoundInput, Nearest, ToOdd, Format.Valid, Format.Inf, Format.Value;
    var u := Scale(f, exponent, mantissa) + d;
    var num := Shl(mantissa, u);
    RoundInputScaled(f, FPTieEven, exponent, mantissa, u, d);
    RoundInputScaled(f, FPRoundOdd, exponent, mantissa, u, d);
    InfIsEven(f);
    NearestOverflows(f, num, d, f.Inf() - 1);
    RoundBounded(f, FPRoundOdd, num, d);
  }

  /** The routine is monotone in the exact magnitude, in both modes. */
  lemma RoundInputMonotone(f: Format, mode: RoundMode, e: int, m: nat, e': int, m': nat, d: nat)
    requires f.Valid() && m > 0 && m' > 0
    requires Scale(f, e, m) + d >= 0 && Scale(f, e', m') + d >= 0
    requires Shl(m, Scale(f, e, m) + d) <= Shl(m', Scale(f, e', m') + d)
    ensures RoundInput(f, mode, e, m) <= RoundInput(f, mode, e', m')
  {
    hide Shl, Scale, RoundInput, Nearest, ToOdd, Format.Valid;
    RoundInputScaled(f, mode, e, m, Scale(f, e, m) + d, d);
    RoundInputScaled(f, mode, e', m', Scale(f, e', m') + d, d);
    RoundingMonotone(f, Shl(m, Scale(f, e, m) + d), Shl(m', Scale(f, e', m') + d), d);
  }

  // ---- Words ----

  lemma PartsOfWord(f: Format, sign: nat, magnitude: nat)
    requires f.Valid() && sign <= 1 && magnitude <= f.Inf()
    ensures IsWord(f, WithSign(f, sign, magnitude))
    ensures Sign(f, WithSign(f, sign, magnitude)) == sign && Magnitude(f, WithSign(f, sign, magnitude)) == magnitude
  {
    InfFits(f);
    SignAndMagnitude(f, sign, magnitude);
  }

  /** A NaN word: infinity plus a nonzero payload. */
  lemma PartsOfNaN(f: Format, sign: nat, payload: nat)
    requires f.Valid() && sign <= 1 && 0 < payload < Pow2(f.mbits)
    ensures var raw := WithSign(f, sign, f.Inf() + payload);
            && IsWord(f, raw) && Sign(f, raw) == sign && Magnitude(f, raw) == f.Inf() + payload
            && Low(f.Inf() + payload, f.mbits) == payload
  {
    hide *;
    ValidFormat(f);
    AssembleFields(f, sign, Pow2(f.ebits) - 1, payload);
    InfIs(f);
    SignAndMagnitude(f, sign, f.Inf() + payload);
    ShlIsMul(Pow2(f.ebits) - 1, f.mbits);
    SplitUnique(f.Inf() + payload, f.mbits, Pow2(f.ebits) - 1, payload);
  }

  lemma InfIs(f: Format)
    ensures f.Inf() == Shl(Pow2(f.ebits) - 1, f.mbits)
  {
  }

  lemma ValidFormat(f: Format)
    requires f.Valid()
    ensures f.ebits >= 2 && f.mbits >= 1
  {
  }

  lemma RoundBounded(f: Format, mode: RoundMode, num: nat, d: nat)
    requires f.Valid()
    ensures Round(f, mode, num, d) <= f.Inf()
    ensures mode == FPRoundOdd ==> Round(f, mode, num, d) < f.Inf()
  {
    InfIsEven(f);
    NearestOverflows(f, num, d, f.Inf() - 1);
    ToOddIsRoundedToOdd(f, num, d, ToOdd(f, num, d));
  }

  // ---- Narrowing in two steps ----

  lemma OrSelf(a: nat, b: nat)
    ensures Or(Or(a, b), b) == Or(a, b)
  {
    forall j: nat
      ensures Bit(Or(Or(a, b), b), j) == Bit(Or(a, b), j)
    {
      BitOr(Or(a, b), b, j);
      BitOr(a, b, j);
    }
    SameBits(Or(Or(a, b), b), Or(a, b));
  }

  /** The quiet bit of the wide format lands on the one of the narrow format. */
  lemma QuietBitNarrows(wide: Format, narrow: Format)
    requires wide.Valid() && narrow.Valid() && narrow.mbits <= wide.mbits
    ensures Shr(QuietBit(wide), wide.mbits - narrow.mbits) == QuietBit(narrow)
    ensures 0 < QuietBit(wide) < Pow2(wide.mbits)
  {
    hide Shr, Low, Pow2;
    var k := wide.mbits - narrow.mbits;
    Pow2Add(narrow.mbits - 1, k);
    SplitUnique(QuietBit(wide), k, QuietBit(narrow), 0);
    Pow2Grows(wide.mbits - 1, wide.mbits);
  }

  lemma OrNonzero(a: nat, b: nat)
    requires b > 0
    ensures Or(a, b) > 0
  {
  }

  /** A NaN payload narrowed in two steps is the payload narrowed at once. */
  lemma PayloadInTwoSteps(a: Format, b: Format, c: Format, m: nat)
    requires a.Valid() && b.Valid() && c.Valid() && c.mbits <= b.mbits <= a.mbits && m < Pow2(a.mbits)
    ensures var p := Or(Shr(m, a.mbits - b.mbits), QuietBit(b));
            && 0 < p < Pow2(b.mbits)
            && Or(Shr(p, b.mbits - c.mbits), QuietBit(c)) == Or(Shr(m, a.mbits - c.mbits), QuietBit(c))
  {
    hide Shr, Or, Low, Pow2, QuietBit;
    var k, l := a.mbits - b.mbits, b.mbits - c.mbits;
    QuietBitNarrows(b, c);
    ShiftedBound(m, b.mbits, k);
    OrBound(Shr(m, k), QuietBit(b), b.mbits);
    OrNonzero(Shr(m, k), QuietBit(b));
    ShrOfOr(Shr(m, k), QuietBit(b), l);
    ShrShr(m, k, l);
    OrSelf(Shr(m, k + l), QuietBit(c));
  }

  /** A finite number: one rounding to nearest, whichever way it is reached. */
  lemma FiniteInTwoSteps(raw: nat, dn: bool)
    requires IsWord(DOUBLE, raw) && DOUBLE.Valid() && Magnitude(DOUBLE, raw) < DOUBLE.Inf()
    ensures Narrows(DOUBLE, SINGLE) && Narrows(DOUBLE, HALF) && Narrows(SINGLE, HALF)
    ensures Narrow(SINGLE, HALF, FPTieEven, dn, Narrow(DOUBLE, SINGLE, FPRoundOdd, dn, raw)) ==
            Narrow(DOUBLE, HALF, FPTieEven, dn, raw)
  {
    Formats();
    Fields(DOUBLE, raw);
    var s, n := Sign(DOUBLE, raw), Magnitude(DOUBLE, raw);
    hide Shl, Shr, Low, Or, Pow2, Format.Inf, Format.Value, Format.Bias, Format.Valid, UnitGap, Inside;
    hide Nearest, ToOdd, Sign, Magnitude, WithSign;
    var y := Round(SINGLE, FPRoundOdd, DOUBLE.Value(n), 925);
    RoundBounded(SINGLE, FPRoundOdd, DOUBLE.Value(n), 925);
    PartsOfWord(SINGLE, s, y);
    OddThenNearest(SINGLE, HALF, DOUBLE.Value(n), 925);
  }

  /** Double to single with rounding to odd, then single to half with ties to
      even, is double to half: on every word, NaNs, infinities, subnormals and
      overflowing numbers included. */
  lemma RoundToOddAvoidsDoubleRounding(raw: nat, dn: bool)
    requires IsWord(DOUBLE, raw)
    ensures Narrows(DOUBLE, SINGLE) && Narrows(DOUBLE, HALF) && Narrows(SINGLE, HALF)
    ensures Narrow(SINGLE, HALF, FPTieEven, dn, Narrow(DOUBLE, SINGLE, FPRoundOdd, dn, raw)) ==
            Narrow(DOUBLE, HALF, FPTieEven, dn, raw)
  {
    Formats();
    if Magnitude(DOUBLE, raw) < DOUBLE.Inf() {
      FiniteInTwoSteps(raw, dn);
    } else {
      SpecialInTwoSteps(raw, dn);
    }
  }

  lemma SpecialInTwoSteps(raw: nat, dn: bool)
    requires IsWord(DOUBLE, raw) && DOUBLE.Valid() && Magnitude(DOUBLE, raw) >= DOUBLE.Inf()
    ensures Narrows(DOUBLE, SINGLE) && Narrows(DOUBLE, HALF) && Narrows(SINGLE, HALF)
    ensures Narrow(SINGLE, HALF, FPTieEven, dn, Narrow(DOUBLE, SINGLE, FPRoundOdd, dn, raw)) ==
            Narrow(DOUBLE, HALF, FPTieEven, dn, raw)
  {
    hide Shl, Shr, Low, Or, Pow2, Format.Inf, Format.Value, Format.Bias, Format.Valid, UnitGap, Inside, Narrows;
    hide Narrow, Sign, Magnitude, WithSign, QuietBit, DefaultNaN;
    Formats();
    Fields(DOUBLE, raw);
    NarrowSpecial(DOUBLE, SINGLE, FPRoundOdd, raw);
    NarrowSpecial(DOUBLE, HALF, FPTieEven, raw);
    var s, n := Sign(DOUBLE, raw), Magnitude(DOUBLE, raw);
    var y := Narrow(DOUBLE, SINGLE, FPRoundOdd, dn, raw);
    NarrowSpecial(SINGLE, HALF, FPTieEven, y);
    if n == DOUBLE.Inf() {
      PartsOfWord(SINGLE, s, SINGLE.Inf());
    } else if dn {
      QuietBitNarrows(SINGLE, HALF);
      PartsOfNaN(SINGLE, 0, QuietBit(SINGLE));
      SmallSignSingle();
    } else {
      var m := Low(n, 52);
      PayloadInTwoSteps(DOUBLE, SINGLE, HALF, m);
      PartsOfNaN(SINGLE, s, Or(Shr(m, 29), QuietBit(SINGLE)));
    }
  }

  lemma SmallSignSingle()
    ensures SINGLE.Valid()
    ensures WithSign(SINGLE, 0, DefaultNaN(SINGLE)) == DefaultNaN(SINGLE) == SINGLE.Inf() + QuietBit(SINGLE)
  {
    hide Shl, Pow2, Format.Inf, QuietBit;
    Formats();
    ShlOfOne(31);
  }

  // ---- Narrowing undoes widening ----

  lemma RoundExact(f: Format, mode: RoundMode, n: nat, d: nat)
    requires f.Valid() && n < f.Inf()
    ensures Round(f, mode, Shl(f.Value(n), d), d) == n
  {
    RoundingExact(f, n, d);
  }

  lemma RebuildWord(f: Format, raw: nat)
    ensures raw == WithSign(f, Sign(f, raw), Magnitude(f, raw))
  {
    Split(raw, f.ebits + f.mbits);
    ShlIsMul(Sign(f, raw), f.ebits + f.mbits);
  }

  /** Setting low bits leaves the high part alone. */
  lemma OrLow(n: nat, b: nat, k: nat)
    requires b < Pow2(k)
    ensures Or(n, b) == Shl(Shr(n, k), k) + Or(Low(n, k), b)
  {
    hide *;
    Split(n, k);
    ShlIsMul(Shr(n, k), k);
    OrIsSum(Shr(n, k), k, Low(n, k));
    OrBound(Low(n, k), b, k);
    OrIsSum(Shr(n, k), k, Or(Low(n, k), b));
    OrAssoc(Shl(Shr(n, k), k), Low(n, k), b);
  }

  lemma ShrOfShl(m: nat, k: nat)
    ensures Shr(Shl(m, k), k) == m
  {
    ShlIsMul(m, k);
    SplitUnique(Shl(m, k), k, m, 0);
  }

  lemma PayloadThereAndBack(narrow: Format, wide: Format, m: nat)
    requires wide.Valid() && narrow.Valid() && narrow.mbits <= wide.mbits && m < Pow2(narrow.mbits)
    ensures var k := wide.mbits - narrow.mbits;
            var p := Or(Shl(m, k), QuietBit(wide));
            && 0 < p < Pow2(wide.mbits)
            && Or(Shr(p, k), QuietBit(narrow)) == Or(m, QuietBit(narrow))
  {
    hide Shr, Shl, Or, Low, Pow2, QuietBit;
    var k := wide.mbits - narrow.mbits;
    QuietBitNarrows(wide, narrow);
    ShiftFits(m, narrow.mbits, k);
    OrBound(Shl(m, k), QuietBit(wide), wide.mbits);
    OrNonzero(Shl(m, k), QuietBit(wide));
    ShrOfOr(Shl(m, k), QuietBit(wide), k);
    ShrOfShl(m, k);
    OrSelf(m, QuietBit(narrow));
  }

  /** Widening is exact. */
  lemma WidenIsExact(narrow: Format, wide: Format, dn: bool, raw: nat)
    requires Inside(narrow, wide) && Narrows(wide, narrow) && IsWord(narrow, raw)
    requires Magnitude(narrow, raw) < narrow.Inf()
    ensures var w := Widen(narrow, wide, dn, raw);
            && IsWord(wide, w) && Sign(wide, w) == Sign(narrow, raw) && Magnitude(wide, w) < wide.Inf()
            && wide.Value(Magnitude(wide, w)) == Shl(narrow.Value(Magnitude(narrow, raw)), UnitGap(wide, narrow))
  {
    hide Shl, Shr, Low, Pow2, Format.Value, Format.Inf, Format.Bias, Widen, UnitGap, WithSign, Sign, Magnitude;
    Fields(narrow, raw);
    var p := NarrowPoint(wide, narrow, Magnitude(narrow, raw));
    WidenTo(narrow, wide, dn, raw, p);
    PartsOfWord(wide, Sign(narrow, raw), p);
  }

  /** Every word comes back from the wider type, NaNs with the quiet bit set and
      all others unchanged, in either rounding mode. */
  lemma NarrowUndoesWiden(narrow: Format, wide: Format, mode: RoundMode, raw: nat)
    requires Inside(narrow, wide) && Narrows(wide, narrow) && IsWord(narrow, raw)
    ensures Narrow(wide, narrow, mode, false, Widen(narrow, wide, false, raw)) ==
            if Classify(narrow, raw) == FP_NAN then Or(raw, QuietBit(narrow)) else raw
  {
    var n := Magnitude(narrow, raw);
    RebuildWord(narrow, raw);
    if n < narrow.Inf() {
      WidenIsExact(narrow, wide, false, raw);
      RoundExact(narrow, mode, n, UnitGap(wide, narrow));
    } else {
      SpecialThereAndBack(narrow, wide, mode, raw);
    }
  }

  lemma SpecialThereAndBack(narrow: Format, wide: Format, mode: RoundMode, raw: nat)
    requires Inside(narrow, wide) && Narrows(wide, narrow) && IsWord(narrow, raw)
    requires Magnitude(narrow, raw) >= narrow.Inf()
    ensures Narrow(wide, narrow, mode, false, Widen(narrow, wide, false, raw)) ==
            if Classify(narrow, raw) == FP_NAN then Or(raw, QuietBit(narrow)) else raw
  {
    hide Shl, Shr, Low, Or, Pow2, Format.Inf, Format.Value, Format.Bias, UnitGap;
    hide Narrow, Widen, Sign, Magnitude, WithSign, QuietBit, DefaultNaN;
    InfIsEven(narrow);
    Fields(narrow, raw);
    var s, n := Sign(narrow, raw), Magnitude(narrow, raw);
    var w := Widen(narrow, wide, false, raw);
    WidenSpecial(narrow, wide, raw);
    NarrowSpecial(wide, narrow, mode, w);
    if n == narrow.Inf() {
      PartsOfWord(wide, s, wide.Inf());
      RebuildWord(narrow, raw);
    } else {
      var m := Low(n, narrow.mbits);
      PayloadThereAndBack(narrow, wide, m);
      PartsOfNaN(wide, s, Or(Shl(m, wide.mbits - narrow.mbits), QuietBit(wide)));
      QuietedWord(narrow, raw);
    }
  }

  /** Forcing the quiet bit of a NaN word. */
  lemma QuietedWord(f: Format, raw: nat)
    requires f.Valid() && IsWord(f, raw) && Classify(f, raw) == FP_NAN
    ensures Or(raw, QuietBit(f)) ==
            WithSign(f, Sign(f, raw), f.Inf() + Or(Low(Magnitude(f, raw), f.mbits), QuietBit(f)))
  {
    hide Shl, Shr, Low, Or, Pow2, Format.Inf, Magnitude, Sign, Classify;
    var e := Pow2(f.ebits) - 1;
    Fields(f, raw);
    ClassFromFields(f, raw);
    RebuildWord(f, raw);
    InfIs(f);
    Pow2Grows(f.mbits - 1, f.mbits);
    OrLow(raw, QuietBit(f), f.mbits);
    var hi := Shr(raw, f.mbits);
    Split(raw, f.mbits);
    ShlIsMul(hi, f.mbits);
    assert Shl(hi, f.mbits) == Shl(Sign(f, raw), f.ebits + f.mbits) + f.Inf();
  }

  lemma HalfThroughSingle(raw: nat, mode: RoundMode)
    requires IsWord(HALF, raw)
    ensures Narrows(SINGLE, HALF)
    ensures Narrow(SINGLE, HALF, mode, false, Widen(HALF, SINGLE, false, raw)) ==
            if Classify(HALF, raw) == FP_NAN then Or(raw, 0x200) else raw
  {
    hide *;
    Formats();
    SpecialHalfWords();
    NarrowUndoesWiden(HALF, SINGLE, mode, raw);
  }

  lemma SingleThroughDouble(raw: nat, mode: RoundMode)
    requires IsWord(SINGLE, raw)
    ensures Narrows(DOUBLE, SINGLE)
    ensures Narrow(DOUBLE, SINGLE, mode, false, Widen(SINGLE, DOUBLE, false, raw)) ==
            if Classify(SINGLE, raw) == FP_NAN then Or(raw, 0x40_0000) else raw
  {
    hide *;
    Formats();
    SpecialSingleWords();
    NarrowUndoesWiden(SINGLE, DOUBLE, mode, raw);
  }

  // ---- Rounding by adding ----

  /** With the same exponent range, the discarded bits are the low bits of the
      encoding, whatever the exponent. */
  lemma CommonFields(wide: Format, narrow: Format, n: nat)
    requires wide.Valid() && narrow.Valid() && narrow.ebits == wide.ebits && narrow.mbits < wide.mbits
    requires n < wide.Inf()
    ensures var k := wide.mbits - narrow.mbits;
            var q := Shr(n, k);
            && q < narrow.Inf()
            && UlpExponent(narrow, q) == UlpExponent(wide, n)
            && Shr(Significand(wide, n), k) == Significand(narrow, q)
            && Low(Significand(wide, n), k) == Low(n, k)
            && Significand(narrow, q) % 2 == q % 2
  {
    hide Shl, Shr, Low, Pow2, Format.Inf;
    var k := wide.mbits - narrow.mbits;
    ShrShr(n, k, narrow.mbits);
    InfShrinks(wide, narrow, n);
    DropFraction(n, narrow.mbits, k);
  }

  /** Dropping k bits from a fraction of i + k bits, with or without the implicit bit. */
  lemma DropFraction(n: nat, i: nat, k: nat)
    requires i >= 1
    ensures var q, m := Shr(n, k), Low(n, i + k);
            && Shr(m, k) == Low(q, i) && Low(m, k) == Low(n, k)
            && Shr(Pow2(i + k) + m, k) == Pow2(i) + Low(q, i) && Low(Pow2(i + k) + m, k) == Low(n, k)
            && Low(q, i) % 2 == (Pow2(i) + Low(q, i)) % 2 == q % 2
  {
    hide *;
    var q, m := Shr(n, k), Low(n, i + k);
    LowParity(q, i);
    Pow2Step(i);
    LowShr(n, k, i);
    LowLow(n, k, i + k);
    WithTopBit(m, i, k);
    ParityOfSum(Pow2(i), Low(q, i));
  }

  lemma WithTopBit(m: nat, i: nat, k: nat)
    ensures Shr(Pow2(i + k) + m, k) == Pow2(i) + Shr(m, k) && Low(Pow2(i + k) + m, k) == Low(m, k)
  {
    hide *;
    Split(m, k);
    Pow2Add(i, k);
    MulDist(Pow2(i), Shr(m, k), Pow2(k));
    SplitUnique(Pow2(i + k) + m, k, Pow2(i) + Shr(m, k), Low(m, k));
  }

  lemma ParityOfSum(a: nat, b: nat)
    ensures a % 2 == 0 ==> (a + b) % 2 == b % 2
  {
  }

  lemma LowParity(q: nat, k: nat)
    requires k >= 1
    ensures Low(q, k) % 2 == q % 2
  {
  }

  lemma InfShrinks(wide: Format, narrow: Format, n: nat)
    requires narrow.ebits == wide.ebits && narrow.mbits < wide.mbits
    ensures n < wide.Inf() ==> Shr(n, wide.mbits - narrow.mbits) < narrow.Inf()
    ensures n == wide.Inf() ==>
              Shr(n, wide.mbits - narrow.mbits) == narrow.Inf() && Low(n, wide.mbits - narrow.mbits) == 0
  {
    hide Shl, Shr, Low, Pow2;
    var k := wide.mbits - narrow.mbits;
    ShlShl(Pow2(wide.ebits) - 1, narrow.mbits, k);
    ShlIsMul(narrow.Inf(), k);
    Split(n, k);
    if Shr(n, k) >= narrow.Inf() {
      MulMono(narrow.Inf(), Shr(n, k), Pow2(k));
    }
    if n == wide.Inf() {
      SplitUnique(n, k, narrow.Inf(), 0);
    }
  }

  /** Adding just under half of the discarded range, plus the parity of what is
      kept, carries exactly when rounding goes up. */
  lemma AddingCarries(n: nat, k: nat)
    requires k >= 1
    ensures var q, r := Shr(n, k), Low(n, k);
            Shr(n + (Pow2(k - 1) - 1) + q % 2, k) ==
            (if 2 * r > Pow2(k) || (2 * r == Pow2(k) && q % 2 == 1) then q + 1 else q)
  {
    hide Shr, Low, Pow2;
    var q, r := Shr(n, k), Low(n, k);
    Split(n, k);
    Pow2Step(k);
    var x := r + (Pow2(k - 1) - 1) + q % 2;
    if x < Pow2(k) {
      SplitUnique(n + (Pow2(k - 1) - 1) + q % 2, k, q, x);
    } else {
      MulDist(q, 1, Pow2(k));
      SplitUnique(n + (Pow2(k - 1) - 1) + q % 2, k, q + 1, x - Pow2(k));
    }
  }

  lemma NearestByAdding(wide: Format, narrow: Format, n: nat)
    requires wide.Valid() && narrow.Valid() && narrow.ebits == wide.ebits && narrow.mbits < wide.mbits
    requires n < wide.Inf()
    ensures var k := wide.mbits - narrow.mbits;
            Nearest(narrow, wide.Value(n), k) == Shr(n + (Pow2(k - 1) - 1) + Shr(n, k) % 2, k)
  {
    hide Shl, Shr, Low, Pow2, Format.Inf, Format.Value, Format.Ulp, Nearest, ToOdd, UlpExponent, Significand;
    var k := wide.mbits - narrow.mbits;
    var q, m, u := Shr(n, k), Significand(wide, n), UlpExponent(wide, n);
    CommonFields(wide, narrow, n);
    SignificandForm(wide, n);
    SignificandForm(narrow, q);
    ValueStep(narrow, q);
    ShlAdd(Shr(m, k), 1, u);
    RoundShifted(narrow, m, k, u, q);
    AddingCarries(n, k);
    if u >= k {
      RoundingScales(narrow, Shl(m, u - k), 0, k);
      ShlShl(m, u - k, k);
    } else {
      RoundingScales(narrow, m, k - u, u);
    }
  }

  /** Conversion to bfloat16 is the integer shortcut, without a carry out of the
      word, for every word that is not a NaN. */
  lemma BFloatByAdding(raw: nat, dn: bool)
    requires IsWord(SINGLE, raw) && Classify(SINGLE, raw) != FP_NAN
    ensures Narrows(SINGLE, BFLOAT)
    ensures raw + 0x7fff + Shr(raw, 16) % 2 < 0x1_0000_0000
    ensures Narrow(SINGLE, BFLOAT, FPTieEven, dn, raw) == Shr(raw + 0x7fff + Shr(raw, 16) % 2, 16)
  {
    hide Shl, Shr, Low, Pow2, Format.Inf, Format.Value, Format.Bias, Format.Valid, UnitGap, Inside, Nearest;
    hide Sign, Magnitude;
    hide Narrow, Narrows;
    Formats();
    Pow2Values();
    Fields(SINGLE, raw);
    RebuildWord(SINGLE, raw);
    var s, n := Sign(SINGLE, raw), Magnitude(SINGLE, raw);
    ShlOfOne(31);
    ShrPastSign(s, n);
    ShrPastSign(s, n + 0x7fff + Shr(n, 16) % 2);
    BFloatMagnitude(raw, dn);
  }

  lemma BFloatMagnitude(raw: nat, dn: bool)
    requires IsWord(SINGLE, raw) && Classify(SINGLE, raw) != FP_NAN
    ensures Narrows(SINGLE, BFLOAT)
    ensures var n := Magnitude(SINGLE, raw);
            Narrow(SINGLE, BFLOAT, FPTieEven, dn, raw) ==
            Shl(Sign(SINGLE, raw), 15) + Shr(n + 0x7fff + Shr(n, 16) % 2, 16)
  {
    hide Shl, Shr, Low, Pow2, Format.Inf, Format.Value, Format.Bias, Format.Valid, UnitGap, Inside, Nearest;
    hide Sign, Magnitude;
    Formats();
    assert Pow2(15) == 0x8000 by { Pow2Values(); }
    var n := Magnitude(SINGLE, raw);
    if n < SINGLE.Inf() {
      NearestByAdding(SINGLE, BFLOAT, n);
    } else {
      InfShrinks(SINGLE, BFLOAT, n);
      AddingCarries(n, 16);
      assert Pow2(16) >= 1;
    }
  }

  lemma ShrPastSign(s: nat, x: nat)
    ensures Shr(Shl(s, 31) + x, 16) == Shl(s, 15) + Shr(x, 16)
    ensures (Shl(s, 15) + Shr(x, 16)) % 2 == Shr(x, 16) % 2
  {
    hide *;
    ShlShl(s, 15, 16);
    ShlIsMul(Shl(s, 15), 16);
    Split(x, 16);
    MulDist(Shl(s, 15), Shr(x, 16), Pow2(16));
    SplitUnique(Shl(s, 31) + x, 16, Shl(s, 15) + Shr(x, 16), Low(x, 16));
    ShlEven(s, 15);
  }

  // ---- Signalling NaNs ----

  lemma OrPow2(x: nat, k: nat)
    ensures Or(x, Pow2(k)) == x <==> Bit(x, k)
  {
    hide Bit, Or, Pow2;
    forall j: nat
      ensures Bit(Or(x, Pow2(k)), j) <==> Bit(x, j) || j == k
    {
      BitOr(x, Pow2(k), j);
      BitOfPow2(k, j);
    }
    if Bit(x, k) {
      SameBits(Or(x, Pow2(k)), x);
    }
  }

  /** The signalling words, for which the conversions raise the exception, are
      exactly the NaNs that forcing the quiet bit changes. */
  lemma SignallingIffQuietingChanges(f: Format, raw: nat)
    requires f.Valid()
    ensures IsSignallingNaN(f, raw) <==> Classify(f, raw) == FP_NAN && Or(raw, QuietBit(f)) != raw
  {
    hide Bit, Or, Pow2, Classify;
    OrPow2(raw, f.mbits - 1);
  }

  /** A payload with the quiet bit makes a NaN that is not signalling. */
  lemma QuietPayload(f: Format, sign: nat, m: nat)
    requires f.Valid() && sign <= 1 && m < Pow2(f.mbits)
    ensures var w := WithSign(f, sign, f.Inf() + Or(m, QuietBit(f)));
            Classify(f, w) == FP_NAN && !IsSignallingNaN(f, w)
  {
    hide Shl, Shr, Low, Or, Bit, Pow2, Format.Inf, Magnitude, Sign, WithSign, QuietBit, IsSignallingNaN;
    var p := Or(m, QuietBit(f));
    var w := WithSign(f, sign, f.Inf() + p);
    QuietBitNarrows(f, f);
    OrBound(m, QuietBit(f), f.mbits);
    OrNonzero(m, QuietBit(f));
    PartsOfNaN(f, sign, p);
    QuietedWord(f, w);
    OrSelf(m, QuietBit(f));
    SignallingIffQuietingChanges(f, w);
  }

  lemma PayloadShr(m: nat, wide: nat, narrow: nat)
    requires narrow <= wide && m < Pow2(wide)
    ensures Shr(m, wide - narrow) < Pow2(narrow)
  {
    hide Shr, Pow2;
    ShiftedBound(m, narrow, wide - narrow);
  }

  /** No conversion returns a signalling NaN, and NaNs stay NaNs. */
  lemma ResultsAreQuiet(wide: Format, narrow: Format, mode: RoundMode, dn: bool, raw: nat)
    requires Narrows(wide, narrow) && IsWord(wide, raw)
    ensures !IsSignallingNaN(narrow, Narrow(wide, narrow, mode, dn, raw))
    ensures Classify(wide, raw) == FP_NAN ==> Classify(narrow, Narrow(wide, narrow, mode, dn, raw)) == FP_NAN
  {
    hide Shl, Shr, Low, Or, Bit, Pow2, Format.Inf, Format.Value, Magnitude, Sign, WithSign, QuietBit, Round;
    var s, n := Sign(wide, raw), Magnitude(wide, raw);
    Fields(wide, raw);
    if n < wide.Inf() {
      var r := Round(narrow, mode, wide.Value(n), UnitGap(wide, narrow));
      RoundBounded(narrow, mode, wide.Value(n), UnitGap(wide, narrow));
      PartsOfWord(narrow, s, r);
    } else if n == wide.Inf() {
      PartsOfWord(narrow, s, narrow.Inf());
    } else if dn {
      DefaultIsQuiet(narrow);
    } else {
      var m := Low(n, wide.mbits);
      Split(n, wide.mbits);
      PayloadShr(m, wide.mbits, narrow.mbits);
      QuietPayload(narrow, s, Shr(m, wide.mbits - narrow.mbits));
    }
  }

  lemma DefaultIsQuiet(f: Format)
    requires f.Valid()
    ensures Classify(f, DefaultNaN(f)) == FP_NAN && !IsSignallingNaN(f, DefaultNaN(f))
  {
    DefaultIsPositive(f);
    hide Shl, Shr, Low, Or, Bit, Pow2, Format.Inf, Magnitude, Sign, WithSign, QuietBit, Classify, IsSignallingNaN;
    hide DefaultNaN;
    QuietPayload(f, 0, 0);
  }

  lemma DefaultIsPositive(f: Format)
    requires f.Valid()
    ensures DefaultNaN(f) == WithSign(f, 0, f.Inf() + Or(0, QuietBit(f))) && 0 < Pow2(f.mbits)
  {
    hide Shl, Or, Pow2, Format.Inf, QuietBit;
    OrZero(QuietBit(f));
    ShlOfOne(f.ebits + f.mbits);
  }
}
