/** The generic rounding routine behind every narrowing conversion. */
module FPRounding {
  import opened Bits
  import opened CompilerIntrinsics
  import opened FloatFormat

  datatype RoundMode = FPTieEven | FPRoundOdd

  function Round(f: Format, mode: RoundMode, num: nat, d: nat): nat {
    if mode == FPTieEven then Nearest(f, num, d) else ToOdd(f, num, d)
  }

  /** The power of two, in units of the smallest subnormal, of the lowest
      mantissa bit: the highest one stands for 2^exponent. */
  function Scale(f: Format, exponent: int, mantissa: nat): int
    requires f.Valid() && mantissa > 0
  {
    exponent + f.Bias() - 1 + f.mbits - HighBit(mantissa)
  }

  /** The exact input, rounded. */
  function RoundInput(f: Format, mode: RoundMode, exponent: int, mantissa: nat): nat
    requires f.Valid() && mantissa > 0
  {
    var k := Scale(f, exponent, mantissa);
    if k >= 0 then Round(f, mode, Shl(mantissa, k), 0) else Round(f, mode, mantissa, -k)
  }

  /** Rebiasing the exponent does not overflow 64 bits, and the extra shift of a
      subnormal result, which is cast to 32 bits, is not truncated. */
  predicate ExponentInRange(f: Format, exponent: int)
    requires f.Valid()
  {
    -0x7fff_ff00 <= exponent + f.Bias() <= 0x7fff_ffff_ffff_ffff
  }

  /** A right shift by 64 is undefined; this is the only input that asks for one. */
  predicate ShiftDefined(f: Format, exponent: int, mantissa: nat)
    requires f.Valid()
  {
    mantissa < Pow2(63) || exponent + f.Bias() != -(f.mbits as int)
  }

  // ---- The pieces of the routine ----

  /** Clearing the highest set bit. */
  lemma ClearTop(m: nat, h: nat)
    requires h < 64 && Pow2(h) <= m < 2 * Pow2(h)
    ensures And(m, Not64(Shl(1, h))) == m - Pow2(h) == Low(m, h)
    ensures Low(m, h) < Pow2(h)
  {
    SplitUnique(m, h, 1, m - Pow2(h));
    ShlOfOne(h);
    forall j: nat
      ensures Bit(And(m, Not64(Shl(1, h))), j) == Bit(Low(m, h), j)
    {
      BitAnd(m, Not64(Shl(1, h)), j);
      BitNot64(Shl(1, h), j);
      BitOfPow2(h, j);
      BitLow(m, h, j);
      if h < j {
        BitHigh(m, h + 1, j);
      }
    }
    SameBits(And(m, Not64(Shl(1, h))), Low(m, h));
  }

  lemma AndNotOne(x: nat, y: nat)
    requires x <= 1 && y <= 1
    ensures And(x, Not64(y)) == if x == 1 && y == 0 then 1 else 0
  {
    if x == 1 {
      AndStep(1, Not64(y));
      BitNot64(y, 0);
    }
  }

  /** The three fields of a word do not overlap. */
  lemma AssembleFields(f: Format, sign: nat, exponent: nat, fraction: nat)
    requires f.Valid() && sign <= 1 && fraction < Pow2(f.mbits)
    requires exponent < Pow2(f.ebits)
    ensures var word := Or(Or(Shl(sign, f.ebits + f.mbits), Shl(exponent, f.mbits)), fraction);
            && word == Shl(sign, f.ebits + f.mbits) + Shl(exponent, f.mbits) + fraction
    ensures Shl(exponent, f.mbits) + fraction < Pow2(f.ebits + f.mbits)
  {
    hide Shl, Or, Pow2;
    ShlShl(sign, f.ebits, f.mbits);
    OrOfShl(Shl(sign, f.ebits), exponent, f.mbits);
    OrIsSum(sign, f.ebits, exponent);
    ShlAdd(Shl(sign, f.ebits), exponent, f.mbits);
    OrIsSum(Or(Shl(sign, f.ebits), exponent), f.mbits, fraction);
    ShlAdd(exponent, 1, f.mbits);
    ShlOfOne(f.mbits);
    ShlLess(Pow2(f.ebits), exponent + 1, f.mbits);
    ShlIsMul(Pow2(f.ebits), f.mbits);
    Pow2Add(f.ebits, f.mbits);
  }

  lemma {:induction false} OrOfShl(a: nat, b: nat, k: nat)
    ensures Or(Shl(a, k), Shl(b, k)) == Shl(Or(a, b), k)
    decreases k
  {
    if k > 0 {
      OrOfShl(a, b, k - 1);
    }
  }

  lemma {:induction false} ShrOfOr(a: nat, b: nat, k: nat)
    ensures Shr(Or(a, b), k) == Or(Shr(a, k), Shr(b, k))
    decreases k
  {
    if k > 0 {
      ShrOfOr(a / 2, b / 2, k - 1);
    }
  }

  lemma OrOne(q: nat)
    ensures Or(q, 1) == if q % 2 == 1 then q else q + 1
  {
    OrZero(q / 2);
  }

  /** The correction by the half bit, after the tie adjustment, rounds a
      right-shifted mantissa to nearest, ties to even. */
  lemma HalfBitRounds(m: nat, s: nat)
    requires s >= 1
    ensures var one, half := Shr(m, s) % 2, Shr(m, s - 1) % 2;
            var adjustment := if half == 1 && one == 0 then 1 else 0;
            && adjustment <= m
            && Shr(m - adjustment, s - 1) % 2 ==
               (if 2 * Low(m, s) > Pow2(s) || (2 * Low(m, s) == Pow2(s) && one == 1) then 1 else 0)
  {
    hide *;
    var q, r, h := Shr(m, s - 1), Low(m, s - 1), Pow2(s - 1);
    Split(m, s - 1);
    ShrShr(m, s - 1, 1);
    ShrOne(q);
    LowStep(m, s - 1);
    Pow2Step(s);
    if q % 2 == 1 {
      QuotientPositive(m, q, h, r);
      BorrowOne(m, s - 1, q, r, h);
    }
  }

  lemma QuotientPositive(m: nat, q: nat, h: nat, r: nat)
    requires m == q * h + r && q >= 1 && h >= 1
    ensures m >= 1
  {
    MulAtLeast(q, h);
  }

  lemma BorrowOne(m: nat, k: nat, q: nat, r: nat, h: nat)
    requires h == Pow2(k) && m == q * h + r && r < h && q >= 1 && m >= 1
    ensures Shr(m - 1, k) == if r > 0 then q else q - 1
  {
    hide *;
    if r > 0 {
      SplitUnique(m - 1, k, q, r - 1);
    } else {
      MulDist(q - 1, 1, h);
      SplitUnique(m - 1, k, q - 1, h - 1);
    }
  }

  lemma {:induction false} LowStep(m: nat, k: nat)
    ensures Low(m, k + 1) == Low(m, k) + (if Shr(m, k) % 2 == 1 then Pow2(k) else 0)
    decreases k
  {
    if k > 0 {
      LowStep(m / 2, k - 1);
    } else {
      assert Low(m / 2, 0) == 0;
    }
  }

  /** From a mantissa q.r above encoding n to the rounded encoding: q units of
      2^u are the value of n, and the discarded bits decide the rest. */
  lemma RoundShifted(f: Format, m: nat, s: nat, u: nat, n: nat)
    requires f.Valid() && s >= 1 && n < f.Inf()
    requires f.Value(n) == Shl(Shr(m, s), u) && f.Value(n + 1) == Shl(Shr(m, s) + 1, u)
    requires n % 2 == Shr(m, s) % 2
    ensures var r := Low(m, s);
            && var up := 2 * r > Pow2(s) || (2 * r == Pow2(s) && n % 2 == 1);
            && var num, d := if u >= s then Shl(m, u - s) else m, if u >= s then 0 else s - u;
            && Nearest(f, num, d) == (if up then n + 1 else n)
            && ToOdd(f, num, d) == (if r == 0 || n % 2 == 1 then n else n + 1)
  {
    var q, r := Shr(m, s), Low(m, s);
    var c := if u >= s then u - s else 0;
    var num, d := if u >= s then Shl(m, u - s) else m, if u >= s then 0 else s - u;
    assert num == Shl(m, c);
    Split(m, s);
    ShlIsMul(q, s);
    ShlAdd(q, 1, s);
    ShlOfOne(s);
    hide *;
    Realign(q, u, d, s, c);
    Realign(q + 1, u, d, s, c);
    RoundAligned(f, num, d, n, m, Shl(q, s), Pow2(s), c);
  }

  lemma Realign(q: nat, u: nat, d: nat, s: nat, c: nat)
    requires u + d == s + c
    ensures Shl(Shl(q, u), d) == Shl(Shl(q, s), c)
  {
    ShlShl(q, u, d);
    ShlShl(q, s, c);
  }

  /** The number m lies between lo and lo + step, the scaled values of n and n + 1. */
  lemma RoundAligned(f: Format, num: nat, d: nat, n: nat, m: nat, lo: nat, step: nat, c: nat)
    requires f.Valid() && n < f.Inf() && num == Shl(m, c)
    requires Shl(f.Value(n), d) == Shl(lo, c) && Shl(f.Value(n + 1), d) == Shl(lo + step, c)
    requires lo <= m < lo + step
    ensures Nearest(f, num, d) ==
            (if 2 * (m - lo) > step || (2 * (m - lo) == step && n % 2 == 1) then n + 1 else n)
    ensures ToOdd(f, num, d) == (if m == lo || n % 2 == 1 then n else n + 1)
  {
    hide Shl, Format.Value, Format.Inf, FloorFrom, Format.Valid;
    ShlLess(m, lo, c);
    ShlLess(m, lo + step, c);
    ShlLess(lo, m, c);
    FloorIs(f, num, d, n);
    ShlAdd(lo, lo + step, c);
    ShlAdd(f.Value(n), f.Value(n + 1), d);
    ShlAdd(m, m, c);
    ShlLess(m + m, lo + (lo + step), c);
    assert Shl(f.Value(n) + f.Value(n + 1), d) == Shl(lo + (lo + step), c);
    assert 2 * num == Shl(m + m, c);
  }

  // ---- The cases of the routine ----

  /** At or above the end of the exponent range everything overflows. */
  lemma OverflowCase(f: Format, mode: RoundMode, exponent: int, mantissa: nat)
    requires f.Valid() && mantissa > 0
    requires exponent + f.Bias() > Pow2(f.ebits) - 2
    ensures RoundInput(f, mode, exponent, mantissa) == if mode == FPTieEven then f.Inf() else f.Inf() - 1
  {
    hide Shl, Pow2, HighBit, Format.Inf, Format.Value, FloorFrom;
    var k, h := Scale(f, exponent, mantissa), HighBit(mantissa);
    var top := f.mbits + (Pow2(f.ebits) - 2);
    var num, d := if k >= 0 then Shl(mantissa, k) else mantissa, if k >= 0 then 0 else -k;
    ValueOfInf(f);
    InfIsEven(f);
    HighBitBounds(mantissa);
    assert h + k >= top;
    if k >= 0 {
      ShlHighBit(mantissa, k);
    }
    ShlShl(1, top, d);
    ShlOfOne(top + d);
    HighBitBounds(num);
    assert HighBit(num) >= top + d;
    if top + d < HighBit(num) {
      Pow2Grows(top + d, HighBit(num));
    }
    FloorIs(f, num, d, f.Inf());
  }

  /** A normal result whose mantissa is shifted right. */
  lemma NormalEncodingOf(f: Format, m: nat, e: nat, s: nat)
    requires f.Valid() && m > 0 && HighBit(m) == f.mbits + s && 1 <= e <= Pow2(f.ebits) - 2
    ensures var frac := Shr(Low(m, HighBit(m)), s);
            var n := Shl(e, f.mbits) + frac;
            && frac < Pow2(f.mbits) && n < f.Inf()
            && f.Value(n) == Shl(Shr(m, s), e - 1) && f.Value(n + 1) == Shl(Shr(m, s) + 1, e - 1)
            && n % 2 == frac % 2 == Shr(m, s) % 2
            && Low(Low(m, HighBit(m)), s) == Low(m, s)
  {
    var q, frac := Shr(m, s), Shr(Low(m, HighBit(m)), s);
    var n := Shl(e, f.mbits) + frac;
    hide *;
    DropImplicitBit(f, m, s);
    EncodingFields(f, e, frac);
    EncodingBelowInf(f, e, frac);
    ValueStep(f, n);
    ShlAdd(q, 1, e - 1);
    ShlOfOne(e - 1);
  }

  lemma DropImplicitBit(f: Format, m: nat, s: nat)
    requires m > 0 && HighBit(m) == f.mbits + s
    ensures var mm := Low(m, HighBit(m));
            && Shr(mm, s) < Pow2(f.mbits)
            && Shr(m, s) == Pow2(f.mbits) + Shr(mm, s) && Low(m, s) == Low(mm, s)
  {
    var h := HighBit(m);
    HighBitBounds(m);
    SplitUnique(m, h, 1, m - Pow2(h));
    var mm := Low(m, h);
    hide *;
    Pow2Add(f.mbits, s);
    Split(mm, s);
    ShiftedBound(mm, f.mbits, s);
    MulDist(Pow2(f.mbits), Shr(mm, s), Pow2(s));
    SplitUnique(m, s, Pow2(f.mbits) + Shr(mm, s), Low(mm, s));
  }

  /** A subnormal result whose mantissa is shifted right. */
  lemma SubnormalEncodingOf(f: Format, m: nat, s: nat)
    requires f.Valid() && m > 0 && HighBit(m) < f.mbits + s
    ensures var n := Shr(m, s);
            && n < Pow2(f.mbits) && n < f.Inf() && f.Value(n) == Shl(n, 0) && f.Value(n + 1) == Shl(n + 1, 0)
  {
    hide Shr, Low, Pow2, HighBit, Format.Inf;
    HighBitVersus(m, f.mbits + s);
    ShiftedBound(m, f.mbits, s);
    var n := Shr(m, s);
    ShlOfOne(f.mbits);
    Pow2Grows(1, f.ebits);
    ShlOfOne(0);
    EncodingBelowInf(f, 0, n);
    SplitUnique(n, f.mbits, 0, n);
    ValueStep(f, n);
  }

  lemma RightShiftCase(f: Format, exponent: int, m: nat, s: nat, u: nat, n: nat)
    requires f.Valid() && m > 0 && s >= 1 && n < f.Inf() && Scale(f, exponent, m) == u - s
    requires f.Value(n) == Shl(Shr(m, s), u) && f.Value(n + 1) == Shl(Shr(m, s) + 1, u)
    requires n % 2 == Shr(m, s) % 2
    ensures var r := Low(m, s);
            && RoundInput(f, FPTieEven, exponent, m) ==
               (if 2 * r > Pow2(s) || (2 * r == Pow2(s) && n % 2 == 1) then n + 1 else n)
            && RoundInput(f, FPRoundOdd, exponent, m) == (if r == 0 || n % 2 == 1 then n else n + 1)
  {
    hide Shl, Shr, Low, Pow2, Format.Value, Format.Inf, Nearest, ToOdd, Scale, Format.Valid, Format.Bias;
    RoundShifted(f, m, s, u, n);
  }

  /** A left shift (or none) is exact. */
  lemma LeftShiftCase(f: Format, mode: RoundMode, exponent: int, m: nat, t: nat, u: nat, n: nat)
    requires f.Valid() && m > 0 && n < f.Inf() && Scale(f, exponent, m) == u + t
    requires f.Value(n) == Shl(Shl(m, t), u)
    ensures RoundInput(f, mode, exponent, m) == n
  {
    ShlShl(m, t, u);
    RoundingExact(f, n, 0);
    assert Shl(f.Value(n), 0) == f.Value(n);
  }

  lemma NormalExact(f: Format, m: nat, e: nat, t: nat)
    requires f.Valid() && m > 0 && HighBit(m) + t == f.mbits && 1 <= e <= Pow2(f.ebits) - 2
    ensures var n := Shl(e, f.mbits) + Shl(Low(m, HighBit(m)), t);
            && Shl(Low(m, HighBit(m)), t) < Pow2(f.mbits)
            && n < f.Inf() && f.Value(n) == Shl(Shl(m, t), e - 1)
  {
    hide *;
    var h := HighBit(m);
    var mm := Low(m, h);
    HighBitBounds(m);
    SplitUnique(m, h, 1, m - Pow2(h));
    ShlAdd(Pow2(h), mm, t);
    ShlOfOne(h);
    ShlShl(1, h, t);
    ShlOfOne(h + t);
    ShiftFits(mm, h, t);
    EncodingFields(f, e, Shl(mm, t));
    EncodingBelowInf(f, e, Shl(mm, t));
  }

  lemma SubnormalExact(f: Format, m: nat, t: nat)
    requires f.Valid() && m > 0 && HighBit(m) + t < f.mbits
    ensures var n := Shl(m, t);
            && n < Pow2(f.mbits) && n < f.Inf() && f.Value(n) == Shl(n, 0)
  {
    ShlHighBit(m, t);
    HighBitVersus(Shl(m, t), f.mbits);
    ShlOfOne(f.mbits);
    EncodingBelowInf(f, 0, Shl(m, t));
    SplitUnique(Shl(m, t), f.mbits, 0, Shl(m, t));
  }

  // ---- The routine ----

  /** Bits dropped by rounding to odd are collected in the lowest kept bit. */
  lemma StickyBit(m: nat, s: nat)
    ensures Shl(1, s) >= 1 && And(m, Shl(1, s) - 1) == Low(m, s)
    ensures Shr(Or(m, Shl(1, s)), s) == if Shr(m, s) % 2 == 1 then Shr(m, s) else Shr(m, s) + 1
  {
    ShlOfOne(s);
    AndMask(m, s);
    ShrOfOr(m, Shl(1, s), s);
    SplitUnique(Pow2(s), s, 1, 0);
    OrOne(Shr(m, s));
  }

  lemma WordFits(f: Format, sign: nat, magnitude: nat)
    requires f.Valid() && sign <= 1 && magnitude <= f.Inf()
    ensures Low(Shl(sign, f.ebits + f.mbits) + magnitude, f.ebits + f.mbits + 1) ==
            Shl(sign, f.ebits + f.mbits) + magnitude
  {
    hide Shl, Low, Pow2;
    var w := f.ebits + f.mbits;
    ShlOfOne(w);
    Pow2Step(w + 1);
    InfFits(f);
    LowOfSmall(Shl(sign, w) + magnitude, w + 1);
  }

  lemma InfFits(f: Format)
    requires f.Valid()
    ensures f.Inf() < Pow2(f.ebits + f.mbits)
  {
    hide Shl, Pow2;
    ShlIsMul(Pow2(f.ebits) - 1, f.mbits);
    MulDist(Pow2(f.ebits) - 1, 1, Pow2(f.mbits));
    Pow2Add(f.ebits, f.mbits);
  }

  /** What the routine has computed when it starts to shift: the biased exponent
      (0 for subnormals), the mantissa without its implicit bit, and the shift. */
  predicate Prepared(f: Format, exponent: int, mantissa: nat, e: nat, m: nat, shift: int)
    requires f.Valid() && mantissa > 0
  {
    var biased, h := exponent + f.Bias(), HighBit(mantissa);
    && biased <= Pow2(f.ebits) - 2
    && (if biased <= 0 then e == 0 && m == mantissa && shift == h - f.mbits + (-biased + 1)
        else e == biased && m == Low(mantissa, h) && shift == h - f.mbits)
  }

  lemma ShiftRight(f: Format, exponent: int, mantissa: nat, e: nat, m: nat, shift: nat)
    requires f.Valid() && mantissa > 0 && Prepared(f, exponent, mantissa, e, m, shift) && shift >= 1
    ensures var n, r := Shl(e, f.mbits) + Shr(m, shift), Low(m, shift);
            && e < Pow2(f.ebits) && Shr(m, shift) < Pow2(f.mbits)
            && n < f.Inf() && n % 2 == Shr(m, shift) % 2
            && RoundInput(f, FPTieEven, exponent, mantissa) ==
               (if 2 * r > Pow2(shift) || (2 * r == Pow2(shift) && n % 2 == 1) then n + 1 else n)
            && RoundInput(f, FPRoundOdd, exponent, mantissa) == (if r == 0 || n % 2 == 1 then n else n + 1)
  {
    var n := Shl(e, f.mbits) + Shr(m, shift);
    hide Shl, Shr, Low, Pow2, HighBit, RoundInput, Format.Value, Format.Inf;
    if e == 0 {
      SubnormalEncodingOf(f, mantissa, shift);
      ShlOfOne(f.mbits);
      RightShiftCase(f, exponent, mantissa, shift, 0, n);
    } else {
      NormalEncodingOf(f, mantissa, e, shift);
      RightShiftCase(f, exponent, mantissa, shift, e - 1, n);
    }
  }

  lemma ShiftLeft(f: Format, mode: RoundMode, exponent: int, mantissa: nat, e: nat, m: nat, t: nat)
    requires f.Valid() && mantissa > 0 && Prepared(f, exponent, mantissa, e, m, -(t as int))
    ensures var n := Shl(e, f.mbits) + Shl(m, t);
            && e < Pow2(f.ebits) && Shl(m, t) < Pow2(f.mbits)
            && n < f.Inf() && RoundInput(f, mode, exponent, mantissa) == n
  {
    var n := Shl(e, f.mbits) + Shl(m, t);
    hide Shl, Shr, Low, Pow2, HighBit, RoundInput, Format.Value, Format.Inf;
    if e == 0 {
      SubnormalExact(f, mantissa, t);
      ShlOfOne(f.mbits);
      LeftShiftCase(f, mode, exponent, mantissa, t, 0, n);
    } else {
      NormalExact(f, mantissa, e, t);
      LeftShiftCase(f, mode, exponent, mantissa, t, e - 1, n);
    }
  }

  /** A shift beyond the half bit leaves nothing but a sticky bit. */
  lemma ShiftOut(f: Format, exponent: int, mantissa: nat, shift: nat)
    requires f.Valid() && mantissa > 0 && Prepared(f, exponent, mantissa, 0, mantissa, shift)
    requires shift > HighBit(mantissa) + 1
    ensures RoundInput(f, FPTieEven, exponent, mantissa) == 0
    ensures RoundInput(f, FPRoundOdd, exponent, mantissa) == 1
  {
    ShiftRight(f, exponent, mantissa, 0, mantissa, shift);
    HighBitBounds(mantissa);
    Pow2Grows(HighBit(mantissa) + 1, shift);
    LowOfSmall(mantissa, shift);
    ShlOfOne(f.mbits);
  }

  lemma OverflowWord(f: Format, mode: RoundMode, sign: nat, exponent: int, mantissa: nat)
    requires f.Valid() && sign <= 1 && mantissa > 0 && exponent + f.Bias() > Pow2(f.ebits) - 2
    ensures Pow2(f.ebits) >= 4
    ensures var e := if mode == FPTieEven then Pow2(f.ebits) - 1 else Pow2(f.ebits) - 2;
            var m := if mode == FPTieEven then 0 else Pow2(f.mbits) - 1;
            && e < Pow2(f.ebits) && m < Pow2(f.mbits)
            && RoundInput(f, mode, exponent, mantissa) == Shl(e, f.mbits) + m <= f.Inf()
  {
    hide Shl, Pow2, RoundInput;
    OverflowCase(f, mode, exponent, mantissa);
    ValueOfInf(f);
    ShlAdd(Pow2(f.ebits) - 2, 1, f.mbits);
    ShlOfOne(f.mbits);
  }

  /** The assembled word is the sign followed by the magnitude. */
  lemma AssembledWord(f: Format, sign: nat, e: nat, fraction: nat)
    requires f.Valid() && sign <= 1 && fraction < Pow2(f.mbits) && e < Pow2(f.ebits)
    requires Shl(e, f.mbits) + fraction <= f.Inf()
    ensures Low(Or(Or(Shl(sign, f.ebits + f.mbits), Shl(e, f.mbits)), fraction), f.ebits + f.mbits + 1) ==
            Shl(sign, f.ebits + f.mbits) + Shl(e, f.mbits) + fraction
  {
    AssembleFields(f, sign, e, fraction);
    WordFits(f, sign, Shl(e, f.mbits) + fraction);
  }

  lemma HalfOfExponents(ebits: nat)
    requires ebits >= 1
    ensures (Pow2(ebits) - 2) / 2 == Pow2(ebits - 1) - 1
  {
  }

  lemma SmallestWord(f: Format, sign: nat)
    requires f.Valid() && sign <= 1
    ensures Low(Or(Shl(sign, f.ebits + f.mbits), 1), f.ebits + f.mbits + 1) == Shl(sign, f.ebits + f.mbits) + 1
  {
    hide Shl, Low, Or, Pow2, Format.Inf;
    Pow2Grows(0, f.ebits + f.mbits);
    OrIsSum(sign, f.ebits + f.mbits, 1);
    InfIsEven(f);
    WordFits(f, sign, 1);
  }

  lemma SetLowBitFits(f: Format, fraction: nat)
    requires f.Valid() && fraction < Pow2(f.mbits) && fraction % 2 == 0
    ensures fraction + 1 < Pow2(f.mbits)
  {
  }

  /** The shift to the right in ties-to-even mode: the half bit, lowered by one unit
      for a tie with an even result, is added to the assembled word. */
  method RoundRightToEven(f: Format, sign: nat, ghost exponent: int, ghost mantissa: nat, e: nat, m: nat, shift: nat)
    returns (word: nat)
    requires f.Valid() && sign <= 1 && mantissa > 0
    requires Prepared(f, exponent, mantissa, e, m, shift) && shift >= 1
    ensures word == Shl(sign, f.ebits + f.mbits) + RoundInput(f, FPTieEven, exponent, mantissa)
  {
    hide Shl, Shr, Low, And, Or, Not64, HighBit, Pow2, RoundInput, Format.Inf, Prepared;
    var signOffset := f.ebits + f.mbits;
    ShiftRight(f, exponent, mantissa, e, m, shift);
    HalfBitRounds(m, shift);
    AndOne(Shr(m, shift));
    AndOne(Shr(m, shift - 1));
    var oneBit := And(Shr(m, shift), 1);
    var halfBit := And(Shr(m, shift - 1), 1);
    AndNotOne(halfBit, oneBit);
    var adjustment := And(halfBit, Not64(oneBit));
    var adjusted: nat := m - adjustment;
    AndOne(Shr(adjusted, shift - 1));
    var halfBitAdjusted := And(Shr(adjusted, shift - 1), 1);
    AssembledWord(f, sign, e, Shr(m, shift));
    word := Low(Or(Or(Shl(sign, signOffset), Shl(e, f.mbits)), Shr(m, shift)), signOffset + 1);
    // A carry out of the mantissa moves to the next exponent, or to infinity.
    WordFits(f, sign, Shl(e, f.mbits) + Shr(m, shift) + halfBitAdjusted);
    word := Low(word + halfBitAdjusted, signOffset + 1);
  }

  /** The shift to the right in round-to-odd mode: any bit shifted out sets the
      lowest bit kept. */
  method RoundRightToOdd(f: Format, sign: nat, ghost exponent: int, ghost mantissa: nat, e: nat, m: nat, shift: nat)
    returns (word: nat)
    requires f.Valid() && sign <= 1 && mantissa > 0
    requires Prepared(f, exponent, mantissa, e, m, shift) && shift >= 1
    ensures word == Shl(sign, f.ebits + f.mbits) + RoundInput(f, FPRoundOdd, exponent, mantissa)
  {
    hide Shl, Shr, Low, And, Or, HighBit, Pow2, RoundInput, Format.Inf, Prepared;
    var signOffset := f.ebits + f.mbits;
    ShiftRight(f, exponent, mantissa, e, m, shift);
    StickyBit(m, shift);
    var fractionalBits := And(m, Shl(1, shift) - 1);
    var sticky := m;
    if fractionalBits != 0 {
      if Shr(m, shift) % 2 == 0 { SetLowBitFits(f, Shr(m, shift)); }
      sticky := Or(m, Shl(1, shift));
    }
    AssembledWord(f, sign, e, Shr(sticky, shift));
    word := Low(Or(Or(Shl(sign, signOffset), Shl(e, f.mbits)), Shr(sticky, shift)), signOffset + 1);
  }

  /** Assembles sign, exponent and mantissa into a word of the format, rounding
      the exact number mantissa * 2^(exponent - position of its highest bit). */
  method FPRound(f: Format, sign: nat, exponent: int, mantissa: nat, mode: RoundMode) returns (word: nat)
    requires f.Valid() && sign <= 1 && mantissa < Pow2(64)
    requires ExponentInRange(f, exponent) && ShiftDefined(f, exponent, mantissa)
    ensures mantissa == 0 ==> word == Shl(sign, f.ebits + f.mbits)
    ensures mantissa > 0 ==>
              word == Shl(sign, f.ebits + f.mbits) + RoundInput(f, mode, exponent, mantissa)
  {
    hide Shl, Shr, Low, And, Or, Not64, HighBit, Pow2, RoundInput, Format.Inf, Format.Value, Scale;
    hide ExponentInRange, ShiftDefined;
    var exponentOffset := f.mbits;
    var signOffset := f.ebits + exponentOffset;
    var width := signOffset + 1;

    // Zero.
    if mantissa == 0 {
      WordFits(f, sign, 0);
      return Low(Shl(sign, signOffset), width);
    }

    ShlOfOne(f.ebits);
    var infiniteExponent: nat := Shl(1, f.ebits) - 1;
    var maxNormalExponent: int := infiniteExponent - 1;
    var e: int := exponent + maxNormalExponent / 2;
    assert f.Bias() == maxNormalExponent / 2 by { HalfOfExponents(f.ebits); }

    // Overflow: infinity, or the largest finite value.
    if e > maxNormalExponent {
      OverflowWord(f, mode, sign, exponent, mantissa);
      ShlOfOne(exponentOffset);
      var m := 0;
      if mode == FPTieEven {
        e := infiniteExponent;
      } else {
        e := maxNormalExponent;
        m := Shl(1, exponentOffset) - 1;
      }
      AssembledWord(f, sign, e, m);
      return Low(Or(Or(Shl(sign, signOffset), Shl(e, exponentOffset)), m), width);
    }

    LowOfSmall(mantissa, 64);
    HighBitBelow(mantissa, 64);
    HighBitBounds(mantissa);
    var zeros := CountLeadingZerosFallBack(mantissa, 64);
    var highestBit := 63 - zeros;
    var shift: int := highestBit - f.mbits;
    var m := mantissa;

    if e <= 0 {
      // Subnormal before rounding.
      shift := shift + (-e + 1);
      assert Prepared(f, exponent, mantissa, 0, mantissa, shift);
      if shift > highestBit + 1 {
        ShiftOut(f, exponent, mantissa, shift);
        WordFits(f, sign, 0);
        SmallestWord(f, sign);
        if mode == FPTieEven {
          return Low(Shl(sign, signOffset), width);
        }
        return Low(Or(Shl(sign, signOffset), 1), width);
      }
      e := 0;
    } else {
      // The implicit bit is not encoded.
      ClearTop(mantissa, highestBit);
      m := And(mantissa, Not64(Shl(1, highestBit)));
      assert Prepared(f, exponent, mantissa, e, m, shift);
    }

    if shift > 0 {
      if mode == FPTieEven {
        word := RoundRightToEven(f, sign, exponent, mantissa, e, m, shift);
      } else {
        word := RoundRightToOdd(f, sign, exponent, mantissa, e, m, shift);
      }
    } else {
      ShiftLeft(f, mode, exponent, mantissa, e, m, -shift);
      AssembledWord(f, sign, e, Shl(m, -shift));
      return Low(Or(Or(Shl(sign, signOffset), Shl(e, exponentOffset)), Shl(m, -shift)), width);
    }
  }
}
