/** Rounding to odd in a wide format, then to nearest in a narrow one, is one
    rounding to nearest: the wide result falls on the same side of every narrow
    value and midpoint as the exact number does, because all of those have even
    wide encodings. */
module DoubleRounding {
  import opened Bits
  import opened FloatFormat

  /** How many wide units, as a power of two, make one narrow unit. */
  function UnitGap(wide: Format, narrow: Format): int
    requires wide.Valid() && narrow.Valid()
  {
    wide.Bias() - narrow.Bias() + wide.mbits - narrow.mbits
  }

  predicate Inside(narrow: Format, wide: Format) {
    && wide.Valid() && narrow.Valid()
    && narrow.ebits < wide.ebits
    && narrow.mbits + 2 <= wide.mbits
  }

  /** The power of two that is the spacing of encodings at n. */
  function UlpExponent(f: Format, n: nat): nat {
    var e := Shr(n, f.mbits);
    if e == 0 then 0 else e - 1
  }

  function Significand(f: Format, n: nat): nat {
    var e, m := Shr(n, f.mbits), Low(n, f.mbits);
    if e == 0 then m else Pow2(f.mbits) + m
  }

  lemma SignificandForm(f: Format, n: nat)
    ensures f.Value(n) == Shl(Significand(f, n), UlpExponent(f, n))
    ensures Significand(f, n) < Pow2(f.mbits + 1)
    ensures f.Ulp(n) == Shl(1, UlpExponent(f, n))
  {
    Split(n, f.mbits);
    ShlOfOne(UlpExponent(f, n));
  }

  lemma UnitGapBounds(wide: Format, narrow: Format)
    requires Inside(narrow, wide)
    ensures UnitGap(wide, narrow) >= 3
    ensures narrow.mbits + (Pow2(narrow.ebits) - 2) + UnitGap(wide, narrow) <
            wide.mbits + (Pow2(wide.ebits) - 2)
  {
    Pow2Grows(narrow.ebits - 1, wide.ebits - 1);
  }

  /** An even number with few significant bits has an even finite encoding. */
  lemma EvenEncoding(f: Format, w: nat, j: nat) returns (p: nat)
    requires f.Valid() && w < Pow2(f.mbits) && j >= 1
    requires Shl(w, j) < f.Value(f.Inf())
    ensures p % 2 == 0 && p < f.Inf() && f.Value(p) == Shl(w, j)
  {
    hide Shl, Pow2, HighBit, Format.Inf, Format.Value;
    InfIsEven(f);
    ShlEven(w, j);
    if w == 0 {
      ShlOfOne(j);
      ValueOfZero(f);
      p := 0;
    } else {
      var v, hw := Shl(w, j), HighBit(w);
      ShlHighBit(w, j);
      HighBitBelow(w, f.mbits);
      ValueOfInf(f);
      if hw + j < f.mbits {
        p := SubnormalEncoding(f, v);
      } else {
        var e := hw + j - f.mbits + 1;
        var sig := Shl(w, j - (e - 1));
        ShlShl(w, j - (e - 1), e - 1);
        ShlHighBit(w, j - (e - 1));
        assert HighBit(sig) == f.mbits;
        ShlEven(w, j - (e - 1));
        ExponentBelowInf(f, v, e);
        p := NormalEncoding(f, e, sig);
      }
    }
  }

  lemma SubnormalEncoding(f: Format, v: nat) returns (p: nat)
    requires f.Valid() && v > 0 && HighBit(v) < f.mbits
    ensures p == v && p < f.Inf() && f.Value(p) == v
  {
    hide Shl, Shr, Low, Pow2, HighBit;
    p := v;
    HighBitVersus(v, f.mbits);
    SplitUnique(v, f.mbits, 0, v);
    Pow2Grows(1, f.ebits);
    Pow2Step(1);
    ShlOfOne(0);
    ShlLess(1, Pow2(f.ebits) - 1, f.mbits);
    ShlOfOne(f.mbits);
  }

  lemma ExponentBelowInf(f: Format, v: nat, e: nat)
    requires f.Valid() && v > 0 && e >= 1 && HighBit(v) == f.mbits + e - 1
    requires v < f.Value(f.Inf())
    ensures e < Pow2(f.ebits) - 1
  {
    hide *;
    ValueOfInf(f);
    HighBitBounds(v);
    var top := f.mbits + (Pow2(f.ebits) - 2);
    ShlOfOne(top);
    if top < HighBit(v) {
      Pow2Grows(top, HighBit(v));
    }
  }

  lemma NormalEncoding(f: Format, e: nat, sig: nat) returns (p: nat)
    requires f.Valid() && 1 <= e < Pow2(f.ebits) - 1
    requires sig > 0 && HighBit(sig) == f.mbits && sig % 2 == 0
    ensures p % 2 == 0 && p < f.Inf() && f.Value(p) == Shl(sig, e - 1)
  {
    hide *;
    HighBitBounds(sig);
    var m := sig - Pow2(f.mbits);
    p := Shl(e, f.mbits) + m;
    EncodingBelowInf(f, e, m);
    EncodingFields(f, e, m);
  }

  /** The number and its odd rounding compare alike with any even encoding. */
  lemma OddComparesLikeExact(f: Format, num: nat, d: nat, p: nat)
    requires f.Valid() && p < f.Inf() && p % 2 == 0
    ensures var y := f.Value(ToOdd(f, num, d));
            && (y < f.Value(p) <==> num < Shl(f.Value(p), d))
            && (y == f.Value(p) <==> num == Shl(f.Value(p), d))
  {
    var r := ToOdd(f, num, d);
    ToOddIsRoundedToOdd(f, num, d, r);
    hide Shl, Format.Value, Format.Inf, FloorFrom;
    InfIsEven(f);
    if Shl(f.Value(r), d) == num {
      ShlLess(f.Value(r), f.Value(p), d);
    } else if p < r {
      ScaledMonotone(f, d, p, r - 1);
      ValueMonotone(f, p, r);
    } else {
      ScaledMonotone(f, d, r + 1, p);
      ValueMonotone(f, r, p);
    }
  }

  /** Narrow encodings have even wide encodings. */
  lemma NarrowPoint(wide: Format, narrow: Format, n: nat) returns (p: nat)
    requires Inside(narrow, wide) && n <= narrow.Inf()
    ensures UnitGap(wide, narrow) >= 3
    ensures p < wide.Inf() && p % 2 == 0 && wide.Value(p) == Shl(narrow.Value(n), UnitGap(wide, narrow))
  {
    UnitGapBounds(wide, narrow);
    var gap := UnitGap(wide, narrow);
    var sig, u := Significand(narrow, n), UlpExponent(narrow, n);
    SignificandForm(narrow, n);
    Pow2Grows(narrow.mbits + 1, wide.mbits);
    hide Shl, Pow2, Format.Value, Format.Inf, UnitGap, Significand, UlpExponent;
    ShlShl(sig, u, gap);
    PointBelowInf(wide, narrow, n);
    p := EvenEncoding(wide, sig, u + gap);
  }

  /** So do the midpoints between neighbouring narrow encodings. */
  lemma NarrowMidpoint(wide: Format, narrow: Format, n: nat) returns (mid: nat)
    requires Inside(narrow, wide) && n < narrow.Inf()
    ensures UnitGap(wide, narrow) >= 3
    ensures mid < wide.Inf() && mid % 2 == 0
    ensures wide.Value(mid) == Shl(narrow.Value(n) + narrow.Value(n + 1), UnitGap(wide, narrow) - 1)
  {
    UnitGapBounds(wide, narrow);
    var gap := UnitGap(wide, narrow);
    var sig, u := Significand(narrow, n), UlpExponent(narrow, n);
    SignificandForm(narrow, n);
    Pow2Grows(narrow.mbits + 1, wide.mbits);
    assert Pow2(narrow.mbits + 2) <= Pow2(wide.mbits) by {
      if narrow.mbits + 2 < wide.mbits {
        Pow2Grows(narrow.mbits + 2, wide.mbits);
      }
    }
    assert 2 * sig + 1 < Pow2(narrow.mbits + 2);
    hide Shl, Pow2, Format.Value, Format.Inf, Format.Ulp, UnitGap, Significand, UlpExponent;
    ValueStep(narrow, n);
    ShlAdd(sig, sig, u);
    ShlAdd(sig + sig, 1, u);
    assert narrow.Value(n) + narrow.Value(n + 1) == Shl(2 * sig + 1, u);
    ShlShl(2 * sig + 1, u, gap - 1);
    PointBelowInf(wide, narrow, n + 1);
    MidpointBelow(narrow, n, gap);
    mid := EvenEncoding(wide, 2 * sig + 1, u + (gap - 1));
  }

  lemma PointBelowInf(wide: Format, narrow: Format, n: nat)
    requires Inside(narrow, wide) && n <= narrow.Inf()
    ensures UnitGap(wide, narrow) >= 0
    ensures Shl(narrow.Value(n), UnitGap(wide, narrow)) < wide.Value(wide.Inf())
  {
    UnitGapBounds(wide, narrow);
    hide Shl, Pow2, Format.Inf, Format.Value, Format.Bias;
    var gap := UnitGap(wide, narrow);
    ValueOfInf(wide);
    ValueOfInf(narrow);
    ScaledMonotone(narrow, gap, n, narrow.Inf());
    var a, b := narrow.mbits + (Pow2(narrow.ebits) - 2) + gap, wide.mbits + (Pow2(wide.ebits) - 2);
    ShlShl(1, narrow.mbits + (Pow2(narrow.ebits) - 2), gap);
    ShlOfOne(a);
    ShlOfOne(b);
    Pow2Grows(a, b);
  }

  lemma MidpointBelow(narrow: Format, n: nat, gap: nat)
    requires narrow.mbits >= 1 && gap >= 1
    ensures Shl(narrow.Value(n) + narrow.Value(n + 1), gap - 1) < Shl(narrow.Value(n + 1), gap)
  {
    var v := narrow.Value(n + 1);
    assert Shl(v, gap) == 2 * Shl(v, gap - 1);
    hide Shl, Format.Value;
    ValueMonotone(narrow, n, n + 1);
    ShlLess(narrow.Value(n) + v, v + v, gap - 1);
    ShlAdd(v, v, gap - 1);
  }

  /** No double rounding, for every number and every pair of formats. */
  lemma OddThenNearest(wide: Format, narrow: Format, num: nat, d: nat)
    requires Inside(narrow, wide)
    ensures UnitGap(wide, narrow) >= 3
    ensures Nearest(narrow, wide.Value(ToOdd(wide, num, d)), UnitGap(wide, narrow)) ==
            Nearest(narrow, num, d + UnitGap(wide, narrow))
  {
    hide Shl, Format.Value, Format.Inf, FloorFrom, ToOdd, UnitGap, Pow2, Format.Valid, Format.Bias;
    UnitGapBounds(wide, narrow);
    var gap := UnitGap(wide, narrow);
    var y := wide.Value(ToOdd(wide, num, d));
    var m := Floor(narrow, num, d + gap);
    FloorIs(narrow, num, d + gap, m);
    SameSide(wide, narrow, num, d, m);
    if m < narrow.Inf() {
      SameSide(wide, narrow, num, d, m + 1);
      SameSideOfMidpoint(wide, narrow, num, d, m);
    }
    FloorIs(narrow, y, gap, m);
  }

  lemma SameSide(wide: Format, narrow: Format, num: nat, d: nat, n: nat)
    requires Inside(narrow, wide) && n <= narrow.Inf()
    ensures UnitGap(wide, narrow) >= 3
    ensures var gap, y := UnitGap(wide, narrow), wide.Value(ToOdd(wide, num, d));
            y < Shl(narrow.Value(n), gap) <==> num < Shl(narrow.Value(n), d + gap)
  {
    hide Shl, Format.Value, Format.Inf, ToOdd, UnitGap, Pow2;
    var p := NarrowPoint(wide, narrow, n);
    OddComparesLikeExact(wide, num, d, p);
    ShlShl(narrow.Value(n), UnitGap(wide, narrow), d);
  }

  lemma SameSideOfMidpoint(wide: Format, narrow: Format, num: nat, d: nat, n: nat)
    requires Inside(narrow, wide) && n < narrow.Inf()
    ensures UnitGap(wide, narrow) >= 3
    ensures var gap, y := UnitGap(wide, narrow), wide.Value(ToOdd(wide, num, d));
            var sum := narrow.Value(n) + narrow.Value(n + 1);
            && (2 * y < Shl(sum, gap) <==> 2 * num < Shl(sum, d + gap))
            && (2 * y == Shl(sum, gap) <==> 2 * num == Shl(sum, d + gap))
  {
    var mid := NarrowMidpoint(wide, narrow, n);
    var gap, sum := UnitGap(wide, narrow), narrow.Value(n) + narrow.Value(n + 1);
    assert Shl(sum, gap) == 2 * Shl(sum, gap - 1);
    assert Shl(sum, d + gap) == 2 * Shl(sum, gap - 1 + d);
    hide Shl, Format.Value, Format.Inf, ToOdd, UnitGap, Pow2;
    OddComparesLikeExact(wide, num, d, mid);
    ShlShl(sum, gap - 1, d);
  }
}
