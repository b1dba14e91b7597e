/** Binary floating-point formats and exact rounding into them.

    An encoding is the word without its sign bit. Magnitudes are exact: `Value`
    counts units of the smallest subnormal of the format, and the number to be
    rounded is `num / 2^d` of those units. */
module FloatFormat {
  import opened Bits

  datatype Format = Format(ebits: nat, mbits: nat) {

    predicate Valid() {
      2 <= ebits <= 30 && 1 <= mbits && ebits + mbits <= 63
    }

    function Bias(): nat
      requires Valid()
    {
      Pow2(ebits - 1) - 1
    }

    /** The encoding of infinity; every finite encoding is below it. */
    function Inf(): nat {
      Shl(Pow2(ebits) - 1, mbits)
    }

    /** The exact value of an encoding. Infinity gets the value that the next
        binade would start with, as the overflow rule of IEEE 754-2019 wants. */
    function Value(n: nat): nat {
      var e, m := Shr(n, mbits), Low(n, mbits);
      if e == 0 then m else Shl(Pow2(mbits) + m, e - 1)
    }

    /** The distance from encoding n to the next one. */
    function Ulp(n: nat): nat {
      var e := Shr(n, mbits);
      Pow2(if e == 0 then 0 else e - 1)
    }
  }

  const HALF := Format(5, 10)
  const BFLOAT := Format(8, 7)
  const SINGLE := Format(8, 23)
  const DOUBLE := Format(11, 52)

  // ---- Exact rounding ----

  function FloorFrom(f: Format, num: nat, d: nat, n: nat): nat {
    if n == 0 || Shl(f.Value(n), d) <= num then n else FloorFrom(f, num, d, n - 1)
  }

  /** The greatest encoding whose value does not exceed num / 2^d. */
  function Floor(f: Format, num: nat, d: nat): nat {
    FloorFrom(f, num, d, f.Inf())
  }

  /** Round to nearest, ties to even. */
  function Nearest(f: Format, num: nat, d: nat): nat {
    NearestFrom(f, num, d, Floor(f, num, d))
  }

  function NearestFrom(f: Format, num: nat, d: nat, n: nat): nat {
    var mid := Shl(f.Value(n) + f.Value(n + 1), d);
    if n == f.Inf() || 2 * num < mid || (2 * num == mid && n % 2 == 0) then n else n + 1
  }

  /** Round to odd. */
  function ToOdd(f: Format, num: nat, d: nat): nat {
    ToOddFrom(f, num, d, Floor(f, num, d))
  }

  function ToOddFrom(f: Format, num: nat, d: nat, n: nat): nat {
    if n == f.Inf() && n > 0 then n - 1
    else if Shl(f.Value(n), d) == num || n % 2 == 1 then n
    else n + 1
  }

  function Distance(f: Format, num: nat, d: nat, n: nat): nat {
    var v := Shl(f.Value(n), d);
    if v <= num then num - v else v - num
  }

  /** No encoding is nearer to num / 2^d, and r is even if another is as near. */
  ghost predicate IsNearestEven(f: Format, num: nat, d: nat, r: nat) {
    && r <= f.Inf()
    && forall n: nat :: n <= f.Inf() && n != r ==>
         && Distance(f, num, d, r) <= Distance(f, num, d, n)
         && (Distance(f, num, d, r) == Distance(f, num, d, n) ==> r % 2 == 0)
  }

  /** r is exact, or it is the odd one of the two encodings around num / 2^d,
      or the largest finite encoding when num / 2^d lies beyond that. */
  ghost predicate IsRoundedToOdd(f: Format, num: nat, d: nat, r: nat) {
    && r < f.Inf()
    && (|| Shl(f.Value(r), d) == num
        || (&& r % 2 == 1
            && Shl(f.Value(r - 1), d) < num
            && Shl(f.Value(r), d) != num
            && (num < Shl(f.Value(r + 1), d) || r + 1 == f.Inf())))
  }

  // ---- The value function ----

  lemma InfIsEven(f: Format)
    requires f.Valid()
    ensures f.Inf() % 2 == 0 && f.Inf() >= 2
  {
    ShlLess(1, Pow2(f.ebits) - 1, f.mbits);
    ShlOfOne(f.mbits);
  }

  lemma {:induction false} ValueStep(f: Format, n: nat)
    requires f.mbits >= 1
    ensures f.Value(n + 1) == f.Value(n) + f.Ulp(n)
  {
    var e, m := Shr(n, f.mbits), Low(n, f.mbits);
    Split(n, f.mbits);
    if m + 1 < Pow2(f.mbits) {
      SplitUnique(n + 1, f.mbits, e, m + 1);
      if e > 0 {
        ShlAdd(Pow2(f.mbits) + m, 1, e - 1);
        ShlOfOne(e - 1);
      }
    } else {
      MulDist(e, 1, Pow2(f.mbits));
      SplitUnique(n + 1, f.mbits, e + 1, 0);
      if e > 0 {
        ShlAdd(Pow2(f.mbits) + m, 1, e - 1);
        ShlOfOne(e - 1);
        ShlShl(Pow2(f.mbits), 1, e - 1);
        assert Shl(Pow2(f.mbits), 1) == Pow2(f.mbits) + m + 1;
      }
    }
  }

  lemma {:induction false} ValueMonotone(f: Format, a: nat, b: nat)
    requires f.mbits >= 1 && a < b
    ensures f.Value(a) < f.Value(b)
    decreases b
  {
    ValueStep(f, b - 1);
    if a < b - 1 {
      ValueMonotone(f, a, b - 1);
    }
  }

  lemma ScaledMonotone(f: Format, d: nat, a: nat, b: nat)
    requires f.mbits >= 1 && a <= b
    ensures Shl(f.Value(a), d) <= Shl(f.Value(b), d)
    ensures a < b ==> Shl(f.Value(a), d) < Shl(f.Value(b), d)
  {
    if a < b {
      ValueMonotone(f, a, b);
      ShlLess(f.Value(a), f.Value(b), d);
    }
  }

  lemma ValueOfZero(f: Format)
    ensures f.Value(0) == 0
  {
    SplitUnique(0, f.mbits, 0, 0);
  }

  lemma EncodingBelowInf(f: Format, e: nat, m: nat)
    requires f.Valid() && e < Pow2(f.ebits) - 1 && m < Pow2(f.mbits)
    ensures Shl(e, f.mbits) + m < f.Inf()
  {
    hide Pow2, Shl;
    ShlAdd(e, 1, f.mbits);
    ShlOfOne(f.mbits);
    ShlLess(e + 1, Pow2(f.ebits) - 1, f.mbits);
    ShlLess(Pow2(f.ebits) - 1, e + 1, f.mbits);
  }

  lemma ValueOfInf(f: Format)
    requires f.Valid()
    ensures Pow2(f.ebits) >= 4
    ensures f.Value(f.Inf()) == Shl(1, f.mbits + (Pow2(f.ebits) - 2))
    ensures Shr(f.Inf(), f.mbits) == Pow2(f.ebits) - 1
  {
    hide Pow2, Shl, Shr, Low;
    var e := Pow2(f.ebits) - 1;
    Pow2Grows(1, f.ebits);
    Pow2Step(1);
    ShlOfOne(1);
    ShlIsMul(e, f.mbits);
    SplitUnique(f.Inf(), f.mbits, e, 0);
    ShlOfOne(f.mbits);
    ShlOfOne(0);
    ShlShl(1, f.mbits, e - 1);
  }

  lemma EncodingFields(f: Format, e: nat, frac: nat)
    requires f.Valid() && e >= 1 && frac < Pow2(f.mbits)
    ensures var n := Shl(e, f.mbits) + frac;
            && f.Value(n) == Shl(Pow2(f.mbits) + frac, e - 1) && f.Ulp(n) == Pow2(e - 1)
            && n % 2 == frac % 2 == (Pow2(f.mbits) + frac) % 2
  {
    hide Shl, Shr, Low, Pow2, Format.Value, Format.Ulp, Format.Inf;
    var n := Shl(e, f.mbits) + frac;
    EncodingParity(f, e, frac);
    ShlIsMul(e, f.mbits);
    SplitUnique(n, f.mbits, e, frac);
    ValueOfFields(f, n, e, frac);
  }

  lemma EncodingParity(f: Format, e: nat, frac: nat)
    requires f.Valid()
    ensures (Shl(e, f.mbits) + frac) % 2 == frac % 2 == (Pow2(f.mbits) + frac) % 2
  {
    hide Shl, Pow2;
    ShlEven(e, f.mbits);
    Pow2Step(f.mbits);
  }

  lemma ValueOfFields(f: Format, n: nat, e: nat, frac: nat)
    requires Shr(n, f.mbits) == e && Low(n, f.mbits) == frac && e >= 1
    ensures f.Value(n) == Shl(Pow2(f.mbits) + frac, e - 1) && f.Ulp(n) == Pow2(e - 1)
  {
  }

  // ---- Floor ----

  predicate IsFloor(f: Format, num: nat, d: nat, n: nat) {
    && n <= f.Inf()
    && Shl(f.Value(n), d) <= num
    && (n < f.Inf() ==> num < Shl(f.Value(n + 1), d))
  }

  lemma {:induction false} FloorFromIsFloor(f: Format, num: nat, d: nat, n: nat)
    requires f.Valid() && n <= f.Inf()
    requires n < f.Inf() ==> num < Shl(f.Value(n + 1), d)
    ensures IsFloor(f, num, d, FloorFrom(f, num, d, n))
  {
    if n == 0 {
      ValueOfZero(f);
      ShlOfOne(d);
    } else if num < Shl(f.Value(n), d) {
      FloorFromIsFloor(f, num, d, n - 1);
    }
  }

  lemma FloorIs(f: Format, num: nat, d: nat, n: nat)
    requires f.Valid()
    ensures n == Floor(f, num, d) <==> IsFloor(f, num, d, n)
  {
    var m := Floor(f, num, d);
    FloorFromIsFloor(f, num, d, f.Inf());
    if IsFloor(f, num, d, n) {
      if m < n {
        ScaledMonotone(f, d, m + 1, n);
      } else if n < m {
        ScaledMonotone(f, d, n + 1, m);
      }
    }
  }

  // ---- Rounding to nearest ----

  /** Distances grow away from the two encodings around the number. */
  lemma DistanceGrows(f: Format, num: nat, d: nat, n: nat)
    requires f.Valid() && n <= f.Inf()
    ensures var m := Floor(f, num, d);
            && (n < m ==> Distance(f, num, d, m) < Distance(f, num, d, n))
            && (m + 1 < n ==> Distance(f, num, d, m + 1) < Distance(f, num, d, n))
  {
    var m := Floor(f, num, d);
    FloorIs(f, num, d, m);
    if n < m {
      ScaledMonotone(f, d, n, m);
    } else if m + 1 < n {
      ScaledMonotone(f, d, m + 1, n);
    }
  }

  /** `Nearest` is rounding to nearest, ties to even (section 4.3.1 of
      IEEE 754-2019), and nothing else is. */
  lemma NearestIsNearestEven(f: Format, num: nat, d: nat, r: nat)
    requires f.Valid()
    ensures r == Nearest(f, num, d) <==> IsNearestEven(f, num, d, r)
  {
    var m := Floor(f, num, d);
    var best := Nearest(f, num, d);
    hide Shl, Format.Value, Format.Inf, FloorFrom;
    FloorIs(f, num, d, m);
    ShlAdd(f.Value(m), f.Value(m + 1), d);
    InfIsEven(f);
    forall n: nat | n <= f.Inf() && n != best
      ensures Distance(f, num, d, best) <= Distance(f, num, d, n)
      ensures Distance(f, num, d, best) == Distance(f, num, d, n) ==>
                best % 2 == 0 && (n == best + 1 || n + 1 == best)
    {
      DistanceGrows(f, num, d, n);
    }
    if IsNearestEven(f, num, d, r) {
      assert best != r ==> Distance(f, num, d, r) <= Distance(f, num, d, best);
    }
  }

  /** Infinity is the result exactly from halfway between the largest finite
      value and the start of the next binade. */
  lemma NearestOverflows(f: Format, num: nat, d: nat, top: nat)
    requires f.Valid() && top + 1 == f.Inf()
    ensures Nearest(f, num, d) <= f.Inf()
    ensures Nearest(f, num, d) == f.Inf() <==> Shl(f.Value(top) + f.Value(f.Inf()), d) <= 2 * num
  {
    hide Shl, FloorFrom, Format.Value, Format.Inf;
    var m := Floor(f, num, d);
    InfIsEven(f);
    FloorIs(f, num, d, m);
    ShlAdd(f.Value(top), f.Value(top + 1), d);
    ScaledMonotone(f, d, top, top + 1);
    if m < top {
      ScaledMonotone(f, d, m + 1, top);
    }
  }

  lemma FloorMonotone(f: Format, num: nat, num': nat, d: nat)
    requires f.Valid() && num <= num'
    ensures Floor(f, num, d) <= Floor(f, num', d)
  {
    var m, m' := Floor(f, num, d), Floor(f, num', d);
    FloorIs(f, num, d, m);
    FloorIs(f, num', d, m');
    if m' < m {
      ScaledMonotone(f, d, m' + 1, m);
    }
  }

  /** Both roundings are monotone in the exact magnitude. */
  lemma RoundingMonotone(f: Format, num: nat, num': nat, d: nat)
    requires f.Valid() && num <= num'
    ensures Nearest(f, num, d) <= Nearest(f, num', d)
    ensures ToOdd(f, num, d) <= ToOdd(f, num', d)
  {
    hide Shl, FloorFrom, Format.Value, Format.Inf;
    FloorMonotone(f, num, num', d);
    FloorIs(f, num, d, Floor(f, num, d));
    FloorIs(f, num', d, Floor(f, num', d));
    InfIsEven(f);
  }

  // ---- Rounding to odd ----

  lemma ToOddSatisfies(f: Format, num: nat, d: nat, m: nat)
    requires f.Valid() && IsFloor(f, num, d, m)
    ensures IsRoundedToOdd(f, num, d, ToOddFrom(f, num, d, m))
  {
    hide Shl, FloorFrom, Format.Value, Format.Inf;
    InfIsEven(f);
    if m == f.Inf() {
      ScaledMonotone(f, d, m - 2, m);
      ScaledMonotone(f, d, m - 1, m);
    } else {
      ScaledMonotone(f, d, m + 1, m + 2);
      if m > 0 {
        ScaledMonotone(f, d, m - 1, m);
      }
    }
  }

  /** `ToOdd` is von Neumann rounding: exact, or the odd neighbour, never
      infinity. */
  lemma ToOddIsRoundedToOdd(f: Format, num: nat, d: nat, r: nat)
    requires f.Valid()
    ensures r == ToOdd(f, num, d) <==> IsRoundedToOdd(f, num, d, r)
  {
    FloorIs(f, num, d, Floor(f, num, d));
    ToOddSatisfies(f, num, d, Floor(f, num, d));
    if IsRoundedToOdd(f, num, d, r) {
      InfIsEven(f);
      if Shl(f.Value(r), d) == num {
        ScaledMonotone(f, d, r, r + 1);
        FloorIs(f, num, d, r);
      } else if r + 1 == f.Inf() {
        OddAtTop(f, num, d, r);
      } else {
        ScaledMonotone(f, d, r - 1, r);
        FloorIs(f, num, d, if Shl(f.Value(r), d) < num then r else r - 1);
      }
    }
  }

  lemma OddAtTop(f: Format, num: nat, d: nat, r: nat)
    requires f.Valid() && r + 1 == f.Inf()
    requires Shl(f.Value(r - 1), d) < num && Shl(f.Value(r), d) != num
    ensures ToOdd(f, num, d) == r
  {
    hide Shl, Format.Value, Format.Inf, FloorFrom;
    InfIsEven(f);
    var v := Shl(f.Value(r), d);
    if num < v {
      FloorIs(f, num, d, r - 1);
    } else if num < Shl(f.Value(r + 1), d) {
      FloorIs(f, num, d, r);
    } else {
      FloorIs(f, num, d, r + 1);
    }
  }

  /** Rounding to odd keeps nonzero numbers nonzero and finite. */
  lemma ToOddStaysNonzero(f: Format, num: nat, d: nat)
    requires f.Valid() && num > 0
    ensures 0 < ToOdd(f, num, d) < f.Inf()
  {
    ToOddIsRoundedToOdd(f, num, d, ToOdd(f, num, d));
    ValueOfZero(f);
    ShlOfOne(d);
  }

  // ---- Scaling ----

  /** Only the quotient num / 2^d matters. */
  lemma FloorScales(f: Format, num: nat, d: nat, c: nat)
    requires f.Valid()
    ensures Floor(f, Shl(num, c), d + c) == Floor(f, num, d)
  {
    hide Shl, FloorFrom, Format.Value, Format.Inf;
    var m := Floor(f, num, d);
    FloorIs(f, num, d, m);
    ScaledCompare(f.Value(m), num, d, c);
    ScaledCompare(f.Value(m + 1), num, d, c);
    FloorIs(f, Shl(num, c), d + c, m);
  }

  lemma RoundingScales(f: Format, num: nat, d: nat, c: nat)
    requires f.Valid()
    ensures Nearest(f, Shl(num, c), d + c) == Nearest(f, num, d)
    ensures ToOdd(f, Shl(num, c), d + c) == ToOdd(f, num, d)
  {
    FloorScales(f, num, d, c);
    RoundingFromScales(f, num, d, c, Floor(f, num, d));
  }

  lemma RoundingFromScales(f: Format, num: nat, d: nat, c: nat, n: nat)
    ensures NearestFrom(f, Shl(num, c), d + c, n) == NearestFrom(f, num, d, n)
    ensures ToOddFrom(f, Shl(num, c), d + c, n) == ToOddFrom(f, num, d, n)
  {
    hide Shl, Format.Value, Format.Inf;
    ScaledCompare(f.Value(n), num, d, c);
    ScaledCompare(f.Value(n) + f.Value(n + 1), 2 * num, d, c);
    ShlAdd(num, num, c);
    assert num + num == 2 * num;
  }

  lemma ScaledCompare(v: nat, num: nat, d: nat, c: nat)
    ensures Shl(num, c) < Shl(v, d + c) <==> num < Shl(v, d)
    ensures Shl(num, c) == Shl(v, d + c) <==> num == Shl(v, d)
  {
    ShlShl(v, d, c);
    ShlLess(num, Shl(v, d), c);
  }

  /** A number that has an encoding rounds to it. */
  lemma RoundingExact(f: Format, n: nat, d: nat)
    requires f.Valid() && n < f.Inf()
    ensures Nearest(f, Shl(f.Value(n), d), d) == n
    ensures ToOdd(f, Shl(f.Value(n), d), d) == n
  {
    hide Shl, FloorFrom, Format.Value, Format.Inf;
    ScaledMonotone(f, d, n, n + 1);
    FloorIs(f, Shl(f.Value(n), d), d, n);
    ShlAdd(f.Value(n), f.Value(n + 1), d);
  }
}
