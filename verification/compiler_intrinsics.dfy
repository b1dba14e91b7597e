/** The portable bit-counting routines: each is a fixed ladder of masks and
    shifts on a 64-bit word. */
module CompilerIntrinsics {
  import opened Bits

  predicate IsWidth(width: nat) {
    width in {1, 2, 4, 8, 16, 32, 64}
  }

  // ---- Leading zeros ----

  /** Testing the top s bits of a word. */
  lemma TopBitsClear(v: nat, s: nat)
    requires v < Pow2(64) && 1 <= s <= 63
    ensures Pow2(64) > Pow2(64 - s)
    ensures And(v, Pow2(64) - Pow2(64 - s)) == 0 <==> v < Pow2(64 - s)
  {
    hide *;
    var k := 64 - s;
    Pow2Grows(k, 64);
    var mask := Pow2(64) - Pow2(k);
    Pow2Add(s, k);
    MulDist(Pow2(s) - 1, 1, Pow2(k));
    SplitUnique(mask, k, Pow2(s) - 1, 0);
    AndSplit(v, mask, k);
    AndMask(Shr(v, k), s);
    AndZero(Low(v, k));
    Split(v, k);
    ShiftedBound(v, s, k);
    LowOfSmall(Shr(v, k), s);
    Split(And(v, mask), k);
    if Shr(v, k) > 0 {
      MulAtLeast(Shr(v, k), Pow2(k));
    }
  }

  lemma ShiftedBound(v: nat, s: nat, k: nat)
    requires v < Pow2(s + k)
    ensures Shr(v, k) < Pow2(s)
  {
    Split(v, k);
    Pow2Add(s, k);
    if Shr(v, k) >= Pow2(s) {
      MulMono(Pow2(s), Shr(v, k), Pow2(k));
    }
  }

  function LeadingZeros64(v: nat): int {
    if v == 0 then 64 else 63 - HighBit(v)
  }

  /** One rung of the leading-zero ladder. */
  lemma LeadingRung(v: nat, s: nat)
    requires v < Pow2(64) && 1 <= s <= 63
    ensures Pow2(64) > Pow2(64 - s)
    ensures And(v, Pow2(64) - Pow2(64 - s)) == 0 <==> s <= LeadingZeros64(v)
    ensures Low(Shl(v, s), 64) < Pow2(64)
    ensures 0 <= LeadingZeros64(v) <= 64 && (v == 0 <==> LeadingZeros64(v) == 64)
    ensures s <= LeadingZeros64(v) ==>
              LeadingZeros64(Low(Shl(v, s), 64)) == if v == 0 then 64 else LeadingZeros64(v) - s
  {
    hide Shl, Low, And, Pow2, HighBit;
    TopBitsClear(v, s);
    Split(Shl(v, s), 64);
    if v != 0 {
      HighBitBelow(v, 64);
    }
    if v == 0 {
      ShlOfOne(s);
      LowOfSmall(0, 64);
    } else {
      HighBitVersus(v, 64 - s);
      if v < Pow2(64 - s) {
        ShlHighBit(v, s);
        ShiftFits(v, 64 - s, s);
        LowOfSmall(Shl(v, s), 64);
      }
    }
  }

  lemma ShiftFits(v: nat, k: nat, s: nat)
    requires v < Pow2(k)
    ensures Shl(v, s) < Pow2(k + s)
  {
    ShlIsMul(Pow2(k), s);
    Pow2Add(k, s);
    ShlLess(v, Pow2(k), s);
  }

  /** The narrow value, moved to the top of the word. */
  lemma MoveToTop(value: nat, width: nat)
    requires width <= 64
    ensures Low(Shl(value, 64 - width), 64) == Shl(Low(value, width), 64 - width) < Pow2(64)
  {
    hide *;
    var s := 64 - width;
    Split(value, width);
    ShlIsMul(value, s);
    ShlIsMul(Low(value, width), s);
    ShlIsMul(Pow2(width), s);
    Pow2Add(width, s);
    ShlLess(Low(value, width), Pow2(width), s);
    MulDist(Shr(value, width) * Pow2(width), Low(value, width), Pow2(s));
    MulAssoc(Shr(value, width), Pow2(width), Pow2(s));
    SplitUnique(Shl(value, s), 64, Shr(value, width), Shl(Low(value, width), s));
  }

  /** Counts the zeros above the highest set bit of the low `width` bits. A
      nonzero value with no set bit among those is counted as 64 zeros. */
  method CountLeadingZerosFallBack(value: nat, width: nat) returns (count: nat)
    requires value < Pow2(64) && IsWidth(width)
    ensures value == 0 ==> count == width
    ensures value != 0 && Low(value, width) == 0 ==> count == 64
    ensures Low(value, width) != 0 ==> count + HighBit(Low(value, width)) == width - 1
  {
    hide *;
    Pow2Values();
    LeadingZerosMoved(value, width);
    if value == 0 {
      return width;
    }
    count := 0;
    var v := Low(Shl(value, 64 - width), 64);
    ghost var zeros := LeadingZeros64(v);
    LeadingRung(v, 32);
    if And(v, 0xffff_ffff_0000_0000) == 0 {
      count, v := count + 32, Low(Shl(v, 32), 64);
    }
    assert if zeros == 64 then LeadingZeros64(v) == 64 && count == 32
           else count + LeadingZeros64(v) == zeros && LeadingZeros64(v) < 32;
    LeadingRung(v, 16);
    if And(v, 0xffff_0000_0000_0000) == 0 {
      count, v := count + 16, Low(Shl(v, 16), 64);
    }
    assert if zeros == 64 then LeadingZeros64(v) == 64 && count == 48
           else count + LeadingZeros64(v) == zeros && LeadingZeros64(v) < 16;
    LeadingRung(v, 8);
    if And(v, 0xff00_0000_0000_0000) == 0 {
      count, v := count + 8, Low(Shl(v, 8), 64);
    }
    assert if zeros == 64 then LeadingZeros64(v) == 64 && count == 56
           else count + LeadingZeros64(v) == zeros && LeadingZeros64(v) < 8;
    LeadingRung(v, 4);
    if And(v, 0xf000_0000_0000_0000) == 0 {
      count, v := count + 4, Low(Shl(v, 4), 64);
    }
    assert if zeros == 64 then LeadingZeros64(v) == 64 && count == 60
           else count + LeadingZeros64(v) == zeros && LeadingZeros64(v) < 4;
    LeadingRung(v, 2);
    if And(v, 0xc000_0000_0000_0000) == 0 {
      count, v := count + 2, Low(Shl(v, 2), 64);
    }
    assert if zeros == 64 then LeadingZeros64(v) == 64 && count == 62
           else count + LeadingZeros64(v) == zeros && LeadingZeros64(v) < 2;
    LeadingRung(v, 1);
    if And(v, 0x8000_0000_0000_0000) == 0 {
      count := count + 1;
    }
    count := count + (if v == 0 then 1 else 0);
  }

  lemma LeadingZerosMoved(value: nat, width: nat)
    requires IsWidth(width)
    ensures 1 <= width <= 64
    ensures var v, low := Low(Shl(value, 64 - width), 64), Low(value, width);
            && v < Pow2(64)
            && (value == 0 ==> low == 0)
            && (low == 0 ==> LeadingZeros64(v) == 64)
            && (low != 0 ==> 0 <= LeadingZeros64(v) == width - 1 - HighBit(low) < 64)
  {
    hide Shl, Low, Pow2, HighBit;
    var low := Low(value, width);
    MoveToTop(value, width);
    if value == 0 {
      LowOfSmall(0, width);
    }
    if low == 0 {
      ShlOfOne(64 - width);
    } else {
      ShlHighBit(low, 64 - width);
      Split(value, width);
      HighBitBelow(low, width);
    }
  }

  // ---- Leading sign bits ----

  predicate FitsSigned(value: int, bits: nat)
    requires bits > 0
  {
    -(Pow2(bits - 1) as int) <= value < Pow2(bits - 1)
  }

  /** `width - count` bits are the fewest that hold the value as a signed word. */
  method CountLeadingSignBitsFallBack(value: int, width: nat) returns (count: int)
    requires IsWidth(width) && FitsSigned(value, width)
    ensures 0 <= count < width
    ensures forall bits :: 1 <= bits <= width ==> (FitsSigned(value, bits) <==> width - count <= bits)
  {
    hide Pow2, HighBit, Low, FitsSigned;
    Pow2Values();
    var magnitude := if value >= 0 then value else -value - 1;
    FitsSignedMagnitude(value, width);
    Pow2Grows(width - 1, width);
    if width < 64 { Pow2Grows(width, 64); }
    LowOfSmall(magnitude, width);
    if magnitude != 0 {
      HighBitBelow(magnitude, width - 1);
    }
    var zeros := CountLeadingZerosFallBack(magnitude, width);
    count := zeros - 1;
    forall bits | 1 <= bits <= width
      ensures FitsSigned(value, bits) <==> width - count <= bits
    {
      FitsSignedMagnitude(value, bits);
      if magnitude != 0 {
        HighBitVersus(magnitude, bits - 1);
      }
    }
  }

  lemma FitsSignedMagnitude(value: int, bits: nat)
    requires bits > 0
    ensures FitsSigned(value, bits) <==> (if value >= 0 then value else -value - 1) < Pow2(bits - 1)
  {
  }

  // ---- Trailing zeros ----

  lemma {:induction false} LowBitOfShl(v: nat, s: nat)
    requires v > 0
    ensures Shl(v, s) > 0 && LowBit(Shl(v, s)) == LowBit(v) + s
    decreases s
  {
    if s > 0 {
      LowBitOfShl(v, s - 1);
    }
  }

  function TrailingZeros64(v: nat): int {
    if v == 0 then 64 else LowBit(v)
  }

  lemma {:induction false} LowBitVersus(v: nat, s: nat)
    requires v > 0
    ensures Low(v, s) == 0 <==> s <= LowBit(v)
    ensures s <= LowBit(v) ==> Shr(v, s) > 0 && LowBit(Shr(v, s)) == LowBit(v) - s
    decreases s
  {
    if s > 0 && v % 2 == 0 {
      LowBitVersus(v / 2, s - 1);
    }
  }

  /** One rung of the trailing-zero ladder. */
  lemma TrailingRung(v: nat, s: nat)
    requires v < Pow2(64) && 1 <= s <= 63
    ensures And(v, Pow2(s) - 1) == 0 <==> s <= TrailingZeros64(v)
    ensures Shr(v, s) < Pow2(64)
    ensures 0 <= TrailingZeros64(v) <= 64 && (v == 0 <==> TrailingZeros64(v) == 64)
    ensures s <= TrailingZeros64(v) ==>
              TrailingZeros64(Shr(v, s)) == if v == 0 then 64 else TrailingZeros64(v) - s
  {
    AndMask(v, s);
    if v == 0 {
      LowOfSmall(0, s);
    } else {
      LowBitBelow(v, 64);
      LowBitVersus(v, s);
      ShrShrinks(v, s);
    }
  }

  lemma TrailingZerosMoved(value: nat, width: nat)
    requires IsWidth(width)
    ensures 1 <= width <= 64
    ensures var v, low := Low(Shl(value, 64 - width), 64), Low(value, width);
            && v < Pow2(64)
            && (low == 0 ==> TrailingZeros64(v) == 64)
            && (low != 0 ==> TrailingZeros64(v) == LowBit(low) + 64 - width < 64)
  {
    hide Shl, Low, Pow2, LowBit;
    var low := Low(value, width);
    MoveToTop(value, width);
    if low == 0 {
      ShlOfOne(64 - width);
    } else {
      LowBitOfShl(low, 64 - width);
      Split(value, width);
      LowBitBelow(low, width);
    }
  }

  /** The position of the lowest set bit of the low `width` bits, or `width`. */
  method CountTrailingZerosFallBack(value: nat, width: nat) returns (count: int)
    requires value < Pow2(64) && IsWidth(width)
    ensures Low(value, width) == 0 ==> count == width
    ensures Low(value, width) != 0 ==> count == LowBit(Low(value, width)) < width
  {
    hide *;
    Pow2Values();
    TrailingZerosMoved(value, width);
    count := 0;
    var v := Low(Shl(value, 64 - width), 64);
    ghost var zeros := TrailingZeros64(v);
    TrailingRung(v, 32);
    if And(v, 0xffff_ffff) == 0 {
      count, v := count + 32, Shr(v, 32);
    }
    assert if zeros == 64 then TrailingZeros64(v) == 64 && count == 32
           else count + TrailingZeros64(v) == zeros && TrailingZeros64(v) < 32;
    TrailingRung(v, 16);
    if And(v, 0xffff) == 0 {
      count, v := count + 16, Shr(v, 16);
    }
    assert if zeros == 64 then TrailingZeros64(v) == 64 && count == 48
           else count + TrailingZeros64(v) == zeros && TrailingZeros64(v) < 16;
    TrailingRung(v, 8);
    if And(v, 0xff) == 0 {
      count, v := count + 8, Shr(v, 8);
    }
    assert if zeros == 64 then TrailingZeros64(v) == 64 && count == 56
           else count + TrailingZeros64(v) == zeros && TrailingZeros64(v) < 8;
    TrailingRung(v, 4);
    if And(v, 0xf) == 0 {
      count, v := count + 4, Shr(v, 4);
    }
    assert if zeros == 64 then TrailingZeros64(v) == 64 && count == 60
           else count + TrailingZeros64(v) == zeros && TrailingZeros64(v) < 4;
    TrailingRung(v, 2);
    if And(v, 0x3) == 0 {
      count, v := count + 2, Shr(v, 2);
    }
    assert if zeros == 64 then TrailingZeros64(v) == 64 && count == 62
           else count + TrailingZeros64(v) == zeros && TrailingZeros64(v) < 2;
    TrailingRung(v, 1);
    if And(v, 0x1) == 0 {
      count := count + 1;
    }
    count := count + (if v == 0 then 1 else 0);
    count := count - (64 - width);
  }

  lemma {:induction false} LowBitBelow(n: nat, k: nat)
    requires 0 < n < Pow2(k)
    ensures LowBit(n) < k
  {
    if n % 2 == 0 {
      LowBitBelow(n / 2, k - 1);
    }
  }

  // ---- Set bits ----

  function PopCount(n: nat): nat {
    if n == 0 then 0 else n % 2 + PopCount(n / 2)
  }

  lemma ShrShrinks(n: nat, s: nat)
    requires n > 0 && s > 0
    ensures Shr(n, s) < n
  {
    Split(n, s);
    if Shr(n, s) > 0 {
      MulMono(2, Pow2(s), Shr(n, s));
    }
  }

  /** The sum of the s-bit fields of a word. */
  function FieldSum(n: nat, s: nat): nat
    requires s > 0
    decreases n
  {
    if n == 0 then 0
    else
      ShrShrinks(n, s);
      Low(n, s) + FieldSum(Shr(n, s), s)
  }

  /** n fields of 2s bits, the low half of each filled with ones. */
  function AlternateMask(s: nat, n: nat): nat {
    if n == 0 then 0 else Shl(AlternateMask(s, n - 1), 2 * s) + (Pow2(s) - 1)
  }

  function AddHalves(v: nat, s: nat, mask: nat): nat {
    And(Shr(v, s), mask) + And(v, mask)
  }

  lemma FieldSumStep(n: nat, s: nat)
    requires s > 0
    ensures FieldSum(n, s) == Low(n, s) + FieldSum(Shr(n, s), s)
  {
    if n == 0 {
      LowOfSmall(0, s);
    }
  }

  lemma {:induction false} ShrShr(n: nat, i: nat, k: nat)
    ensures Shr(Shr(n, i), k) == Shr(n, i + k)
    decreases i
  {
    if i > 0 {
      ShrShr(n / 2, i - 1, k);
    }
  }

  lemma {:induction false} LowLow(n: nat, i: nat, k: nat)
    requires i <= k
    ensures Low(Low(n, k), i) == Low(n, i)
    decreases i
  {
    if i > 0 {
      LowLow(n / 2, i - 1, k - 1);
    }
  }

  /** How one round acts on the lowest field. */
  lemma AddHalvesField(v: nat, s: nat, n: nat)
    requires s > 0 && n > 0
    ensures var w := AddHalves(v, s, AlternateMask(s, n));
            && Low(w, 2 * s) == Low(Shr(v, s), s) + Low(v, s)
            && Shr(w, 2 * s) == AddHalves(Shr(v, 2 * s), s, AlternateMask(s, n - 1))
  {
    hide *;
    var mask, rest := AlternateMask(s, n), AlternateMask(s, n - 1);
    MaskFields(s, n);
    AddHalvesIs(v, s, mask);
    AddHalvesIs(Shr(v, 2 * s), s, rest);
    MaskedField(v, s, mask, rest);
    MaskedField(Shr(v, s), s, mask, rest);
    ShrShr(v, s, 2 * s);
    ShrShr(v, 2 * s, s);
    Split(v, s);
    Split(Shr(v, s), s);
    AddWithoutCarry(And(Shr(v, s), mask), And(v, mask), 2 * s);
  }

  lemma AddWithoutCarry(a: nat, b: nat, k: nat)
    requires Low(a, k) + Low(b, k) < Pow2(k)
    ensures Low(a + b, k) == Low(a, k) + Low(b, k) && Shr(a + b, k) == Shr(a, k) + Shr(b, k)
  {
    Split(a, k);
    Split(b, k);
    MulDist(Shr(a, k), Shr(b, k), Pow2(k));
    SplitUnique(a + b, k, Shr(a, k) + Shr(b, k), Low(a, k) + Low(b, k));
  }

  lemma MaskFields(s: nat, n: nat)
    requires n > 0
    ensures Shr(AlternateMask(s, n), 2 * s) == AlternateMask(s, n - 1)
    ensures Low(AlternateMask(s, n), 2 * s) == Pow2(s) - 1
    ensures s > 0 ==> 2 * Pow2(s) <= Pow2(2 * s)
  {
    hide Shl, Shr, Low, Pow2;
    if s > 0 {
      Pow2Grows(s, 2 * s);
    }
    ShlIsMul(AlternateMask(s, n - 1), 2 * s);
    SplitUnique(AlternateMask(s, n), 2 * s, AlternateMask(s, n - 1), Pow2(s) - 1);
  }

  lemma AddHalvesIs(v: nat, s: nat, mask: nat)
    ensures AddHalves(v, s, mask) == And(Shr(v, s), mask) + And(v, mask)
  {
  }

  lemma MaskedField(v: nat, s: nat, mask: nat, rest: nat)
    requires Shr(mask, 2 * s) == rest && Low(mask, 2 * s) == Pow2(s) - 1
    ensures Low(And(v, mask), 2 * s) == Low(v, s)
    ensures Shr(And(v, mask), 2 * s) == And(Shr(v, 2 * s), rest)
  {
    AndSplit(v, mask, 2 * s);
    AndMask(Low(v, 2 * s), s);
    LowLow(v, s, 2 * s);
  }

  /** One round of the ladder adds neighbouring fields and loses nothing. */
  lemma {:induction false} RoundKeepsSum(v: nat, s: nat, n: nat, width: nat)
    requires s > 0 && width == 2 * s * n && v < Pow2(width)
    ensures FieldSum(AddHalves(v, s, AlternateMask(s, n)), 2 * s) == FieldSum(v, s)
    ensures AddHalves(v, s, AlternateMask(s, n)) < Pow2(width)
    decreases n
  {
    var w := AddHalves(v, s, AlternateMask(s, n));
    if n == 0 {
      assert width == 0;
    } else {
      MulDist(n - 1, 1, 2 * s);
      var width' := width - 2 * s;
      assert width' == 2 * s * (n - 1);
      MulAtLeast(n, 2 * s);
      ShiftedBound(v, width', 2 * s);
      hide AddHalves, AlternateMask, FieldSum, Pow2, Low, Shr;
      RoundKeepsSum(Shr(v, 2 * s), s, n - 1, width');
      AddHalvesField(v, s, n);
      FieldSumStep(w, 2 * s);
      FieldSumStep(v, s);
      FieldSumStep(Shr(v, s), s);
      ShrShr(v, s, s);
      Split(w, 2 * s);
      UnshiftedBound(w, width', 2 * s);
    }
  }

  lemma UnshiftedBound(w: nat, a: nat, k: nat)
    requires Shr(w, k) < Pow2(a)
    ensures w < Pow2(a + k)
  {
    Split(w, k);
    Pow2Add(a, k);
    MulMono(Shr(w, k) + 1, Pow2(a), Pow2(k));
    MulDist(Shr(w, k), 1, Pow2(k));
  }

  lemma {:induction false} AlternateMaskClosed(s: nat, n: nat, width: nat)
    requires width == 2 * s * n
    ensures AlternateMask(s, n) * (Pow2(s) + 1) == Pow2(width) - 1
    decreases n
  {
    if n == 0 {
      assert width == 0;
    } else {
      MulDist(n - 1, 1, 2 * s);
      var width' := width - 2 * s;
      assert width' == 2 * s * (n - 1);
      MulAtLeast(n, 2 * s);
      AlternateMaskClosed(s, n - 1, width');
      var rest, p := AlternateMask(s, n - 1), Pow2(s);
      ShlIsMul(rest, 2 * s);
      Pow2Add(s, s);
      Pow2Add(width', 2 * s);
      ClosedStep(rest, p, Pow2(width'));
    }
  }

  lemma ClosedStep(rest: nat, p: nat, q: nat)
    requires rest * (p + 1) == q - 1
    ensures (rest * (p * p) + (p - 1)) * (p + 1) == q * (p * p) - 1
  {
    var pp := p * p;
    MulDist(rest * pp, p - 1, p + 1);
    MulAssoc(rest, pp, p + 1);
    assert rest * (pp * (p + 1)) == rest * (p + 1) * pp by {
      MulAssoc(rest, p + 1, pp);
      assert pp * (p + 1) == (p + 1) * pp;
    }
    MulDist(q, -1, pp);
    MulDist(p, -1, p + 1);
    assert p * (p + 1) == pp + p;
  }

  lemma {:induction false} FieldSumOfBits(n: nat)
    ensures FieldSum(n, 1) == PopCount(n)
  {
    if n > 0 {
      assert Low(n, 1) == n % 2 by { assert Low(n / 2, 0) == 0; }
      assert Shr(n, 1) == n / 2;
      FieldSumOfBits(n / 2);
    }
  }

  const POPCOUNT_MASKS: seq<nat> := [
    0x5555_5555_5555_5555,
    0x3333_3333_3333_3333,
    0x0f0f_0f0f_0f0f_0f0f,
    0x00ff_00ff_00ff_00ff,
    0x0000_ffff_0000_ffff,
    0x0000_0000_ffff_ffff
  ]

  lemma MasksAlternate(i: nat)
    requires i < 6
    ensures POPCOUNT_MASKS[i] == AlternateMask(Pow2(i), Pow2(5 - i))
    ensures 2 * Pow2(i) * Pow2(5 - i) == 64
  {
    Pow2Values();
    Pow2OfPow2(i);
    hide AlternateMask, Pow2;
    Pow2Add(i, 5 - i);
    MulAssoc(2, Pow2(i), Pow2(5 - i));
    AlternateMaskClosed(Pow2(i), Pow2(5 - i), 64);
    MaskValue(i, AlternateMask(Pow2(i), Pow2(5 - i)));
  }

  const FIELD_LIMITS: seq<nat> := [0x2, 0x4, 0x10, 0x100, 0x1_0000, 0x1_0000_0000]

  lemma Pow2OfPow2(i: nat)
    requires i < 6
    ensures Pow2(Pow2(i)) == FIELD_LIMITS[i]
  {
    Pow2Values();
    assert i == 0 || i == 1 || i == 2 || i == 3 || i == 4 || i == 5;
  }

  lemma MaskValue(i: nat, mask: nat)
    requires i < 6
    requires mask * (FIELD_LIMITS[i] + 1) == 0xffff_ffff_ffff_ffff
    ensures POPCOUNT_MASKS[i] == mask
  {
    assert i == 0 || i == 1 || i == 2 || i == 3 || i == 4 || i == 5;
  }

  /** The number of set bits among the low `width` bits. */
  method CountSetBitsFallBack(value: nat, width: nat) returns (count: nat)
    requires value < Pow2(64) && IsWidth(width)
    ensures count == PopCount(Low(value, width))
  {
    Pow2Values();
    AllOnesShifted(width);
    AndMask(value, width);
    var v: nat := And(value, Shr(0xffff_ffff_ffff_ffff, 64 - width));
    ghost var bits := v;
    FieldSumOfBits(v);
    Split(value, width);
    if width < 64 { Pow2Grows(width, 64); }
    for i := 0 to 6
      invariant v < Pow2(64)
      invariant Pow2(i) > 0 && FieldSum(v, Pow2(i)) == PopCount(bits)
    {
      var shift := Shl(1, i);
      ShlOfOne(i);
      MasksAlternate(i);
      RoundKeepsSum(v, shift, Pow2(5 - i), 64);
      v := And(Shr(v, shift), POPCOUNT_MASKS[i]) + And(v, POPCOUNT_MASKS[i]);
    }
    LowOfSmall(v, 64);
    FieldSumStep(v, 64);
    count := v;
  }

  lemma AllOnesShifted(width: nat)
    requires width <= 64
    ensures Shr(0xffff_ffff_ffff_ffff, 64 - width) == Pow2(width) - 1
  {
    hide *;
    Pow2Values();
    Pow2Add(width, 64 - width);
    MulDist(Pow2(width) - 1, 1, Pow2(64 - width));
    SplitUnique(0xffff_ffff_ffff_ffff, 64 - width, Pow2(width) - 1, Pow2(64 - width) - 1);
  }
}
