/** Rotation of bit fields, and the immediates of logical instructions: a run of
    ones, rotated within an element and repeated across a register. */
module LogicalImmediates {
  import opened Bits

  // ---- Rotation ----

  /** The position r places after i, going around the width. */
  function Around(i: nat, r: nat, width: nat): nat
    requires width > 0
  {
    (i + r) % width
  }

  lemma AroundIs(i: nat, r: nat, width: nat)
    requires i < width && r <= width
    ensures Around(i, r, width) == if i + r < width then i + r else i + r - width
  {
    if i + r < width {
      DivUnique(i + r, width, 0, i + r);
    } else {
      DivUnique(i + r, width, 1, i + r - width);
    }
  }

  /** Bit i of the result is bit i + rotate, taken around the width, of the value. */
  predicate IsRotated(result: nat, value: nat, rotate: nat, width: nat)
    requires width > 0
  {
    && result < Pow2(width)
    && forall i: nat :: i < width ==> (Bit(result, i) <==> Bit(value, Around(i, rotate, width)))
  }

  /** The rotation count is taken modulo 64; past that it must not exceed the width,
      or the left shift would have a negative count. */
  method RotateRight(value: nat, rotate: nat, width: nat) returns (result: nat)
    requires 0 < width <= 64 && value < Pow2(64) && rotate % 64 <= width
    ensures IsRotated(result, value, rotate % 64, width)
  {
    hide Bit, Pow2, And, Or, Shl, Shr, Low, Around;
    var mask := WidthMask(width);
    var r := rotate % 64;
    result := value;
    if r > 0 {
      result := And(result, mask);
      result := Or(Low(Shl(result, width - r), 64), Shr(result, r));
    }
    ghost var turned := result;
    result := And(result, mask);
    Masked(turned, width);
    forall i: nat | i < width
      ensures Bit(result, i) <==> Bit(value, Around(i, r, width))
    {
      AroundIs(i, r, width);
      if r > 0 {
        RotatedBit(value, mask, r, width, i);
      }
    }
  }

  /** Masking a word to a width. */
  lemma Masked(x: nat, width: nat)
    requires 0 < width <= 64
    ensures And(x, WidthMask(width)) < Pow2(width)
    ensures forall i: nat :: i < width ==> (Bit(And(x, WidthMask(width)), i) <==> Bit(x, i))
  {
    hide Bit, Pow2, And, Low;
    AndMask(x, width);
    Split(x, width);
    forall i: nat | i < width
      ensures Bit(And(x, WidthMask(width)), i) <==> Bit(x, i)
    {
      BitLow(x, width, i);
    }
  }

  /** All ones, shifted down to the width. */
  function WidthMask(width: nat): nat
    requires 0 < width <= 64
  {
    Pow2(width) - 1
  }

  lemma RotatedBit(value: nat, mask: nat, r: nat, width: nat, i: nat)
    requires 0 < r <= width <= 64 && i < width && mask == Pow2(width) - 1
    ensures Bit(Or(Low(Shl(And(value, mask), width - r), 64), Shr(And(value, mask), r)), i)
            <==> Bit(value, Around(i, r, width))
  {
    hide Bit, Pow2, And, Or, Shl, Shr, Low, Around;
    var v := And(value, mask);
    AndMask(value, width);
    BitOr(Low(Shl(v, width - r), 64), Shr(v, r), i);
    BitLow(Shl(v, width - r), 64, i);
    BitShl(v, width - r, i);
    BitShr(v, r, i);
    BitLow(value, width, i + r);
    AroundIs(i, r, width);
    if width - r <= i {
      BitLow(value, width, i - (width - r));
    }
  }

  method RotateLeft(value: nat, rotate: nat, width: nat) returns (result: nat)
    requires 0 < width <= 64 && value < Pow2(64) && rotate <= width
    ensures IsRotated(result, value, (width - rotate) % 64, width)
  {
    result := RotateRight(value, width - rotate, width);
  }

  /** Rotating left by the same count undoes a rotation to the right. */
  lemma RotateBack(value: nat, right: nat, back: nat, rotate: nat, width: nat)
    requires 0 < width <= 64 && value < Pow2(width) && rotate <= width
    requires IsRotated(right, value, rotate % 64, width)
    requires IsRotated(back, right, (width - rotate) % 64, width)
    ensures back == value
  {
    hide Bit, Pow2, Around;
    forall i: nat | i < width
      ensures Bit(back, i) == Bit(value, i)
    {
      BackAndForth(i, rotate, width);
      assert Around(i, (width - rotate) % 64, width) < width by {
        AroundIs(i, (width - rotate) % 64, width);
      }
    }
    SameWord(width, back, value);
  }

  lemma BackAndForth(i: nat, rotate: nat, width: nat)
    requires i < width <= 64 && rotate <= width
    ensures Around(Around(i, (width - rotate) % 64, width), rotate % 64, width) == i
  {
    hide Around;
    var back, forth := (width - rotate) % 64, rotate % 64;
    AroundIs(i, back, width);
    AroundIs(Around(i, back, width), forth, width);
  }

  /** A rotation as a number: the low bits that leave on the right come back on top. */
  lemma RotatedValue(result: nat, value: nat, rotate: nat, width: nat)
    requires 0 < width && rotate <= width && value < Pow2(width) && IsRotated(result, value, rotate, width)
    ensures result == value / Pow2(rotate) + value % Pow2(rotate) * Pow2(width - rotate)
  {
    hide Bit, Pow2, Shl, Shr, Low, Or, Around;
    var high, low := Shr(value, rotate), Low(value, rotate);
    ShrLowAreDivMod(value, rotate);
    ShiftedBelow(value, rotate, width);
    OrIsSum(low, width - rotate, high);
    ShlIsMul(low, width - rotate);
    var sum := Or(Shl(low, width - rotate), high);
    forall i: nat
      ensures Bit(result, i) == Bit(sum, i)
    {
      RotatedSumBit(value, rotate, width, i);
      if width <= i {
        BitHigh(result, width, i);
      }
    }
    SameBits(result, sum);
  }

  lemma ShiftedBelow(value: nat, rotate: nat, width: nat)
    requires rotate <= width && value < Pow2(width)
    ensures Shr(value, rotate) < Pow2(width - rotate)
  {
    hide Pow2, Shr, Low;
    Split(value, rotate);
    Pow2Add(width - rotate, rotate);
    if Shr(value, rotate) >= Pow2(width - rotate) {
      MulMono(Pow2(width - rotate), Shr(value, rotate), Pow2(rotate));
    }
  }

  lemma RotatedSumBit(value: nat, rotate: nat, width: nat, i: nat)
    requires 0 < width && rotate <= width && value < Pow2(width)
    ensures Bit(Or(Shl(Low(value, rotate), width - rotate), Shr(value, rotate)), i)
            <==> i < width && Bit(value, Around(i, rotate, width))
  {
    hide Bit, Pow2, Shl, Shr, Low, Or, Around;
    BitOr(Shl(Low(value, rotate), width - rotate), Shr(value, rotate), i);
    BitShl(Low(value, rotate), width - rotate, i);
    BitShr(value, rotate, i);
    if width - rotate <= i {
      BitLow(value, rotate, i - (width - rotate));
    }
    if width <= i + rotate {
      BitHigh(value, width, i + rotate);
    }
    if i < width {
      AroundIs(i, rotate, width);
    }
  }

  // ---- Repetition ----

  predicate IsElementWidth(width: nat) {
    width in {2, 4, 8, 16, 32}
  }

  predicate IsRegisterSize(size: nat) {
    size in {8, 16, 32, 64}
  }

  function Larger(a: nat, b: nat): nat {
    if a < b then b else a
  }

  /** x repeats the low bits of the value in its first i bits. */
  predicate Repeats(x: nat, value: nat, width: nat, i: nat)
    requires width > 0
  {
    && x < Pow2(i)
    && forall j: nat :: j < i ==> (Bit(x, j) <==> Bit(value, j % width))
  }

  method RepeatBitsAcrossReg(size: nat, value: nat, width: nat) returns (result: nat)
    requires IsElementWidth(width) && IsRegisterSize(size)
    ensures Repeats(result, value, width, Larger(size, width))
  {
    hide And, Or, Shl, Low, Repeats, WidthMask;
    result := And(value, WidthMask(width));
    FirstElement(value, width);
    var i := width;
    while i < size
      invariant i in {2, 4, 8, 16, 32, 64} && i % width == 0
      invariant i == width || i <= size
      invariant Repeats(result, value, width, i)
      decreases 64 - i
    {
      RepeatStep(result, value, width, i);
      result := Or(result, Low(Shl(result, i), 64));
      i := i * 2;
    }
  }

  lemma FirstElement(value: nat, width: nat)
    requires IsElementWidth(width)
    ensures Repeats(And(value, WidthMask(width)), value, width, width)
  {
    hide Bit, And, Pow2;
    Masked(value, width);
  }

  lemma RepeatStep(x: nat, value: nat, width: nat, i: nat)
    requires width > 0 && i <= 32 && i % width == 0 && Repeats(x, value, width, i)
    ensures Repeats(Or(x, Low(Shl(x, i), 64)), value, width, 2 * i)
  {
    hide Bit, Pow2, Or, Shl, Low;
    DoubledBits(x, i);
    var y := Or(x, Low(Shl(x, i), 64));
    forall j: nat | j < 2 * i
      ensures Bit(y, j) <==> Bit(value, j % width)
    {
      if i <= j {
        assert Bit(y, j) <==> Bit(x, j - i);
        SubMultiple(j, i, width);
      }
    }
  }

  lemma SubMultiple(j: nat, i: nat, width: nat)
    requires width > 0 && i % width == 0 && i <= j
    ensures (j - i) % width == j % width
  {
    var k := i / width;
    assert i == k * width;
    var q := (j - i) / width;
    MulDist(q, k, width);
    DivUnique(j, width, q + k, (j - i) % width);
  }

  lemma DoubledBits(x: nat, i: nat)
    requires x < Pow2(i) && i <= 32
    ensures var y := Or(x, Low(Shl(x, i), 64));
            && y < Pow2(2 * i)
            && (forall j: nat :: j < i ==> (Bit(y, j) <==> Bit(x, j)))
            && (forall j: nat :: i <= j < 2 * i ==> (Bit(y, j) <==> Bit(x, j - i)))
  {
    hide Bit, Pow2, Or, Shl, Low;
    Pow2Add(i, i);
    ShlIsMul(x, i);
    MulMono(x, Pow2(i) - 1, Pow2(i));
    MulDist(Pow2(i), -1, Pow2(i));
    if i < 32 {
      Pow2Grows(2 * i, 64);
    }
    LowOfSmall(Shl(x, i), 64);
    OrIsSum(x, i, x);
    var y := Or(x, Low(Shl(x, i), 64));
    assert y == Or(x, Shl(x, i));
    forall j: nat | j < 2 * i
      ensures j < i ==> (Bit(y, j) <==> Bit(x, j))
      ensures i <= j ==> (Bit(y, j) <==> Bit(x, j - i))
    {
      BitOr(x, Shl(x, i), j);
      BitShl(x, i, j);
      if i <= j {
        BitHigh(x, i, j);
      }
    }
  }

  // ---- What an encoding means ----

  /** The element width of an encoding: the power of two given by the highest set
      bit of N followed by the inverted six bits of imms. */
  function TypeBits(n: nat, immS: nat): int {
    64 * n + 63 - immS
  }

  predicate AreFields(n: nat, immS: nat, immR: nat) {
    n < 2 && immS < 64 && immR < 64
  }

  /** No element width, or a run of ones that fills the element. */
  predicate IsReserved(n: nat, immS: nat)
    requires n < 2 && immS < 64
  {
    TypeBits(n, immS) < 2 || immS % ElementWidth(n, immS) == ElementWidth(n, immS) - 1
  }

  function ElementWidth(n: nat, immS: nat): (width: nat)
    requires n < 2 && immS < 64 && TypeBits(n, immS) >= 2
    ensures width > 0
  {
    Pow2(HighBit(TypeBits(n, immS)))
  }

  /** The mask of an encoding, at a register size: bit i is set exactly if i + R,
      taken around the element width, is at most S. */
  predicate IsMaskOf(mask: nat, n: nat, immS: nat, immR: nat, size: nat)
    requires AreFields(n, immS, immR) && !IsReserved(n, immS)
  {
    var width := ElementWidth(n, immS);
    && mask < Pow2(Larger(size, width))
    && forall i: nat :: i < Larger(size, width) ==>
         (Bit(mask, i) <==> Around(i, immR % width, width) <= immS % width)
  }

  /** Masks are never zero, so zero can stand for a reserved encoding. */
  lemma MaskIsNotZero(mask: nat, n: nat, immS: nat, immR: nat, size: nat)
    requires AreFields(n, immS, immR) && !IsReserved(n, immS) && IsMaskOf(mask, n, immS, immR, size)
    ensures mask != 0
  {
    hide Bit, Pow2, HighBit, ElementWidth;
    var width := ElementWidth(n, immS);
    var r := immR % width;
    var i := if r == 0 then 0 else width - r;
    AroundIs(i, r, width);
    assert Bit(mask, i);
    BitZero(i);
  }

  lemma WidthOf(n: nat, immS: nat, k: nat)
    requires n < 2 && immS < 64 && k >= 1 && Pow2(k) <= TypeBits(n, immS) < 2 * Pow2(k)
    ensures TypeBits(n, immS) >= 2 && HighBit(TypeBits(n, immS)) == k && ElementWidth(n, immS) == Pow2(k)
  {
    hide HighBit;
    HighBitUnique(TypeBits(n, immS), k);
    Pow2Step(k);
  }

  /** The element width by the ranges of imms. */
  lemma WidthTable(n: nat, immS: nat)
    requires n < 2 && immS < 64
    ensures TypeBits(n, immS) >= 2 <==> n == 1 || immS < 62
    ensures TypeBits(n, immS) >= 2 ==>
              ElementWidth(n, immS) ==
              if n == 1 then 64
              else if immS < 32 then 32
              else if immS < 48 then 16
              else if immS < 56 then 8
              else if immS < 60 then 4
              else 2
  {
    Pow2Values();
    hide Pow2, HighBit, ElementWidth;
    if n == 1 {
      WidthOf(n, immS, 6);
    } else if immS < 32 {
      WidthOf(n, immS, 5);
    } else if immS < 48 {
      WidthOf(n, immS, 4);
    } else if immS < 56 {
      WidthOf(n, immS, 3);
    } else if immS < 60 {
      WidthOf(n, immS, 2);
    } else if immS < 62 {
      WidthOf(n, immS, 1);
    }
  }

  /** The reserved encodings, one by one. */
  lemma ReservedEncodings(n: nat, immS: nat)
    requires n < 2 && immS < 64
    ensures IsReserved(n, immS) <==>
              if n == 1 then immS == 63 else immS in {31, 47, 55, 59, 61, 62, 63}
  {
    hide ElementWidth, TypeBits;
    WidthTable(n, immS);
  }

  /** Masks are never all ones either: each element has a clear bit. */
  lemma MaskIsNotOnes(mask: nat, n: nat, immS: nat, immR: nat, size: nat) returns (i: nat)
    requires AreFields(n, immS, immR) && !IsReserved(n, immS) && IsMaskOf(mask, n, immS, immR, size)
    ensures i < ElementWidth(n, immS) && !Bit(mask, i)
  {
    hide Bit, Pow2, HighBit, ElementWidth;
    var width := ElementWidth(n, immS);
    var r := immR % width;
    i := if r == width - 1 then 0 else width - 1 - r;
    AroundIs(i, r, width);
  }

  /** The element of a mask as a number: S + 1 ones, rotated right by R. */
  lemma ElementValue(mask: nat, n: nat, immS: nat, immR: nat, size: nat)
    requires AreFields(n, immS, immR) && !IsReserved(n, immS) && IsMaskOf(mask, n, immS, immR, size)
    ensures var width := ElementWidth(n, immS);
            var ones, r := Pow2(immS % width + 1) - 1, immR % width;
            mask % Pow2(width) == ones / Pow2(r) + ones % Pow2(r) * Pow2(width - r)
  {
    hide Bit, Pow2, HighBit, ElementWidth, Low, Around;
    var width := ElementWidth(n, immS);
    var ones, r := Pow2(immS % width + 1) - 1, immR % width;
    ShrLowAreDivMod(mask, width);
    Split(mask, width);
    Pow2AtMost(immS % width + 1, width);
    forall i: nat | i < width
      ensures Bit(Low(mask, width), i) <==> Bit(ones, Around(i, r, width))
    {
      BitLow(mask, width, i);
      BitOfMask(immS % width + 1, Around(i, r, width));
    }
    RotatedValue(Low(mask, width), ones, r, width);
  }

  // ---- Decoding ----

  /** With all bits above bit k of imms set, bit k is clear exactly if imms is small. */
  lemma TestWidth(immS: nat, k: nat)
    requires 1 <= k <= 5 && 64 - 2 * Pow2(k) <= immS < 64
    ensures And(immS, Pow2(k)) == 0 <==> immS < 64 - Pow2(k)
  {
    hide And, Bit, Shr, Shl;
    ShlOfOne(k);
    BitTest(immS, k);
    BitOfShr(immS, k);
    ShrLowAreDivMod(immS, k);
    hide Pow2;
    LastDigit(immS, k);
  }

  lemma LastDigit(x: nat, k: nat)
    requires 1 <= k <= 5 && 64 - 2 * Pow2(k) <= x < 64
    ensures x / Pow2(k) % 2 == 0 <==> x < 64 - Pow2(k)
  {
    Pow2Values();
    hide Pow2;
    if k == 1 {
      assert x / 2 % 2 == 0 <==> x < 62;
    } else if k == 2 {
      assert x / 4 % 2 == 0 <==> x < 60;
    } else if k == 3 {
      assert x / 8 % 2 == 0 <==> x < 56;
    } else if k == 4 {
      assert x / 16 % 2 == 0 <==> x < 48;
    } else {
      assert x / 32 % 2 == 0 <==> x < 32;
    }
  }

  lemma RunOfOnes(count: nat, j: nat)
    ensures Shl(1, count) >= 1 && (Bit(Shl(1, count) - 1, j) <==> j < count)
  {
    ShlOfOne(count);
    BitOfMask(count, j);
  }

  /** Zero for a reserved encoding, and otherwise the mask it stands for. */
  method DecodeImmBitMask(n: nat, immS: nat, immR: nat, size: nat) returns (mask: nat)
    requires AreFields(n, immS, immR) && IsRegisterSize(size)
    ensures mask == 0 <==> IsReserved(n, immS)
    ensures !IsReserved(n, immS) ==> IsMaskOf(mask, n, immS, immR, size)
  {
    hide Bit, Pow2, And, Shr, Shl, HighBit, ElementWidth, IsMaskOf, IsReserved;
    if n == 1 {
      mask := DecodeWide(immS, immR, size);
    } else {
      FiveOnes(immS);
      if Shr(immS, 1) == 0x1f {
        return 0;
      }
      var width := 0x20;
      ghost var k := 5;
      Pow2Values();
      while width >= 2
        invariant 0 <= k <= 5 && width == Pow2(k)
        invariant 64 - 2 * width <= immS
        decreases width
      {
        TestWidth(immS, k);
        if And(immS, width) == 0 {
          mask := DecodeNarrow(immS, immR, size, width, k);
          return;
        }
        Pow2Step(k);
        ShrOne(width);
        width := Shr(width, 1);
        k := k - 1;
      }
      assert false;
    }
  }

  lemma FiveOnes(immS: nat)
    requires immS < 64
    ensures Shr(immS, 1) == 0x1f <==> immS >= 62
    ensures immS >= 62 ==> IsReserved(0, immS)
  {
    ShrOne(immS);
  }

  method DecodeWide(immS: nat, immR: nat, size: nat) returns (mask: nat)
    requires AreFields(1, immS, immR) && IsRegisterSize(size)
    ensures mask == 0 <==> IsReserved(1, immS)
    ensures !IsReserved(1, immS) ==> IsMaskOf(mask, 1, immS, immR, size)
  {
    Pow2Values();
    hide Bit, Pow2, And, Shr, Shl, HighBit, ElementWidth;
    WidthOf(1, immS, 6);
    if immS == 0x3f {
      return 0;
    }
    ShlOfOne(immS + 1);
    if immS + 1 < 64 {
      Pow2Grows(immS + 1, 64);
    }
    var bits := Shl(1, immS + 1) - 1;
    mask := RotateRight(bits, immR, 64);
    forall i: nat | i < 64
      ensures Bit(mask, i) <==> Around(i, immR % 64, 64) <= immS % 64
    {
      RunOfOnes(immS + 1, Around(i, immR, 64));
    }
    MaskIsNotZero(mask, 1, immS, immR, size);
  }

  lemma FieldsOf(immS: nat, immR: nat, width: nat, k: nat)
    requires AreFields(0, immS, immR)
    requires 1 <= k <= 5 && width == Pow2(k) && 64 - 2 * width <= immS < 64 - width
    ensures TypeBits(0, immS) >= 2 && ElementWidth(0, immS) == width && IsElementWidth(width)
    ensures And(immS, width - 1) == immS % width < width && And(immR, width - 1) == immR % width < width
  {
    Pow2Values();
    hide Pow2, And, ElementWidth;
    WidthOf(0, immS, k);
    AndMask(immS, k);
    AndMask(immR, k);
    ShrLowAreDivMod(immS, k);
    ShrLowAreDivMod(immR, k);
  }

  method DecodeNarrow(immS: nat, immR: nat, size: nat, width: nat, ghost k: nat) returns (mask: nat)
    requires AreFields(0, immS, immR) && IsRegisterSize(size)
    requires 1 <= k <= 5 && width == Pow2(k) && 64 - 2 * width <= immS < 64 - width
    ensures mask == 0 <==> IsReserved(0, immS)
    ensures !IsReserved(0, immS) ==> IsMaskOf(mask, 0, immS, immR, size)
  {
    hide Bit, Pow2, And, Shl, ElementWidth, TypeBits, IsRegisterSize, IsRotated, Repeats;
    FieldsOf(immS, immR, width, k);
    var low := width - 1;
    var s := And(immS, low);
    if s == low {
      return 0;
    }
    ShlOfOne(s + 1);
    var bits := Shl(1, s + 1) - 1;
    if s + 1 < 64 {
      Pow2Grows(s + 1, 64);
    }
    var element := RotateRight(bits, And(immR, low), width);
    mask := RepeatBitsAcrossReg(size, element, width);
    NarrowBits(immS, immR, size, width, bits, element, mask);
    MaskIsNotZero(mask, 0, immS, immR, size);
  }

  /** A run of ones, rotated in the element and repeated, is the mask. */
  lemma NarrowBits(immS: nat, immR: nat, size: nat, width: nat, bits: nat, element: nat, mask: nat)
    requires AreFields(0, immS, immR) && !IsReserved(0, immS)
    requires width == ElementWidth(0, immS) && width <= 32
    requires bits == Shl(1, immS % width + 1) - 1 && IsRotated(element, bits, immR % width, width)
    requires Repeats(mask, element, width, Larger(size, width))
    ensures IsMaskOf(mask, 0, immS, immR, size)
  {
    hide Bit, Pow2, Shl, HighBit, ElementWidth, IsReserved;
    forall i: nat | i < Larger(size, width)
      ensures Bit(mask, i) <==> Around(i, immR % width, width) <= immS % width
    {
      AddModulo(i, immR % width, width);
      RunOfOnes(immS % width + 1, Around(i % width, immR % width, width));
    }
  }

  lemma AddModulo(i: nat, r: nat, width: nat)
    requires width > 0
    ensures Around(i % width, r, width) == Around(i, r, width)
  {
    var q, p := i / width, (i % width + r) / width;
    MulDist(q, p, width);
    DivUnique(i + r, width, q + p, (i % width + r) % width);
  }

  // ---- Lane sizes of the vector forms ----

  /** The base-two logarithm of the lane size in bytes, or -1. */
  function LaneSizeLog2(n: nat, immS: nat): int
    requires n < 2 && immS < 64
  {
    var typeBits := TypeBits(n, immS);
    if typeBits == 0 then -1
    else
      var h := HighBit(typeBits);
      if h == 6 then 3
      else if h == 5 then 2
      else if h == 4 then 1
      else if h == 3 || h == 2 || h == 1 then 0
      else -1
  }

  lemma {:induction false} Complement(x: nat, k: nat, j: nat)
    requires x < Pow2(k)
    ensures Bit(Pow2(k) - 1 - x, j) <==> j < k && !Bit(x, j)
    decreases k
  {
    if k == 0 {
      BitZero(j);
    } else {
      var y := Pow2(k) - 1 - x;
      assert y / 2 == Pow2(k - 1) - 1 - x / 2 && y % 2 == 1 - x % 2;
      if j > 0 {
        Complement(x / 2, k - 1, j - 1);
      }
    }
  }

  /** Inverting the six bits of imms. */
  lemma InvertedField(immS: nat)
    requires immS < 64
    ensures And(Not64(immS), Shl(1, 6) - 1) == 63 - immS
  {
    Pow2Values();
    hide Bit, Pow2, And, Shl, Not64;
    ShlOfOne(6);
    var field, inverted := And(Not64(immS), Shl(1, 6) - 1), 63 - immS;
    forall j: nat
      ensures Bit(field, j) == Bit(inverted, j)
    {
      BitAnd(Not64(immS), Shl(1, 6) - 1, j);
      BitNot64(immS, j);
      BitOfMask(6, j);
      Complement(immS, 6, j);
    }
    SameBits(field, inverted);
  }

  method GetSVEBitwiseImmLaneSizeInBytesLog2(n: nat, immS: nat) returns (log2: int)
    requires n < 2 && immS < 64
    ensures log2 == LaneSizeLog2(n, immS)
    ensures log2 == -1 <==> TypeBits(n, immS) < 2
    ensures TypeBits(n, immS) >= 2 ==> 0 <= log2 <= 3 && Pow2(log2 + 3) == Larger(8, ElementWidth(n, immS))
  {
    Pow2Values();
    ElementsFitLanes(n, immS);
    hide Bit, Pow2, And, Shl, Or, Not64, HighBit, ElementWidth;
    ShlOfOne(6);
    InvertedField(immS);
    ShlIsMul(n, 6);
    OrIsSum(n, 6, 63 - immS);
    var typeBitset := Or(Shl(n, 6), And(Not64(immS), Shl(1, 6) - 1));
    if typeBitset == 0 {
      return -1;
    }
    var h := HighBit(typeBitset);
    log2 := if h == 6 then 3
            else if h == 5 then 2
            else if h == 4 then 1
            else if h == 3 || h == 2 || h == 1 then 0
            else -1;
  }

  /** There is a lane size exactly if there is an element width; the lane is the
      element, or a byte for narrower elements. */
  lemma ElementsFitLanes(n: nat, immS: nat)
    requires n < 2 && immS < 64
    ensures LaneSizeLog2(n, immS) == -1 <==> TypeBits(n, immS) < 2
    ensures TypeBits(n, immS) >= 2 ==>
              && 0 <= LaneSizeLog2(n, immS) <= 3
              && Pow2(LaneSizeLog2(n, immS) + 3) == Larger(8, ElementWidth(n, immS))
  {
    Pow2Values();
    hide Pow2;
    var typeBits := TypeBits(n, immS);
    if typeBits >= 1 {
      HighBitVersus(typeBits, 7);
      HighBitVersus(typeBits, 1);
    }
  }

  /** The mask of a vector form: zero for reserved encodings, and otherwise a mask
      that fits the lane. */
  method GetSVEImmLogical(n: nat, immS: nat, immR: nat) returns (mask: nat)
    requires AreFields(n, immS, immR)
    ensures mask == 0 <==> IsReserved(n, immS)
    ensures !IsReserved(n, immS) ==>
              && IsMaskOf(mask, n, immS, immR, Larger(8, ElementWidth(n, immS)))
              && mask < Pow2(Larger(8, ElementWidth(n, immS)))
  {
    Pow2Values();
    hide Bit, Pow2, Shl, HighBit, ElementWidth, LaneSizeLog2;
    var log2 := GetSVEBitwiseImmLaneSizeInBytesLog2(n, immS);
    ElementsFitLanes(n, immS);
    if 0 <= log2 <= 3 {
      ShlOfOne(log2 + 3);
      mask := DecodeImmBitMask(n, immS, immR, Shl(1, log2 + 3));
    } else {
      mask := 0;
    }
  }

  /** The mask of a general-register form. */
  method GetImmLogical(sixtyFourBits: bool, n: nat, immS: nat, immR: nat) returns (mask: nat)
    requires AreFields(n, immS, immR)
    ensures mask == 0 <==> IsReserved(n, immS)
    ensures !IsReserved(n, immS) ==> IsMaskOf(mask, n, immS, immR, if sixtyFourBits then 64 else 32)
  {
    hide IsReserved, IsMaskOf;
    mask := DecodeImmBitMask(n, immS, immR, if sixtyFourBits then 64 else 32);
  }
}
