/** The eight-bit immediates abcdefgh of floating-point instructions. The encoded
    number has sign a, an exponent of b inverted, then copies of b, then cd, and a
    fraction efgh followed by zeros. */
module FPImmediates {
  import opened Bits
  import FloatFormat

  /** `copies` of b stand above the six bits cdefgh, which begin at bit `low`. The
      copies are tested after a shift by `testShift`. */
  datatype ImmFormat = ImmFormat(copies: nat, low: nat, testShift: nat) {
    predicate Valid() {
      this == SINGLE || this == DOUBLE
    }

    function FirstCopy(): nat {
      low + 6
    }

    function LastCopy(): nat {
      low + 5 + copies
    }

    function Inverted(): nat {
      low + 6 + copies
    }

    function Sign(): nat {
      low + 7 + copies
    }
  }

  const SINGLE := ImmFormat(5, 19, 16)
  const DOUBLE := ImmFormat(8, 48, 48)

  /** FP32ToImm8 and FP64ToImm8, on raw bits. */
  function ToImm8(f: ImmFormat, bits: nat): nat {
    var bit7 := Shl(And(Shr(bits, f.Sign()), 1), 7);
    var bit6 := Shl(And(Shr(bits, f.LastCopy()), 1), 6);
    var bit5To0 := And(Shr(bits, f.low), 0x3f);
    Or(Or(bit7, bit6), bit5To0)
  }

  lemma OneBit(x: nat, k: nat)
    ensures And(Shr(x, k), 1) == if Bit(x, k) then 1 else 0
  {
    assert Pow2(1) - 1 == 1;
    hide And, Bit, Shr;
    AndMask(Shr(x, k), 1);
    ShrLowAreDivMod(Shr(x, k), 1);
    BitOfShr(x, k);
  }

  /** Imm8ToFP32 and Imm8ToFP64, on raw bits. */
  function FromImm8(f: ImmFormat, imm8: nat): nat {
    OneBit(imm8, 6);
    var bit7 := And(Shr(imm8, 7), 1);
    var bit6 := And(Shr(imm8, 6), 1);
    var bit5To0 := And(imm8, 0x3f);
    Or(Or(Shl(bit7, f.Sign()), Shl(Pow2(f.copies) - bit6, f.FirstCopy())), Shl(bit5To0, f.low))
  }

  /** IsImmFP32 and IsImmFP64, on raw bits. */
  function IsImm(f: ImmFormat, bits: nat): bool
    requires f.Valid()
  {
    var pattern := Shl(Pow2(f.copies) - 1, f.FirstCopy() - f.testShift);
    var b := And(Shr(bits, f.testShift), pattern);
    && And(bits, Pow2(f.low) - 1) == 0
    && (b == 0 || b == pattern)
    && And(Xor(bits, Shl(bits, 1)), Shl(1, f.Inverted())) != 0
  }

  // ---- Bit by bit ----

  /** The bits of an encodable number, in terms of its immediate. */
  predicate ExpandedBit(f: ImmFormat, imm8: nat, j: nat) {
    if j < f.low then false
    else if j < f.FirstCopy() then Bit(imm8, j - f.low)
    else if j <= f.LastCopy() then Bit(imm8, 6)
    else if j == f.Inverted() then !Bit(imm8, 6)
    else j == f.Sign() && Bit(imm8, 7)
  }

  lemma FromImm8Bit(f: ImmFormat, imm8: nat, j: nat)
    requires f.Valid()
    ensures Bit(FromImm8(f, imm8), j) <==> ExpandedBit(f, imm8, j)
  {
    Pow2Values();
    hide Bit, Pow2, And, Or, Shl, Shr;
    OneBit(imm8, 7);
    OneBit(imm8, 6);
    var bit7, bit6, bit5To0 := And(Shr(imm8, 7), 1), And(Shr(imm8, 6), 1), And(imm8, 0x3f);
    BitOr(Or(Shl(bit7, f.Sign()), Shl(Pow2(f.copies) - bit6, f.FirstCopy())), Shl(bit5To0, f.low), j);
    BitOr(Shl(bit7, f.Sign()), Shl(Pow2(f.copies) - bit6, f.FirstCopy()), j);
    ShlOfOne(f.Sign());
    BitOfPow2(f.Sign(), j);
    BitZero(j);
    BitShl(Pow2(f.copies) - bit6, f.FirstCopy(), j);
    if f.FirstCopy() <= j {
      BitOfPow2(f.copies, j - f.FirstCopy());
      BitOfMask(f.copies, j - f.FirstCopy());
    }
    BitShl(bit5To0, f.low, j);
    if f.low <= j {
      BitAnd(imm8, 0x3f, j - f.low);
      BitOfMask(6, j - f.low);
    }
  }

  lemma ToImm8Bit(f: ImmFormat, bits: nat, j: nat)
    ensures Bit(ToImm8(f, bits), j) <==>
            if j < 6 then Bit(bits, f.low + j)
            else if j == 6 then Bit(bits, f.LastCopy())
            else j == 7 && Bit(bits, f.Sign())
  {
    Pow2Values();
    hide Bit, Pow2, And, Or, Shl, Shr;
    OneBit(bits, f.Sign());
    OneBit(bits, f.LastCopy());
    var bit7, bit6 := And(Shr(bits, f.Sign()), 1), And(Shr(bits, f.LastCopy()), 1);
    BitOr(Or(Shl(bit7, 7), Shl(bit6, 6)), And(Shr(bits, f.low), 0x3f), j);
    BitOr(Shl(bit7, 7), Shl(bit6, 6), j);
    ShlOfOne(7);
    ShlOfOne(6);
    BitOfPow2(7, j);
    BitOfPow2(6, j);
    BitZero(j);
    BitAnd(Shr(bits, f.low), 0x3f, j);
    BitOfMask(6, j);
    BitShr(bits, f.low, j);
  }

  /** What the three tests of an encodable number say. */
  predicate HasForm(f: ImmFormat, bits: nat) {
    && EndsInZeros(bits, f.low)
    && CopiesEqual(f, bits)
    && Bit(bits, f.Inverted()) != Bit(bits, f.LastCopy())
  }

  predicate EndsInZeros(bits: nat, n: nat) {
    forall j: nat :: j < n ==> !Bit(bits, j)
  }

  predicate CopiesEqual(f: ImmFormat, bits: nat) {
    forall j: nat :: f.FirstCopy() <= j <= f.LastCopy() ==> Bit(bits, j) == Bit(bits, f.LastCopy())
  }

  lemma IsImmTests(f: ImmFormat, bits: nat)
    requires f.Valid()
    ensures IsImm(f, bits) <==> HasForm(f, bits)
  {
    hide Bit, Pow2, And, Shl, Shr, Xor, EndsInZeros, CopiesEqual;
    LowBitsClear(bits, f.low);
    CopiesAgree(f, bits);
    BitTest(Xor(bits, Shl(bits, 1)), f.Inverted());
    BitXor(bits, Shl(bits, 1), f.Inverted());
    BitShl(bits, 1, f.Inverted());
  }

  lemma LowBitsClear(bits: nat, n: nat)
    ensures And(bits, Pow2(n) - 1) == 0 <==> EndsInZeros(bits, n)
  {
    hide Bit, And, Low, Pow2;
    AndMask(bits, n);
    forall j: nat
      ensures Bit(Low(bits, n), j) <==> j < n && Bit(bits, j)
      ensures !Bit(0, j)
    {
      BitLow(bits, n, j);
      BitZero(j);
    }
    if EndsInZeros(bits, n) {
      SameBits(Low(bits, n), 0);
    }
    if Low(bits, n) == 0 {
      forall j: nat | j < n
        ensures !Bit(bits, j)
      {
        assert !Bit(Low(bits, n), j);
      }
    }
  }

  lemma CopiesAgree(f: ImmFormat, bits: nat)
    requires f.Valid()
    ensures var pattern := Shl(Pow2(f.copies) - 1, f.FirstCopy() - f.testShift);
            var b := And(Shr(bits, f.testShift), pattern);
            b == 0 || b == pattern <==> CopiesEqual(f, bits)
  {
    hide Bit, Pow2, And, Shl, Shr;
    var at := f.FirstCopy() - f.testShift;
    var pattern := Shl(Pow2(f.copies) - 1, at);
    var b := And(Shr(bits, f.testShift), pattern);
    forall j: nat
      ensures Bit(pattern, j) <==> at <= j < at + f.copies
      ensures Bit(b, j) <==> at <= j < at + f.copies && Bit(bits, j + f.testShift)
      ensures !Bit(0, j)
    {
      BitAnd(Shr(bits, f.testShift), pattern, j);
      BitShr(bits, f.testShift, j);
      BitShl(Pow2(f.copies) - 1, at, j);
      BitZero(j);
      if at <= j {
        BitOfMask(f.copies, j - at);
      }
    }
    var last := Bit(bits, f.LastCopy());
    if CopiesEqual(f, bits) {
      SameBits(b, if last then pattern else 0);
    }
    if b == 0 || b == pattern {
      forall j: nat | f.FirstCopy() <= j <= f.LastCopy()
        ensures Bit(bits, j) == last
      {
        var i, l := j - f.testShift, f.LastCopy() - f.testShift;
        assert Bit(b, i) == Bit(bits, j) && Bit(b, l) == last;
        assert Bit(pattern, i) && Bit(pattern, l) && !Bit(0, i) && !Bit(0, l);
      }
    }
  }

  // ---- Round trips ----

  /** Every immediate survives the way through the number it encodes. */
  lemma ImmediateRoundTrip(f: ImmFormat, imm8: nat)
    requires f.Valid() && imm8 < 256
    ensures ToImm8(f, FromImm8(f, imm8)) == imm8
  {
    Pow2Values();
    hide Bit, Pow2, ToImm8, FromImm8;
    var bits := FromImm8(f, imm8);
    forall j: nat
      ensures Bit(ToImm8(f, bits), j) == Bit(imm8, j)
    {
      ToImm8Bit(f, bits, j);
      FromImm8Bit(f, imm8, f.low + j);
      FromImm8Bit(f, imm8, f.LastCopy());
      FromImm8Bit(f, imm8, f.Sign());
      if 8 <= j {
        BitHigh(imm8, 8, j);
      }
    }
    SameBits(ToImm8(f, bits), imm8);
  }

  lemma ExpansionHasForm(f: ImmFormat, imm8: nat)
    requires f.Valid()
    ensures HasForm(f, FromImm8(f, imm8))
  {
    hide Bit, FromImm8;
    forall j: nat
      ensures Bit(FromImm8(f, imm8), j) <==> ExpandedBit(f, imm8, j)
    {
      FromImm8Bit(f, imm8, j);
    }
  }

  /** A number passes the test exactly if it is the expansion of its immediate, so
      exactly if some immediate encodes it. */
  lemma TestedIffEncodable(f: ImmFormat, bits: nat)
    requires f.Valid() && bits < Pow2(f.Sign() + 1)
    ensures IsImm(f, bits) <==> FromImm8(f, ToImm8(f, bits)) == bits
    ensures IsImm(f, bits) <==> exists imm8: nat :: imm8 < 256 && FromImm8(f, imm8) == bits
  {
    hide Bit, Pow2, ToImm8, FromImm8, IsImm;
    var imm8 := ToImm8(f, bits);
    IsImmTests(f, bits);
    ToImm8Fits(f, bits);
    if HasForm(f, bits) {
      forall j: nat
        ensures Bit(FromImm8(f, imm8), j) == Bit(bits, j)
      {
        FromImm8Bit(f, imm8, j);
        ToImm8Bit(f, bits, 6);
        ToImm8Bit(f, bits, 7);
        if f.low <= j {
          ToImm8Bit(f, bits, j - f.low);
        }
        if f.Sign() < j {
          BitHigh(bits, f.Sign() + 1, j);
        }
      }
      SameBits(FromImm8(f, imm8), bits);
    }
    if i: nat :| i < 256 && FromImm8(f, i) == bits {
      ExpansionHasForm(f, i);
      ImmediateRoundTrip(f, i);
    }
  }

  lemma ToImm8Fits(f: ImmFormat, bits: nat)
    ensures ToImm8(f, bits) < 256
  {
    Pow2Values();
    hide Bit, Pow2, ToImm8, Low;
    var imm8 := ToImm8(f, bits);
    forall j: nat
      ensures Bit(imm8, j) == Bit(Low(imm8, 8), j)
    {
      ToImm8Bit(f, bits, j);
      BitLow(imm8, 8, j);
    }
    SameBits(imm8, Low(imm8, 8));
    Split(imm8, 8);
  }

  // ---- The numbers that immediates encode ----

  /** The exponent bits and the six low bits of an immediate, in their places. */
  function Fields(f: ImmFormat, high: nat, low: nat): nat {
    high * Pow2(f.FirstCopy()) + low * Pow2(f.low)
  }

  /** The expanded word is the sum of its fields. */
  lemma FromImm8Sum(f: ImmFormat, imm8: nat, b7: nat, b6: nat, low: nat)
    requires f.Valid() && imm8 == 128 * b7 + 64 * b6 + low && b7 <= 1 && b6 <= 1 && low < 64
    ensures b6 < Pow2(f.copies)
    ensures FromImm8(f, imm8) == Shl(b7, f.Sign()) + Fields(f, Pow2(f.copies) - b6, low)
    ensures Fields(f, Pow2(f.copies) - b6, low) < Pow2(f.Sign())
  {
    Pow2Values();
    hide Pow2, And, Or, Shl, Shr;
    ImmediateFields(imm8, b7, b6, low);
    var high := Pow2(f.copies) - b6;
    ShlIsMul(high, f.FirstCopy());
    ShlIsMul(low, f.low);
    FieldsBelow(f, high, low);
    OrIsSum(high, f.FirstCopy(), Shl(low, f.low));
    OrIsSum(b7, f.Sign(), Shl(high, f.FirstCopy()) + Shl(low, f.low));
    OrThree(Shl(b7, f.Sign()), Shl(high, f.FirstCopy()), Shl(low, f.low));
  }

  lemma ImmediateFields(imm8: nat, b7: nat, b6: nat, low: nat)
    requires imm8 == 128 * b7 + 64 * b6 + low && b7 <= 1 && b6 <= 1 && low < 64
    ensures And(Shr(imm8, 7), 1) == b7 && And(Shr(imm8, 6), 1) == b6 && And(imm8, 0x3f) == low
  {
    Pow2Values();
    hide Pow2, And, Shr, Low;
    SplitUnique(imm8, 7, b7, 64 * b6 + low);
    SplitUnique(imm8, 6, 2 * b7 + b6, low);
    AndOne(b7);
    AndOne(2 * b7 + b6);
    AndMask(imm8, 6);
  }

  lemma FieldsBelow(f: ImmFormat, high: nat, low: nat)
    requires f.Valid() && high <= Pow2(f.copies) && low < 64
    ensures low * Pow2(f.low) < Pow2(f.FirstCopy())
    ensures high * Pow2(f.FirstCopy()) + low * Pow2(f.low) < Pow2(f.Sign())
  {
    Pow2Values();
    hide Pow2;
    Pow2Add(6, f.low);
    Pow2Add(f.copies, f.FirstCopy());
    Pow2Step(f.Sign());
    Pow2AtMost(f.FirstCopy(), f.Inverted());
    MulMono(low, 63, Pow2(f.low));
    MulMono(high, Pow2(f.copies), Pow2(f.FirstCopy()));
  }

  lemma OrThree(a: nat, b: nat, c: nat)
    ensures Or(Or(a, b), c) == Or(a, Or(b, c))
  {
    hide *;
    forall j: nat
      ensures Bit(Or(Or(a, b), c), j) == Bit(Or(a, Or(b, c)), j)
    {
      BitOr(Or(a, b), c, j);
      BitOr(a, b, j);
      BitOr(a, Or(b, c), j);
      BitOr(b, c, j);
    }
    SameBits(Or(Or(a, b), c), Or(a, Or(b, c)));
  }

  /** The three-bit exponent field: bit 6 inverted, bit 5 and bit 4. */
  function Exponent(imm8: nat): nat {
    4 * (1 - imm8 / 64 % 2) + imm8 / 16 % 4
  }

  /** A value with the exponent and the top four fraction bits given. */
  lemma ValueOfParts(f: FloatFormat.Format, magnitude: nat, e: nat, x: nat)
    requires f.mbits >= 4 && e >= 1 && x < 16
    requires magnitude == e * Pow2(f.mbits) + x * Pow2(f.mbits - 4)
    ensures f.Value(magnitude) == (16 + x) * Pow2(f.mbits - 4 + e - 1)
  {
    hide Pow2, Shl, Shr, Low;
    Pow2Add(4, f.mbits - 4);
    assert Pow2(4) == 16 by {
      Pow2Values();
    }
    MulMono(x, 15, Pow2(f.mbits - 4));
    SplitUnique(magnitude, f.mbits, e, x * Pow2(f.mbits - 4));
    MulDist(16, x, Pow2(f.mbits - 4));
    ShlIsMul((16 + x) * Pow2(f.mbits - 4), e - 1);
    MulAssoc(16 + x, Pow2(f.mbits - 4), Pow2(e - 1));
    Pow2Add(f.mbits - 4, e - 1);
  }

  /** The fields of an expansion, regrouped at the exponent. */
  lemma Regroup(high: int, q: int, x: int, p: int)
    ensures high * (64 * p) + (16 * q + x) * p == (4 * high + q) * (16 * p) + x * p
  {
    MulAssoc(high, 64, p);
    MulAssoc(4 * high + q, 16, p);
    MulDist(64 * high, 16 * q, p);
    MulDist(16 * q, x, p);
  }

  /** The number, in a format whose fraction has four bits above the lowest of the
      six. */
  lemma MagnitudeValue(f: ImmFormat, g: FloatFormat.Format, high: nat, q: nat, x: nat)
    requires g.mbits == f.low + 4 && high >= 1 && x < 16
    ensures g.Value(Fields(f, high, 16 * q + x)) == Shl(16 + x, f.low + (4 * high + q) - 1)
  {
    assert Pow2(6) == 64 && Pow2(4) == 16;
    hide Pow2, Shl, FloatFormat.Format.Value;
    Pow2Add(6, f.low);
    Pow2Add(4, f.low);
    Regroup(high, q, x, Pow2(f.low));
    ValueOfParts(g, Fields(f, high, 16 * q + x), 4 * high + q, x);
    ShlIsMul(16 + x, f.low + (4 * high + q) - 1);
  }

  /** The digits of an immediate. */
  lemma Digits(imm8: nat)
    requires imm8 < 256
    ensures imm8 == 128 * (imm8 / 128) + 64 * (imm8 / 64 % 2) + imm8 % 64 && imm8 / 128 <= 1
    ensures imm8 % 64 == 16 * (imm8 / 16 % 4) + imm8 % 16
  {
  }

  /** A single-precision immediate is the number (16 + efgh) / 16 * 2^(E - 3), with E
      the three-bit exponent, and its sign is bit 7; the value counts units of 2^-149. */
  lemma SingleValue(imm8: nat)
    requires imm8 < 256
    ensures FromImm8(SINGLE, imm8) >= Shl(imm8 / 128, 31)
    ensures var magnitude := FromImm8(SINGLE, imm8) - Shl(imm8 / 128, 31);
            && magnitude < Pow2(31)
            && FloatFormat.SINGLE.Value(magnitude) == Shl(16 + imm8 % 16, Exponent(imm8) + 142)
  {
    Pow2Values();
    hide Pow2, Shl, FromImm8, Fields, FloatFormat.Format.Value;
    Digits(imm8);
    var b6, q, x := imm8 / 64 % 2, imm8 / 16 % 4, imm8 % 16;
    FromImm8Sum(SINGLE, imm8, imm8 / 128, b6, imm8 % 64);
    MagnitudeValue(SINGLE, FloatFormat.SINGLE, 32 - b6, q, x);
    assert 19 + (4 * (32 - b6) + q) - 1 == Exponent(imm8) + 142;
  }

  /** The same for double precision, in units of 2^-1074. */
  lemma DoubleValue(imm8: nat)
    requires imm8 < 256
    ensures FromImm8(DOUBLE, imm8) >= Shl(imm8 / 128, 63)
    ensures var magnitude := FromImm8(DOUBLE, imm8) - Shl(imm8 / 128, 63);
            && magnitude < Pow2(63)
            && FloatFormat.DOUBLE.Value(magnitude) == Shl(16 + imm8 % 16, Exponent(imm8) + 1067)
  {
    Pow2Values();
    hide Pow2, Shl, FromImm8, Fields, FloatFormat.Format.Value;
    Digits(imm8);
    var b6, q, x := imm8 / 64 % 2, imm8 / 16 % 4, imm8 % 16;
    FromImm8Sum(DOUBLE, imm8, imm8 / 128, b6, imm8 % 64);
    MagnitudeValue(DOUBLE, FloatFormat.DOUBLE, 256 - b6, q, x);
    assert 48 + (4 * (256 - b6) + q) - 1 == Exponent(imm8) + 1067;
  }
}
