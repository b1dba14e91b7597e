/** The high half of the product of two N-bit integers, computed from half words in
    64-bit arithmetic that wraps around. */
module HighMultiplication {
  import opened Bits
  import opened Bitfields

  predicate IsLane(n: nat) {
    n == 8 || n == 16 || n == 32 || n == 64
  }

  /** An n-bit integer, signed or not. */
  predicate IsOperand(n: nat, signed: bool, x: int)
    requires n > 0
  {
    if signed then 0 <= x + Pow2(n - 1) < Pow2(n) else 0 <= x < Pow2(n)
  }

  // ---- Arithmetic modulo 2^64 ----

  lemma AddWraps(a: int, b: int)
    ensures (a % WRAP + b) % WRAP == (a + b) % WRAP
    ensures (a + b % WRAP) % WRAP == (a + b) % WRAP
  {
  }

  lemma MulWraps(a: int, b: int)
    ensures (a % WRAP * b) % WRAP == (a * b) % WRAP
    ensures (b * (a % WRAP)) % WRAP == (b * a) % WRAP
  {
    var q := a / WRAP;
    assert a == q * WRAP + a % WRAP;
    MulDist(q * WRAP, a % WRAP, b);
    assert a * b == q * WRAP * b + a % WRAP * b;
    MulAssoc(WRAP, q, b);
    assert a * b == WRAP * (q * b) + a % WRAP * b;
    AddMultiple(a % WRAP * b, q * b);
  }

  lemma AddMultiple(a: int, k: int)
    ensures (a + WRAP * k) % WRAP == a % WRAP
  {
  }

  // ---- The product from half words ----

  /** Cross products and carries add up to the high half of the whole product. */
  lemma HighFromHalves(u1: int, u0: int, v1: int, v0: int, h: int)
    requires h > 0 && 0 <= u0 < h && 0 <= v0 < h
    ensures var t := u1 * v0 + u0 * v0 / h;
            var w1 := u0 * v1 + t % h;
            u1 * v1 + t / h + w1 / h == (u1 * h + u0) * (v1 * h + v0) / (h * h)
  {
    Expand(u1, u0, v1, v0, h);
    Carries(u1 * v1, u1 * v0, u0 * v1, u0 * v0, h);
  }

  /** The same for any four partial products. */
  lemma Carries(hh: int, hl: int, lh: int, ll: int, h: int)
    requires h > 0
    ensures var t := hl + ll / h;
            var w1 := lh + t % h;
            hh + t / h + w1 / h == (hh * (h * h) + hl * h + lh * h + ll) / (h * h)
  {
    var a, r := ll / h, ll % h;
    var t := hl + a;
    var w1 := lh + t % h;
    var q := hh + t / h + w1 / h;
    var rest := w1 % h * h + r;
    Scale(t, h);
    Scale(w1, h);
    assert ll == a * h + r;
    MulDist(hl, a, h);
    MulDist(lh, t % h, h);
    MulDist(hh + t / h, w1 / h, h * h);
    MulDist(hh, t / h, h * h);
    Remainder(w1 % h, r, h);
    DivUnique(hh * (h * h) + hl * h + lh * h + ll, h * h, q, rest);
  }

  lemma Remainder(a: int, r: int, h: int)
    requires 0 <= a < h && 0 <= r < h
    ensures 0 <= a * h + r < h * h && h * h > 0
  {
    MulMono(a, h - 1, h);
    MulMono(0, a, h);
    MulDist(h, -1, h);
    MulAtLeast(h, h);
  }

  lemma Expand(u1: int, u0: int, v1: int, v0: int, h: int)
    ensures (u1 * h + u0) * (v1 * h + v0) == u1 * v1 * (h * h) + u1 * v0 * h + u0 * v1 * h + u0 * v0
  {
    MulDist(u1 * h, u0, v1 * h + v0);
    MulDist(v1 * h, v0, u1 * h);
    MulDist(v1 * h, v0, u0);
    Four(u1, v1, h);
    assert u1 * h * v0 == u1 * v0 * h;
    assert u0 * (v1 * h) == u0 * v1 * h;
  }

  lemma Four(a: int, b: int, h: int)
    ensures (a * h) * (b * h) == a * b * (h * h)
  {
    MulAssoc(a * h, b, h);
    MulAssoc(a, h, b);
    MulAssoc(a, b, h);
    MulAssoc(a * b, h, h);
    assert h * b == b * h;
  }

  /** t * h, from the quotient and remainder of t. */
  lemma Scale(t: int, h: int)
    requires h > 0
    ensures t * h == t / h * (h * h) + t % h * h
  {
    assert t == t / h * h + t % h;
    MulDist(t / h * h, t % h, h);
    MulAssoc(t / h, h, h);
  }

  lemma SignedPartial(g: int, a: int, b: int, c: int)
    requires g > 0 && -g <= a < g && 0 <= b < 2 * g && 0 <= c < 2 * g
    ensures 0 <= a * b + c + g * (2 * g) < 2 * (g * (2 * g))
  {
    var m := 2 * g - 1;
    MulMono(a, g - 1, b);
    MulMono(-g, a, b);
    MulMono(b, m, g);
    assert (g - 1) * b == g * b - b && (-g) * b == -(g * b) && b * g == g * b;
    assert m * g == g * (2 * g) - g;
    if b == m {
      assert g * b == g * (2 * g) - g;
    } else {
      MulMono(b, m - 1, g);
      assert (m - 1) * g == g * (2 * g) - 2 * g;
    }
  }

  lemma UnsignedPartial(h: int, a: int, b: int, c: int)
    requires 0 <= a < h && 0 <= b < h && 0 <= c < h
    ensures 0 <= a * b + c < h * h
  {
    MulMono(a, h - 1, b);
    MulMono(0, a, b);
    assert (h - 1) * b == h * b - b;
    MulMono(b, h - 1, h);
    assert b * h == h * b && (h - 1) * h == h * h - h;
  }

  /** The partial sums stay within the operand range. */
  lemma PartialFits(n: nat, signed: bool, a: int, b: int, c: int)
    requires IsLane(n) && IsOperand(n / 2, signed, a) && 0 <= b < Pow2(n / 2) && 0 <= c < Pow2(n / 2)
    ensures IsOperand(n, signed, a * b + c)
  {
    hide Pow2;
    var h := Pow2(n / 2);
    Pow2Add(n / 2, n / 2);
    Pow2Step(n / 2);
    Pow2Step(n);
    var p := a * b + c;
    if signed {
      var g := Pow2(n / 2 - 1);
      SignedPartial(g, a, b, c);
      assert Pow2(n) == 2 * (g * (2 * g));
    } else {
      UnsignedPartial(h, a, b, c);
    }
  }

  // ---- Splitting an operand ----

  /** The high half of an operand is an operand of half the width. */
  lemma HighHalfFits(n: nat, signed: bool, x: int)
    requires IsLane(n) && IsOperand(n, signed, x)
    ensures IsOperand(n / 2, signed, x / Pow2(n / 2))
    ensures x == x / Pow2(n / 2) * Pow2(n / 2) + x % Pow2(n / 2) && 0 <= x % Pow2(n / 2) < Pow2(n / 2)
  {
    hide Pow2;
    var h := Pow2(n / 2);
    Pow2Add(n / 2, n / 2);
    Pow2Step(n / 2);
    Pow2Step(n);
    if signed {
      var g: int := Pow2(n / 2 - 1);
      assert Pow2(n - 1) == g * h by {
        MulAssoc(2, g, h);
      }
      Quotient(x, 0 - g, g, h);
    } else {
      Quotient(x, 0, h, h);
    }
  }

  lemma Quotient(x: int, low: int, high: int, h: int)
    requires h > 0 && low * h <= x < high * h
    ensures low <= x / h < high
  {
    var q := x / h;
    assert x == q * h + x % h;
    if q < low {
      MulMono(q + 1, low, h);
      MulDist(q, 1, h);
    }
    if q >= high {
      MulMono(high, q, h);
    }
  }

  /** The sign bit of the 64-bit word of an operand. */
  lemma SignBit(n: nat, x: int)
    requires IsLane(n) && IsOperand(n, true, x)
    ensures Bit(Word64(x), n - 1) <==> x < 0
  {
    hide Bit, Shr, Pow2, Word64, IsOperand;
    BitOfShr(Word64(x), n - 1);
    ShrLowAreDivMod(Word64(x), n - 1);
    TopBit(n, x);
  }

  lemma TopBit(n: nat, x: int)
    requires IsLane(n) && IsOperand(n, true, x)
    ensures Word64(x) / Pow2(n - 1) % 2 == 1 <==> x < 0
  {
    Pow2Values();
    hide Pow2;
    Pow2Step(n);
    if x >= 0 {
      SmallQuotient(x, Pow2(n - 1));
    } else if n < 64 {
      TopQuotient(x, n);
    }
  }

  lemma SmallQuotient(x: int, p: int)
    requires 0 <= x < p && x < WRAP
    ensures Word64(x) / p == 0
  {
  }

  lemma TopQuotient(x: int, n: nat)
    requires IsLane(n) && n < 64 && IsOperand(n, true, x) && x < 0
    ensures Word64(x) / Pow2(n - 1) % 2 == 1
  {
    Pow2Values();
    hide Pow2;
    Pow2Step(n);
    assert Word64(x) == x + WRAP;
    if n == 8 {
      assert (x + WRAP) / 0x80 == WRAP / 0x80 - 1;
    } else if n == 16 {
      assert (x + WRAP) / 0x8000 == WRAP / 0x8000 - 1;
    } else {
      assert (x + WRAP) / 0x8000_0000 == WRAP / 0x8000_0000 - 1;
    }
  }

  function SignExtension(n: nat, signed: bool, x: int): nat
    requires IsLane(n)
  {
    if signed && x < 0 then HighOnes(n / 2) else 0
  }

  /** A logical shift of the word, with the upper bits set for a negative operand,
      is the word of the operand's high half. */
  lemma ShiftedWord(n: nat, signed: bool, x: int)
    requires IsLane(n) && IsOperand(n, signed, x)
    ensures Or(Shr(Word64(x), n / 2), SignExtension(n, signed, x)) == Word64(x / Pow2(n / 2))
  {
    hide Pow2, Or, Shr, HighOnes, Word64;
    var w, p := Word64(x), Pow2(n / 2);
    ShrLowAreDivMod(w, n / 2);
    if signed && x < 0 {
      NegativeShift(n, x);
      OrHighOnes(w / p, n / 2);
    } else {
      OrZero(w / p);
      PositiveShift(n, signed, x);
    }
  }

  lemma PositiveShift(n: nat, signed: bool, x: int)
    requires IsLane(n) && IsOperand(n, signed, x) && x >= 0
    ensures Word64(x) / Pow2(n / 2) == Word64(x / Pow2(n / 2))
  {
    Pow2Values();
    hide Pow2;
    Pow2Step(n);
    assert x < WRAP;
    DivBelow(x, Pow2(n / 2));
  }

  lemma DivBelow(x: int, p: int)
    requires x >= 0 && p > 0
    ensures 0 <= x / p <= x
  {
    var q := x / p;
    assert x == q * p + x % p;
    if q < 0 {
      MulMono(q, -1, p);
    }
    MulMono(1, p, if q < 0 then 0 else q);
  }

  lemma NegativeShift(n: nat, x: int)
    requires IsLane(n) && IsOperand(n, true, x) && x < 0
    ensures var p := Pow2(n / 2);
            Word64(x) / p < WRAP && HighOnes(n / 2) + Word64(x) / p % p == Word64(x / p)
  {
    Pow2Values();
    hide Pow2;
    var p, m, k := Pow2(n / 2), Pow2(64 - n / 2), Pow2(64 - n);
    Pow2Add(64 - n / 2, n / 2);
    Pow2Add(64 - n, n / 2);
    HighHalfFits(n, true, x);
    Pow2Step(n / 2);
    var q := x / p;
    assert Word64(x) == x + m * p by {
      Pow2Step(n);
    }
    MulDist(q, m, p);
    DivUnique(Word64(x), p, q + m, x % p);
    assert q + m == (k - 1) * p + (q + p) by {
      MulDist(k, -1, p);
    }
    DivUnique(q + m, p, k - 1, q + p);
  }

  /** The same for an arithmetic shift, where the upper bits are set already. */
  lemma ArithmeticShiftedWord(n: nat, signed: bool, x: int)
    requires IsLane(n) && IsOperand(n, signed, x)
    ensures Or(Word64(x / Pow2(n / 2)), SignExtension(n, signed, x)) == Word64(x / Pow2(n / 2))
  {
    Pow2Values();
    hide Pow2, Or;
    var p := Pow2(n / 2);
    HighHalfFits(n, signed, x);
    Pow2Step(n / 2);
    var q := x / p;
    if signed && x < 0 {
      assert q < 0;
      OrHighOnes(Word64(q), n / 2);
      NegativeLow(q, p);
    } else {
      OrZero(Word64(q));
    }
  }

  lemma NegativeLow(q: int, p: int)
    requires p == 0x10 || p == 0x100 || p == 0x1_0000 || p == 0x1_0000_0000
    requires -p <= q < 0
    ensures WRAP - p + Word64(q) % p == Word64(q)
  {
    assert Word64(q) == q + WRAP;
    assert (q + WRAP) % p == q + p;
  }

  // ---- The multiplication ----

  /** The low half of a word is the low half of the integer. */
  lemma LowHalf(n: nat, x: int)
    requires IsLane(n)
    ensures And(Word64(x), Pow2(n / 2) - 1) == x % Pow2(n / 2)
  {
    hide And, Pow2, Word64;
    AndMask(Word64(x), n / 2);
    ShrLowAreDivMod(Word64(x), n / 2);
    LowOfWrapped(n, x);
  }

  lemma LowOfWrapped(n: nat, x: int)
    requires IsLane(n)
    ensures Word64(x) % Pow2(n / 2) == x % Pow2(n / 2)
  {
    Pow2Values();
    hide Pow2;
    Pow2Add(64 - n / 2, n / 2);
    var p, m, q := Pow2(n / 2), Pow2(64 - n / 2), x / WRAP;
    var w := Word64(x);
    assert x == q * (m * p) + w && w == w / p * p + w % p;
    MulAssoc(q, m, p);
    MulDist(q * m, w / p, p);
    DivUnique(x, p, q * m + w / p, w % p);
  }

  /** The upper bits that a word gets when its half is shifted down. */
  method Extension(n: nat, signed: bool, w: nat, ghost x: int) returns (extension: nat)
    requires IsLane(n) && IsOperand(n, signed, x) && w == Word64(x)
    ensures extension == SignExtension(n, signed, x)
  {
    hide Pow2, And, Shl, IsOperand, Word64;
    var signMask := Shl(1, n - 1);
    BitTest(w, n - 1);
    if signed {
      SignBit(n, x);
    }
    extension := if And(w, signMask) != 0 && signed then HighOnes(n / 2) else 0;
  }

  // ---- 64-bit products and sums ----

  function Mul64(a: nat, b: nat): nat {
    Word64(a * b)
  }

  function Add64(a: nat, b: nat): nat {
    Word64(a + b)
  }

  /** a * b + c over the integers. */
  ghost function Sum(a: int, b: int, c: int): int {
    a * b + c
  }

  /** Multiplying and adding words is multiplying and adding integers. */
  lemma MulAdd(a: int, b: int, c: int)
    ensures Add64(Mul64(Word64(a), Word64(b)), Word64(c)) == Word64(Sum(a, b, c))
  {
    var ab := a * b;
    MulWraps(a, Word64(b));
    MulWraps(b, a);
    assert Mul64(Word64(a), Word64(b)) == Word64(ab);
    AddWraps(ab, Word64(c));
    AddWraps(ab, c);
  }

  lemma AddWords(a: int, b: int)
    ensures Add64(Word64(a), Word64(b)) == Word64(a + b)
  {
    AddWraps(a, Word64(b));
    AddWraps(a, b);
  }

  /** The product of the low halves does not wrap, and its high half is small. */
  lemma LowProduct(n: nat, u: int, v: int)
    requires IsLane(n) && 0 <= u < Pow2(n / 2) && 0 <= v < Pow2(n / 2)
    ensures Mul64(u, v) == u * v && 0 <= u * v / Pow2(n / 2) < Pow2(n / 2)
  {
    Pow2Values();
    hide Pow2;
    var p := Pow2(n / 2);
    UnsignedPartial(p, u, v, 0);
    MulMono(0, u, v);
    Quotient(u * v, 0, p, p);
    MulMono(p, 0x1_0000_0000, 0x1_0000_0000);
    MulMono(p, 0x1_0000_0000, p);
  }

  /** A small integer is its own word. */
  lemma SmallWord(n: nat, x: int)
    requires IsLane(n) && 0 <= x < Pow2(n / 2)
    ensures Word64(x) == x
  {
    Pow2Values();
    hide Pow2;
  }

  /** The high half of a 64-bit word that stands for an operand. */
  method HighHalf(n: nat, signed: bool, w: nat, ghost x: int) returns (high: nat)
    requires IsLane(n) && IsOperand(n, signed, x) && w == Word64(x)
    ensures high == Word64(x / Pow2(n / 2))
  {
    hide Pow2, Or, Shr, IsOperand, Word64, SignExtension, IsLane;
    var extension := Extension(n, signed, w, x);
    ShiftedWord(n, signed, x);
    high := Or(Shr(w, n / 2), extension);
  }

  /** The halves of an operand as 64-bit words. */
  method Halves(n: nat, signed: bool, x: int) returns (low: nat, high: nat)
    requires IsLane(n) && IsOperand(n, signed, x)
    ensures low == x % Pow2(n / 2) && high == Word64(x / Pow2(n / 2))
  {
    hide Pow2, Or, And, IsOperand, Word64, SignExtension, IsLane;
    LowHalf(n, x);
    low := And(Word64(x), Pow2(n / 2) - 1);
    var extension := Extension(n, signed, Word64(x), x);
    ArithmeticShiftedWord(n, signed, x);
    high := Or(Word64(x / Pow2(n / 2)), extension);
  }

  lemma SumFits(n: nat, signed: bool, a: int, b: int, c: int)
    requires IsLane(n) && IsOperand(n / 2, signed, a) && 0 <= b < Pow2(n / 2) && 0 <= c < Pow2(n / 2)
    ensures IsOperand(n, signed, Sum(a, b, c)) && IsOperand(n, signed, Sum(b, a, c))
  {
    PartialFits(n, signed, a, b, c);
    assert a * b == b * a;
  }

  /** The carries of the schoolbook product add up to its high half. */
  lemma HighSum(n: nat, u: int, v: int)
    requires IsLane(n)
    ensures var h := Pow2(n / 2);
            var t := Sum(u / h, v % h, u % h * (v % h) / h);
            var s := Sum(u % h, v / h, t % h);
            Sum(u / h, v / h, t / h) + s / h == u * v / Pow2(n)
  {
    hide Pow2;
    var h := Pow2(n / 2);
    Pow2Add(n / 2, n / 2);
    assert u == u / h * h + u % h && v == v / h * h + v % h;
    HighFromHalves(u / h, u % h, v / h, v % h, h);
  }

  lemma ResultFits(n: nat, signed: bool, u: int, v: int)
    requires IsLane(n) && IsOperand(n, signed, u) && IsOperand(n, signed, v) && (signed || n < 64)
    ensures AsInt64(Word64(u * v / Pow2(n))) == u * v / Pow2(n)
  {
    Pow2Values();
    hide Pow2;
    var p := Pow2(n);
    Pow2Step(n);
    if signed {
      var g := Pow2(n - 1);
      ProductBounds(g, u, v);
      Quotient(u * v, 0 - g as int, g, p);
    } else {
      UnsignedPartial(p, u, v, 0);
      MulMono(0, u, v);
      Quotient(u * v, 0, p, p);
    }
  }

  lemma ProductBounds(g: int, u: int, v: int)
    requires g > 0 && -g <= u < g && -g <= v < g
    ensures -g * (2 * g) <= u * v < g * (2 * g)
  {
    var a, b := if u < 0 then -u else u, if v < 0 then -v else v;
    assert u * v == a * b || u * v == -(a * b);
    MagnitudeBound(g, a, b);
  }

  lemma MagnitudeBound(g: int, a: int, b: int)
    requires g > 0 && 0 <= a <= g && 0 <= b <= g
    ensures 0 <= a * b < g * (2 * g)
  {
    MulMono(0, a, b);
    MulMono(a, g, b);
    MulMono(b, g, g);
    assert g * b == b * g && g * (2 * g) == 2 * (g * g);
    MulAtLeast(g, g);
  }

  /** The result is the high half of the product, as a 64-bit signed integer; for
      signed operands and for lanes narrower than 64 bits it is the high half itself. */
  method MultiplyHigh(n: nat, signed: bool, u: int, v: int) returns (result: int)
    requires IsLane(n) && IsOperand(n, signed, u) && IsOperand(n, signed, v)
    ensures result == AsInt64(Word64(u * v / Pow2(n)))
    ensures signed || n < 64 ==> result == u * v / Pow2(n)
  {
    hide And, Shr, Pow2, IsOperand, Word64, AsInt64, IsLane, Mul64, Add64, Sum;
    ghost var h := Pow2(n / 2);
    HighHalfFits(n, signed, u);
    HighHalfFits(n, signed, v);
    var u0, u1 := Halves(n, signed, u);
    var v0, v1 := Halves(n, signed, v);
    SmallWord(n, u0);
    SmallWord(n, v0);

    var w0 := Mul64(u0, v0);
    LowProduct(n, u0, v0);
    ShrLowAreDivMod(w0, n / 2);
    SmallWord(n, w0 / h);
    var t := Add64(Mul64(u1, v0), Shr(w0, n / 2));
    ghost var cross := Sum(u / h, v % h, w0 / h);
    MulAdd(u / h, v % h, w0 / h);
    SumFits(n, signed, u / h, v % h, w0 / h);

    var w1 := And(t, Pow2(n / 2) - 1);
    LowHalf(n, cross);
    SmallWord(n, cross % h);
    var w2 := HighHalf(n, signed, t, cross);
    w1 := Add64(Mul64(u0, v1), w1);
    ghost var rest := Sum(u % h, v / h, cross % h);
    MulAdd(u % h, v / h, cross % h);
    SumFits(n, signed, v / h, u % h, cross % h);
    w1 := HighHalf(n, signed, w1, rest);

    MulAdd(u / h, v / h, cross / h);
    AddWords(Sum(u / h, v / h, cross / h), rest / h);
    HighSum(n, u, v);
    var value := Add64(Add64(Mul64(u1, v1), w2), w1);
    if signed || n < 64 {
      ResultFits(n, signed, u, v);
    }
    result := AsInt64(value);
  }
}
