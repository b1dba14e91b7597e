/** Machine words as natural numbers. `Bit(n, j)` is bit j of n; `And`, `Or` and
    `Xor` are the bitwise operators, `Shl` and `Shr` the shifts, and `Low(n, k)`
    keeps the low k bits, which is also truncation to a k-bit word. */
module Bits {

  function Pow2(e: nat): (p: nat)
    ensures 1 <= p
  {
    if e == 0 then 1 else 2 * Pow2(e - 1)
  }

  predicate Bit(n: nat, j: nat)
    decreases j
  {
    if j == 0 then n % 2 == 1 else Bit(n / 2, j - 1)
  }

  function And(x: nat, y: nat): nat
    decreases x
  {
    if x == 0 || y == 0 then 0
    else 2 * And(x / 2, y / 2) + (if x % 2 == 1 && y % 2 == 1 then 1 else 0)
  }

  function Or(x: nat, y: nat): nat
    decreases x + y
  {
    if x == 0 && y == 0 then 0
    else 2 * Or(x / 2, y / 2) + (if x % 2 == 1 || y % 2 == 1 then 1 else 0)
  }

  function Xor(x: nat, y: nat): nat
    decreases x + y
  {
    if x == 0 && y == 0 then 0
    else 2 * Xor(x / 2, y / 2) + (if x % 2 != y % 2 then 1 else 0)
  }

  function Shl(n: nat, k: nat): nat
    decreases k
  {
    if k == 0 then n else 2 * Shl(n, k - 1)
  }

  function Shr(n: nat, k: nat): nat
    decreases k
  {
    if k == 0 then n else Shr(n / 2, k - 1)
  }

  function Low(n: nat, k: nat): nat
    decreases k
  {
    if k == 0 then 0 else 2 * Low(n / 2, k - 1) + n % 2
  }

  /** The position of the highest set bit. */
  function HighBit(n: nat): nat
    requires n > 0
  {
    if n == 1 then 0 else 1 + HighBit(n / 2)
  }

  /** The position of the lowest set bit. */
  function LowBit(n: nat): nat
    requires n > 0
  {
    if n % 2 == 1 then 0 else 1 + LowBit(n / 2)
  }

  // ---- Powers of two ----

  lemma {:induction false} Pow2Add(a: nat, b: nat)
    ensures Pow2(a + b) == Pow2(a) * Pow2(b)
  {
    if a == 0 {
    } else {
      Pow2Add(a - 1, b);
      MulAssoc(2, Pow2(a - 1), Pow2(b));
    }
  }

  lemma MulAssoc(a: int, b: int, c: int)
    ensures a * (b * c) == (a * b) * c
  {
  }

  lemma {:induction false} Pow2Grows(a: nat, b: nat)
    requires a < b
    ensures 2 * Pow2(a) <= Pow2(b)
    decreases b
  {
    if a < b - 1 {
      Pow2Grows(a, b - 1);
    }
  }

  lemma Pow2AtMost(a: nat, b: nat)
    requires a <= b
    ensures Pow2(a) <= Pow2(b)
  {
    if a < b {
      Pow2Grows(a, b);
    }
  }

  lemma {:induction false} HighBitBounds(n: nat)
    requires n > 0
    ensures Pow2(HighBit(n)) <= n < 2 * Pow2(HighBit(n))
  {
    if n == 1 {
    } else {
      HighBitBounds(n / 2);
    }
  }

  lemma HighBitUnique(n: nat, h: nat)
    requires Pow2(h) <= n < 2 * Pow2(h)
    ensures n > 0 && HighBit(n) == h
  {
    HighBitBounds(n);
    if HighBit(n) < h {
      Pow2Grows(HighBit(n), h);
    } else if h < HighBit(n) {
      Pow2Grows(h, HighBit(n));
    }
  }

  lemma Pow2Values()
    ensures Pow2(0) == 0x1 && Pow2(1) == 0x2 && Pow2(2) == 0x4 && Pow2(3) == 0x8
    ensures Pow2(4) == 0x10 && Pow2(5) == 0x20 && Pow2(6) == 0x40 && Pow2(7) == 0x80
    ensures Pow2(8) == 0x100 && Pow2(9) == 0x200 && Pow2(10) == 0x400 && Pow2(11) == 0x800
    ensures Pow2(13) == 0x2000 && Pow2(15) == 0x8000 && Pow2(16) == 0x1_0000
    ensures Pow2(22) == 0x40_0000 && Pow2(23) == 0x80_0000 && Pow2(24) == 0x100_0000
    ensures Pow2(29) == 0x2000_0000 && Pow2(31) == 0x8000_0000 && Pow2(32) == 0x1_0000_0000
    ensures Pow2(42) == 0x400_0000_0000 && Pow2(48) == 0x1_0000_0000_0000
    ensures Pow2(51) == 0x8_0000_0000_0000 && Pow2(52) == 0x10_0000_0000_0000
    ensures Pow2(54) == 0x40_0000_0000_0000
    ensures Pow2(56) == 0x100_0000_0000_0000 && Pow2(60) == 0x1000_0000_0000_0000
    ensures Pow2(62) == 0x4000_0000_0000_0000 && Pow2(63) == 0x8000_0000_0000_0000
    ensures Pow2(64) == 0x1_0000_0000_0000_0000
  {
    assert Pow2(8) == 0x100;
    assert Pow2(16) == 0x1_0000;
    assert Pow2(24) == 0x100_0000;
    assert Pow2(32) == 0x1_0000_0000;
    assert Pow2(40) == 0x100_0000_0000;
    assert Pow2(48) == 0x1_0000_0000_0000;
    assert Pow2(56) == 0x100_0000_0000_0000;
  }

  lemma Pow2Step(e: nat)
    requires e > 0
    ensures Pow2(e) == 2 * Pow2(e - 1)
  {
  }

  lemma HighBitVersus(v: nat, k: nat)
    requires v > 0
    ensures v < Pow2(k) <==> HighBit(v) < k
  {
    HighBitBounds(v);
    if HighBit(v) + 1 < k {
      Pow2Grows(HighBit(v) + 1, k);
    } else if k < HighBit(v) {
      Pow2Grows(k, HighBit(v));
    }
  }

  // ---- Division by a positive number ----

  lemma MulDist(a: int, b: int, c: int)
    ensures (a + b) * c == a * c + b * c
  {
  }

  lemma MulAtLeast(a: int, d: int)
    requires a >= 1 && d >= 0
    ensures a * d >= d
  {
  }

  lemma MulMono(a: int, b: int, c: int)
    requires a <= b && c >= 0
    ensures a * c <= b * c
  {
  }

  lemma DivUnique(n: int, d: int, q: int, r: int)
    requires d > 0 && n == q * d + r && 0 <= r < d
    ensures n / d == q && n % d == r
  {
    var k := n / d;
    assert n == k * d + n % d;
    if k < q {
      MulMono(k + 1, q, d);
      MulDist(k, 1, d);
    } else if k > q {
      MulMono(q + 1, k, d);
      MulDist(q, 1, d);
    }
  }

  // ---- Shifts as arithmetic ----

  lemma {:induction false} ShlIsMul(n: nat, k: nat)
    ensures Shl(n, k) == n * Pow2(k)
  {
    if k > 0 {
      ShlIsMul(n, k - 1);
      MulAssoc(n, 2, Pow2(k - 1));
      MulAssoc(2, n, Pow2(k - 1));
    }
  }

  lemma {:induction false} ShlAdd(a: nat, b: nat, k: nat)
    ensures Shl(a + b, k) == Shl(a, k) + Shl(b, k)
    decreases k
  {
    if k > 0 {
      ShlAdd(a, b, k - 1);
    }
  }

  lemma {:induction false} ShlShl(a: nat, i: nat, k: nat)
    ensures Shl(Shl(a, i), k) == Shl(a, i + k)
    decreases k
  {
    if k > 0 {
      ShlShl(a, i, k - 1);
    }
  }

  lemma {:induction false} ShlLess(a: nat, b: nat, k: nat)
    ensures Shl(a, k) < Shl(b, k) <==> a < b
    ensures Shl(a, k) == Shl(b, k) <==> a == b
    decreases k
  {
    if k > 0 {
      ShlLess(a, b, k - 1);
    }
  }

  lemma ShlEven(w: nat, j: nat)
    requires j >= 1
    ensures Shl(w, j) % 2 == 0
  {
  }

  lemma {:induction false} ShlOfOne(k: nat)
    ensures Shl(1, k) == Pow2(k) && Shl(0, k) == 0
    decreases k
  {
    if k > 0 {
      ShlOfOne(k - 1);
    }
  }

  lemma ShlHighBit(w: nat, j: nat)
    requires w > 0
    ensures Shl(w, j) > 0 && HighBit(Shl(w, j)) == HighBit(w) + j
  {
    hide *;
    var h := HighBit(w);
    HighBitBounds(w);
    Pow2Step(h + 1);
    Pow2Step(h + 1 + j);
    ShlLess(w, Pow2(h), j);
    ShlLess(w, Pow2(h + 1), j);
    ShlOfOne(h);
    ShlOfOne(h + 1);
    ShlOfOne(h + j);
    ShlOfOne(h + 1 + j);
    ShlShl(1, h, j);
    ShlShl(1, h + 1, j);
    HighBitUnique(Shl(w, j), h + j);
  }

  lemma HighBitBelow(w: nat, k: nat)
    requires 0 < w < Pow2(k)
    ensures HighBit(w) < k
  {
    HighBitBounds(w);
    if k < HighBit(w) {
      Pow2Grows(k, HighBit(w));
    }
  }

  /** A word is its high part, shifted back, plus its low part. */
  lemma {:induction false} Split(n: nat, k: nat)
    ensures n == Shr(n, k) * Pow2(k) + Low(n, k)
    ensures Low(n, k) < Pow2(k)
    decreases k
  {
    if k > 0 {
      Split(n / 2, k - 1);
      MulAssoc(Shr(n, k), 2, Pow2(k - 1));
      MulAssoc(2, Shr(n, k), Pow2(k - 1));
    }
  }

  lemma SplitUnique(n: nat, k: nat, q: nat, r: nat)
    requires n == q * Pow2(k) + r && r < Pow2(k)
    ensures Shr(n, k) == q && Low(n, k) == r
  {
    Split(n, k);
    DivUnique(n, Pow2(k), q, r);
    DivUnique(n, Pow2(k), Shr(n, k), Low(n, k));
  }

  lemma ShrLowAreDivMod(n: nat, k: nat)
    ensures Shr(n, k) == n / Pow2(k) && Low(n, k) == n % Pow2(k)
  {
    Split(n, k);
    DivUnique(n, Pow2(k), Shr(n, k), Low(n, k));
  }

  lemma LowOfSmall(n: nat, k: nat)
    requires n < Pow2(k)
    ensures Low(n, k) == n && Shr(n, k) == 0
  {
    SplitUnique(n, k, 0, n);
  }

  // ---- Bits of a word ----

  lemma {:induction false} BitZero(j: nat)
    ensures !Bit(0, j)
  {
    if j > 0 {
      BitZero(j - 1);
    }
  }

  lemma {:induction false} BitAnd(x: nat, y: nat, j: nat)
    ensures Bit(And(x, y), j) <==> Bit(x, j) && Bit(y, j)
    decreases j
  {
    if x == 0 || y == 0 {
      BitZero(j);
    } else if j > 0 {
      BitAnd(x / 2, y / 2, j - 1);
    }
  }

  lemma {:induction false} BitOr(x: nat, y: nat, j: nat)
    ensures Bit(Or(x, y), j) <==> Bit(x, j) || Bit(y, j)
    decreases j
  {
    if x == 0 && y == 0 {
      BitZero(j);
    } else if j > 0 {
      BitOr(x / 2, y / 2, j - 1);
    }
  }

  lemma {:induction false} BitXor(x: nat, y: nat, j: nat)
    ensures Bit(Xor(x, y), j) <==> Bit(x, j) != Bit(y, j)
    decreases j
  {
    if x == 0 && y == 0 {
      BitZero(j);
    } else if j > 0 {
      BitXor(x / 2, y / 2, j - 1);
    }
  }

  lemma {:induction false} BitShr(n: nat, k: nat, j: nat)
    ensures Bit(Shr(n, k), j) <==> Bit(n, j + k)
    decreases k
  {
    if k > 0 {
      BitShr(n / 2, k - 1, j);
    }
  }

  lemma {:induction false} BitShl(n: nat, k: nat, j: nat)
    ensures Bit(Shl(n, k), j) <==> k <= j && Bit(n, j - k)
    decreases k
  {
    if k > 0 && j > 0 {
      BitShl(n, k - 1, j - 1);
    }
  }

  lemma {:induction false} BitLow(n: nat, k: nat, j: nat)
    ensures Bit(Low(n, k), j) <==> j < k && Bit(n, j)
    decreases j
  {
    if k == 0 {
      BitZero(j);
    } else {
      assert Low(n, k) / 2 == Low(n / 2, k - 1) && Low(n, k) % 2 == n % 2;
      if j > 0 {
        BitLow(n / 2, k - 1, j - 1);
      }
    }
  }

  /** A word below 2^k has no bit from k up. */
  lemma BitHigh(n: nat, k: nat, j: nat)
    requires n < Pow2(k) && k <= j
    ensures !Bit(n, j)
  {
    BitLow(n, k, j);
    LowOfSmall(n, k);
  }

  lemma {:induction false} BitOfPow2(k: nat, j: nat)
    ensures Bit(Pow2(k), j) <==> j == k
  {
    BitShl(1, k, j);
    ShlIsMul(1, k);
    if k < j {
      BitZero(j - k - 1);
    }
  }

  /** The complement of a 64-bit word. */
  function Not64(x: nat): nat {
    Xor(x, 0xffff_ffff_ffff_ffff)
  }

  lemma BitNot64(x: nat, j: nat)
    ensures Bit(Not64(x), j) <==> Bit(x, j) != (j < 64)
  {
    Pow2Values();
    BitXor(x, 0xffff_ffff_ffff_ffff, j);
    BitOfMask(64, j);
  }

  lemma {:induction false} BitOfMask(k: nat, j: nat)
    ensures Bit(Pow2(k) - 1, j) <==> j < k
    decreases j
  {
    if k == 0 {
      BitZero(j);
    } else if j > 0 {
      assert (Pow2(k) - 1) / 2 == Pow2(k - 1) - 1;
      BitOfMask(k - 1, j - 1);
    }
  }

  /** Words with the same bits are the same word. */
  lemma {:induction false} SameBits(x: nat, y: nat)
    requires forall j: nat :: Bit(x, j) == Bit(y, j)
    ensures x == y
    decreases x + y
  {
    if x != 0 || y != 0 {
      assert Bit(x, 0) == Bit(y, 0);
      forall j: nat
        ensures Bit(x / 2, j) == Bit(y / 2, j)
      {
        assert Bit(x, j + 1) == Bit(y, j + 1);
      }
      SameBits(x / 2, y / 2);
    }
  }

  lemma {:induction false} OrZero(x: nat)
    ensures Or(x, 0) == x && Or(0, x) == x
  {
    if x > 0 {
      OrZero(x / 2);
    }
  }

  /** An `or` of two words that share no bit is their sum. */
  lemma {:induction false} OrIsSum(a: nat, k: nat, b: nat)
    requires b < Pow2(k)
    ensures Or(Shl(a, k), b) == Shl(a, k) + b
    ensures Or(b, Shl(a, k)) == Shl(a, k) + b
    decreases k
  {
    if k == 0 {
      OrZero(a);
    } else {
      OrIsSum(a, k - 1, b / 2);
    }
  }

  /** A bitwise `and` works on the high and the low part separately. */
  lemma AndSplit(x: nat, y: nat, k: nat)
    ensures Shr(And(x, y), k) == And(Shr(x, k), Shr(y, k))
    ensures Low(And(x, y), k) == And(Low(x, k), Low(y, k))
  {
    hide *;
    forall j: nat
      ensures Bit(Shr(And(x, y), k), j) == Bit(And(Shr(x, k), Shr(y, k)), j)
      ensures Bit(Low(And(x, y), k), j) == Bit(And(Low(x, k), Low(y, k)), j)
    {
      BitShr(And(x, y), k, j);
      BitAnd(x, y, j + k);
      BitAnd(Shr(x, k), Shr(y, k), j);
      BitShr(x, k, j);
      BitShr(y, k, j);
      BitLow(And(x, y), k, j);
      BitAnd(x, y, j);
      BitAnd(Low(x, k), Low(y, k), j);
      BitLow(x, k, j);
      BitLow(y, k, j);
    }
    SameBits(Shr(And(x, y), k), And(Shr(x, k), Shr(y, k)));
    SameBits(Low(And(x, y), k), And(Low(x, k), Low(y, k)));
  }

  /** Masking with k ones keeps the low k bits. */
  lemma {:induction false} AndMask(x: nat, k: nat)
    ensures And(x, Pow2(k) - 1) == Low(x, k)
    decreases k
  {
    if k > 0 {
      AndMask(x / 2, k - 1);
      AndStep(x, Pow2(k) - 1);
    }
  }

  lemma AndZero(x: nat)
    ensures And(x, 0) == 0
  {
  }

  lemma AndStep(x: nat, y: nat)
    ensures And(x, y) == 2 * And(x / 2, y / 2) + (if x % 2 == 1 && y % 2 == 1 then 1 else 0)
  {
  }

  lemma ZeroBits()
    ensures forall j: nat :: !Bit(0, j)
  {
    forall j: nat
      ensures !Bit(0, j)
    {
      BitZero(j);
    }
  }

  lemma AndOne(x: nat)
    ensures And(x, 1) == x % 2
  {
    AndStep(x, 1);
    AndZero(x / 2);
  }

  lemma ShrOne(x: nat)
    ensures Shr(x, 1) == x / 2
  {
  }

  /** Masking a word with a single bit tests that bit. */
  lemma BitTest(x: nat, k: nat)
    ensures And(x, Shl(1, k)) == 0 <==> !Bit(x, k)
  {
    hide *;
    ShlOfOne(k);
    forall j: nat
      ensures Bit(And(x, Shl(1, k)), j) <==> Bit(x, k) && j == k
      ensures !Bit(0, j)
    {
      BitAnd(x, Shl(1, k), j);
      BitOfPow2(k, j);
      BitZero(j);
    }
    assert Bit(And(x, Shl(1, k)), k) == Bit(x, k) && !Bit(0, k);
    if !Bit(x, k) {
      SameBits(And(x, Shl(1, k)), 0);
    }
  }

  /** Bit k of a word is the lowest bit of the word shifted down by k. */
  lemma BitOfShr(x: nat, k: nat)
    ensures Bit(x, k) <==> Shr(x, k) % 2 == 1
  {
    BitShr(x, k, 0);
  }

  /** A word with one more bit set is greater by that power of two. */
  lemma {:induction false} AddBit(x: nat, y: nat, k: nat)
    requires !Bit(x, k) && forall j: nat :: Bit(y, j) <==> Bit(x, j) || j == k
    ensures y == x + Pow2(k)
    decreases k
  {
    forall j: nat
      ensures Bit(y / 2, j) <==> Bit(x / 2, j) || (k > 0 && j == k - 1)
    {
      assert Bit(y, j + 1) <==> Bit(x, j + 1) || j + 1 == k;
    }
    assert Bit(y, 0) <==> Bit(x, 0) || k == 0;
    if k == 0 {
      SameBits(y / 2, x / 2);
    } else {
      AddBit(x / 2, y / 2, k - 1);
    }
  }

  // ---- Words given bit by bit ----

  /** The n-bit word whose bit j is f(j). */
  function Word(n: nat, f: nat -> bool): nat {
    if n == 0 then 0 else Word(n - 1, f) + (if f(n - 1) then Pow2(n - 1) else 0)
  }

  lemma {:induction false} WordBits(n: nat, f: nat -> bool)
    ensures Word(n, f) < Pow2(n)
    ensures forall j: nat :: Bit(Word(n, f), j) <==> j < n && f(j)
  {
    if n == 0 {
      forall j: nat
        ensures !Bit(0, j)
      {
        BitZero(j);
      }
    } else {
      WordBits(n - 1, f);
      var low := Word(n - 1, f);
      forall j: nat
        ensures Bit(Word(n, f), j) <==> j < n && f(j)
      {
        SetBit(low, n - 1, j);
        BitHigh(low, n - 1, if j < n - 1 then n - 1 else j);
      }
    }
  }

  /** Adding 2^k to a word below 2^k sets its bit k. */
  lemma SetBit(low: nat, k: nat, j: nat)
    requires low < Pow2(k)
    ensures Bit(low + Pow2(k), j) <==> Bit(low, j) || j == k
  {
    ShlOfOne(k);
    OrIsSum(1, k, low);
    BitOr(low, Pow2(k), j);
    BitOfPow2(k, j);
  }

  /** The j-th bits decide equality of n-bit words. */
  lemma SameWord(n: nat, x: nat, y: nat)
    requires x < Pow2(n) && y < Pow2(n)
    requires forall j: nat :: j < n ==> Bit(x, j) == Bit(y, j)
    ensures x == y
  {
    forall j: nat
      ensures Bit(x, j) == Bit(y, j)
    {
      if n <= j {
        BitHigh(x, n, j);
        BitHigh(y, n, j);
      }
    }
    SameBits(x, y);
  }
}
