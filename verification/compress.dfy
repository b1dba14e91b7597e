/** Extracting the bits under a mask in five rounds of masks and shifts. The bit at
    position i has to move down by the number of clear mask bits below it; round t
    moves it by 2^t if that number has its bit t set. */
module Compression {
  import opened Bits
  import opened DecodeTables
  import CompilerIntrinsics

  const ONES32: nat := 0xffff_ffff

  /** The number of set bits below position j. */
  function Count(n: nat, j: nat): (c: nat)
    ensures c <= j
  {
    if j == 0 then 0 else Count(n, j - 1) + if Bit(n, j - 1) then 1 else 0
  }

  /** How far the bit at position j has to move: the clear mask bits below it. */
  function Distance(mask: nat, j: nat): nat {
    j - Count(mask, j)
  }

  lemma {:induction false} CountMonotone(n: nat, i: nat, j: nat)
    requires i <= j
    ensures Count(n, i) <= Count(n, j) <= Count(n, i) + (j - i)
    decreases j - i
  {
    if i < j {
      CountMonotone(n, i, j - 1);
    }
  }

  // ---- The bits gathered by the specification ----

  /** Some mask bit that is set in the word has exactly r mask bits below it. */
  ghost predicate Lands(word: nat, mask: nat, r: nat) {
    exists i: nat :: IsSource(word, mask, r, i)
  }

  predicate IsSource(word: nat, mask: nat, r: nat, i: nat) {
    Bit(mask, i) && Bit(word, i) && Count(mask, i) == r
  }

  lemma {:induction false} CountHalf(n: nat, j: nat)
    ensures Count(n, j + 1) == Count(n / 2, j) + n % 2
  {
    if j == 0 {
      assert Count(n, 1) == Count(n, 0) + if Bit(n, 0) then 1 else 0;
    } else {
      CountHalf(n, j - 1);
    }
  }

  /** The count of set bits is the number of positions with a set bit. */
  lemma {:induction false} PopCountIsCount(n: nat, k: nat)
    requires n < Pow2(k)
    ensures CompilerIntrinsics.PopCount(n) == Count(n, k)
    decreases k
  {
    hide Bit;
    if k == 0 {
      NoneBelow(n);
    } else {
      Pow2Step(k);
      PopCountIsCount(n / 2, k - 1);
      CountHalf(n, k - 1);
    }
  }

  lemma SourceHalf(word: nat, mask: nat, r: nat, i: nat)
    ensures IsSource(word / 2, mask / 2, r, i) <==> IsSource(word, mask, r + mask % 2, i + 1)
  {
    CountHalf(mask, i);
  }

  lemma LandsHalf(word: nat, mask: nat, r: nat)
    ensures Lands(word / 2, mask / 2, r) ==> Lands(word, mask, r + mask % 2)
    ensures Lands(word, mask, r) ==>
              if mask % 2 == 1 && r == 0 then word % 2 == 1
              else r >= mask % 2 && Lands(word / 2, mask / 2, r - mask % 2)
    ensures mask % 2 == 1 && word % 2 == 1 ==> Lands(word, mask, 0)
  {
    hide Count;
    if i: nat :| IsSource(word / 2, mask / 2, r, i) {
      SourceHalf(word, mask, r, i);
    }
    if i: nat :| IsSource(word, mask, r, i) {
      if i > 0 {
        CountHalf(mask, i - 1);
        SourceHalf(word, mask, r - mask % 2, i - 1);
        assert IsSource(word / 2, mask / 2, r - mask % 2, i - 1);
      } else {
        NoneBelow(mask);
      }
    }
    if mask % 2 == 1 && word % 2 == 1 {
      NoneBelow(mask);
      assert IsSource(word, mask, 0, 0);
    }
  }

  lemma NoneBelow(mask: nat)
    ensures Count(mask, 0) == 0
  {
  }

  /** Bit r of the gathered word comes from the mask bit with r mask bits below. */
  lemma {:induction false} GatherBit(word: nat, mask: nat, r: nat)
    ensures Bit(Gather(word, mask), r) <==> Lands(word, mask, r)
    decreases mask
  {
    hide Lands;
    if mask == 0 {
      NothingLands(word, r);
      BitZero(r);
    } else {
      var g := Gather(word / 2, mask / 2);
      LandsHalf(word, mask, r);
      if mask % 2 == 1 {
        assert Gather(word, mask) == 2 * g + word % 2;
        assert Gather(word, mask) / 2 == g;
        if r > 0 {
          GatherBit(word / 2, mask / 2, r - 1);
          LandsHalf(word, mask, r - 1);
        }
      } else {
        GatherBit(word / 2, mask / 2, r);
      }
    }
  }

  lemma NothingLands(word: nat, r: nat)
    ensures !Lands(word, 0, r)
  {
    forall i: nat
      ensures !IsSource(word, 0, r, i)
    {
      BitZero(i);
    }
  }

  // ---- Where the bits are after t rounds ----

  /** The place, after t rounds, of the bit that began at i. */
  function At(mask: nat, i: nat, t: nat): (p: nat)
    ensures p <= i
  {
    var d := Distance(mask, i);
    ModBelow(d, Pow2(t));
    i - d % Pow2(t)
  }

  lemma ModBelow(d: nat, p: nat)
    requires p > 0
    ensures 0 <= d % p <= d
  {
  }

  predicate IsFrom(word: nat, mask: nat, t: nat, j: nat, i: nat) {
    Bit(mask, i) && Bit(word, i) && At(mask, i, t) == j
  }

  /** x holds the word's bits under the mask, each where t rounds have moved it. */
  ghost predicate Image(x: nat, word: nat, mask: nat, t: nat) {
    forall j: nat :: Bit(x, j) <==> Reached(word, mask, t, j)
  }

  ghost predicate Reached(word: nat, mask: nat, t: nat, j: nat) {
    exists i: nat :: IsFrom(word, mask, t, j, i)
  }

  /** y holds the bits of x, those that mp picks s places further down. */
  ghost predicate MovedDown(x: nat, y: nat, mp: nat, s: nat) {
    forall j: nat :: Bit(y, j) <==> StaysOrArrives(x, mp, s, j)
  }

  predicate StaysOrArrives(x: nat, mp: nat, s: nat, j: nat) {
    (Bit(x, j) && !Bit(mp, j)) || (Bit(x, j + s) && Bit(mp, j + s))
  }

  /** The set bits of mk up to j count the distance of j, in units of 2^t. */
  predicate Measures(mk: nat, mask: nat, t: nat) {
    forall j: nat :: j < 32 ==> Count(mk, j + 1) == Distance(mask, j) / Pow2(t)
  }

  /** mp tells at each position whether the set bits of mk up to it are odd in number. */
  predicate Parity(mp: nat, mk: nat) {
    forall j: nat :: j < 32 ==> (Bit(mp, j) <==> Count(mk, j + 1) % 2 == 1)
  }

  lemma HalveDistance(d: nat, p: nat)
    requires p > 0
    ensures d / (2 * p) == d / p / 2
    ensures d % (2 * p) == d % p + if d / p % 2 == 1 then p else 0
  {
    var q := d / p;
    assert d == q * p + d % p;
    var h, b := q / 2, q % 2;
    assert q == 2 * h + b;
    MulDist(2 * h, b, p);
    MulAssoc(h, 2, p);
    assert d == h * (2 * p) + (b * p + d % p);
    assert b * p == if b == 1 then p else 0;
    DivUnique(d, 2 * p, h, b * p + d % p);
  }

  /** A bit that has moved part of its way is still at the same whole number of
      steps from where it has to go. */
  lemma SameSteps(mask: nat, i: nat, t: nat)
    ensures Distance(mask, At(mask, i, t)) / Pow2(t) == Distance(mask, i) / Pow2(t)
  {
    hide Count, Pow2;
    var d, p := Distance(mask, i), Pow2(t);
    var r := d % p;
    CountMonotone(mask, i - r, i);
    var e := Distance(mask, i - r);
    assert d - r <= e <= d;
    assert d == d / p * p + r;
    DivUnique(e, p, d / p, e - d / p * p);
  }

  lemma NextPlace(mask: nat, i: nat, t: nat)
    ensures var p := At(mask, i, t);
            At(mask, i, t + 1) == p - (if Distance(mask, i) / Pow2(t) % 2 == 1 then Pow2(t) else 0)
  {
    hide Count, Distance;
    HalveDistance(Distance(mask, i), Pow2(t));
  }

  /** One round: the bits whose step count is odd move down by 2^t. */
  lemma MoveRound(x: nat, y: nat, mp: nat, mk: nat, word: nat, mask: nat, t: nat)
    requires Image(x, word, mask, t) && Measures(mk, mask, t) && Parity(mp, mk) && mask < Pow2(32)
    requires MovedDown(x, y, mp, Pow2(t))
    ensures Image(y, word, mask, t + 1)
  {
    hide Count, Distance, At, Pow2, Bit;
    forall j: nat
      ensures Bit(y, j) <==> Reached(word, mask, t + 1, j)
    {
      assert Bit(y, j) <==> StaysOrArrives(x, mp, Pow2(t), j);
      if Bit(y, j) {
        var from := if Bit(x, j) && !Bit(mp, j) then j else j + Pow2(t);
        assert Bit(x, from) && Bit(mp, from) == (from != j);
        var i := SourceOf(x, word, mask, t, from);
        Moves(mp, mk, mask, t, i);
        assert IsFrom(word, mask, t + 1, j, i);
      }
      if Reached(word, mask, t + 1, j) {
        var i := Origin(word, mask, t + 1, j);
        Moves(mp, mk, mask, t, i);
        assert IsFrom(word, mask, t, At(mask, i, t), i);
      }
    }
  }

  lemma SourceOf(x: nat, word: nat, mask: nat, t: nat, j: nat) returns (i: nat)
    requires Image(x, word, mask, t) && Bit(x, j)
    ensures IsFrom(word, mask, t, j, i)
  {
    hide Bit, At, IsFrom;
    i := Origin(word, mask, t, j);
  }

  lemma Origin(word: nat, mask: nat, t: nat, j: nat) returns (i: nat)
    requires Reached(word, mask, t, j)
    ensures IsFrom(word, mask, t, j, i)
  {
    hide IsFrom;
    i :| IsFrom(word, mask, t, j, i);
  }

  lemma Moves(mp: nat, mk: nat, mask: nat, t: nat, i: nat)
    requires Measures(mk, mask, t) && Parity(mp, mk) && mask < Pow2(32) && Bit(mask, i)
    ensures var p := At(mask, i, t);
            At(mask, i, t + 1) == if Bit(mp, p) then p - Pow2(t) else p
  {
    hide Count, Distance, At, Pow2, Bit;
    if 32 <= i {
      BitHigh(mask, 32, i);
    }
    NextPlace(mask, i, t);
    SameSteps(mask, i, t);
  }

  // ---- The words of a round ----

  /** n positions ending at j: the parity of mk's set bits there. */
  predicate Window(mp: nat, mk: nat, n: nat) {
    forall j: nat :: j < 32 ==> (Bit(mp, j) <==> (Count(mk, j + 1) + Count(mk, Start(j, n))) % 2 == 1)
  }

  function Start(j: nat, n: nat): nat {
    if j + 1 >= n then j + 1 - n else 0
  }

  lemma ParityChain(a: nat, b: nat, c: nat)
    ensures (a + c) % 2 == 1 <==> ((a + b) % 2 == 1) != ((b + c) % 2 == 1)
  {
  }

  lemma WindowDoubles(mp: nat, mk: nat, n: nat)
    requires Window(mp, mk, n) && n > 0
    ensures Window(Xor(mp, Low(Shl(mp, n), 32)), mk, 2 * n)
  {
    hide Bit, Xor, Low, Shl, Count;
    var next := Xor(mp, Low(Shl(mp, n), 32));
    forall j: nat | j < 32
      ensures Bit(next, j) <==> (Count(mk, j + 1) + Count(mk, Start(j, 2 * n))) % 2 == 1
    {
      BitXor(mp, Low(Shl(mp, n), 32), j);
      BitLow(Shl(mp, n), 32, j);
      BitShl(mp, n, j);
      if j >= n {
        assert Start(j, n) == (j - n) + 1 && Start(j - n, n) == Start(j, 2 * n);
        ParityChain(Count(mk, j + 1), Count(mk, Start(j, n)), Count(mk, Start(j, 2 * n)));
      } else {
        assert Start(j, n) == Start(j, 2 * n) == 0;
      }
    }
  }

  lemma WindowOfOne(mk: nat)
    ensures Window(mk, mk, 1)
  {
    hide Bit, Count;
    forall j: nat | j < 32
      ensures Bit(mk, j) <==> (Count(mk, j + 1) + Count(mk, Start(j, 1))) % 2 == 1
    {
      assert Start(j, 1) == j;
      CountNext(mk, j);
      ParityNext(Count(mk, j), if Bit(mk, j) then 1 else 0);
    }
  }

  lemma CountNext(n: nat, j: nat)
    ensures Count(n, j + 1) == Count(n, j) + if Bit(n, j) then 1 else 0
  {
  }

  lemma ParityNext(c: nat, b: nat)
    requires b < 2
    ensures (c + b + c) % 2 == b
  {
  }

  lemma WholeWindow(mp: nat, mk: nat)
    requires Window(mp, mk, 32)
    ensures Parity(mp, mk)
  {
    forall j: nat | j < 32
      ensures Bit(mp, j) <==> Count(mk, j + 1) % 2 == 1
    {
      NoneBelow(mk);
      assert Start(j, 32) == 0;
    }
  }

  method ParallelSuffix(mk: nat) returns (mp: nat)
    ensures Parity(mp, mk)
  {
    hide Window, Xor, Low, Shl, Parity;
    WindowOfOne(mk);
    WindowDoubles(mk, mk, 1);
    mp := Xor(mk, Low(Shl(mk, 1), 32));
    WindowDoubles(mp, mk, 2);
    mp := Xor(mp, Low(Shl(mp, 2), 32));
    WindowDoubles(mp, mk, 4);
    mp := Xor(mp, Low(Shl(mp, 4), 32));
    WindowDoubles(mp, mk, 8);
    mp := Xor(mp, Low(Shl(mp, 8), 32));
    WindowDoubles(mp, mk, 16);
    mp := Xor(mp, Low(Shl(mp, 16), 32));
    WholeWindow(mp, mk);
  }

  /** Keeping the set bits of mk at even counts leaves every second one. */
  lemma {:induction false} EverySecond(mk: nat, mp: nat, next: nat, j: nat)
    requires Parity(mp, mk) && j <= 32
    requires forall k: nat :: k < 32 ==> (Bit(next, k) <==> Bit(mk, k) && !Bit(mp, k))
    ensures Count(next, j) == Count(mk, j) / 2
    decreases j
  {
    hide Bit;
    if j > 0 {
      EverySecond(mk, mp, next, j - 1);
      assert Bit(mp, j - 1) <==> Count(mk, j - 1 + 1) % 2 == 1;
    }
  }

  lemma NextMeasure(mk: nat, mp: nat, next: nat, mask: nat, t: nat)
    requires Measures(mk, mask, t) && Parity(mp, mk)
    requires forall k: nat :: k < 32 ==> (Bit(next, k) <==> Bit(mk, k) && !Bit(mp, k))
    ensures Measures(next, mask, t + 1)
  {
    hide Count, Distance, Bit, Parity;
    forall j: nat | j < 32
      ensures Count(next, j + 1) == Distance(mask, j) / Pow2(t + 1)
    {
      EverySecond(mk, mp, next, j + 1);
      HalveDistance(Distance(mask, j), Pow2(t));
    }
  }

  lemma {:induction false} FirstMeasure(mask: nat, mk: nat, j: nat)
    requires j < 32
    requires forall k: nat :: k < 32 ==> (Bit(mk, k) <==> k > 0 && !Bit(mask, k - 1))
    ensures Count(mk, j + 1) == Distance(mask, j)
  {
    hide Bit;
    if j > 0 {
      FirstMeasure(mask, mk, j - 1);
    } else {
      assert Count(mk, 1) == Count(mk, 0) + if Bit(mk, 0) then 1 else 0;
    }
  }

  // ---- The algorithm ----

  lemma BeforeRounds(word: nat, mask: nat)
    ensures Image(And(word, mask), word, mask, 0)
  {
    hide Bit, And, Count;
    forall j: nat
      ensures Bit(And(word, mask), j) <==> Reached(word, mask, 0, j)
    {
      BitAnd(word, mask, j);
      assert At(mask, j, 0) == j;
      if Bit(word, j) && Bit(mask, j) {
        assert IsFrom(word, mask, 0, j, j);
      }
      if i: nat :| IsFrom(word, mask, 0, j, i) {
        assert At(mask, i, 0) == i;
      }
    }
  }

  lemma MaskImage(mask: nat)
    ensures Image(mask, mask, mask, 0)
  {
    hide Image, Bit, And;
    BeforeRounds(mask, mask);
    forall j: nat
      ensures Bit(And(mask, mask), j) == Bit(mask, j)
    {
      BitAnd(mask, mask, j);
    }
    SameBits(And(mask, mask), mask);
  }

  lemma StartMeasures(mask: nat)
    ensures Measures(Low(Shl(Low(Xor(mask, ONES32), 32), 1), 32), mask, 0)
  {
    Pow2Values();
    hide Bit, Low, Shl, Xor, Count, Distance;
    var mk := Low(Shl(Low(Xor(mask, ONES32), 32), 1), 32);
    forall k: nat | k < 32
      ensures Bit(mk, k) <==> k > 0 && !Bit(mask, k - 1)
    {
      BitLow(Shl(Low(Xor(mask, ONES32), 32), 1), 32, k);
      BitShl(Low(Xor(mask, ONES32), 32), 1, k);
      if k > 0 {
        BitLow(Xor(mask, ONES32), 32, k - 1);
        BitXor(mask, ONES32, k - 1);
        BitOfMask(32, k - 1);
      }
    }
    forall j: nat | j < 32
      ensures Count(mk, j + 1) == Distance(mask, j) / Pow2(0)
    {
      FirstMeasure(mask, mk, j);
    }
  }

  /** Bits of x that mp and the moved mask pick go down by s, the others stay. */
  lemma MovedBits(x: nat, m: nat, mp: nat, s: nat, y: nat)
    requires forall j: nat :: Bit(x, j) ==> Bit(m, j)
    requires y == Or(Xor(x, And(x, And(mp, m))), Shr(And(x, And(mp, m)), s))
    ensures MovedDown(x, y, mp, s)
  {
    hide Bit, Or, Xor, And, Shr;
    var moved := And(x, And(mp, m));
    forall j: nat
      ensures Bit(y, j) <==> StaysOrArrives(x, mp, s, j)
    {
      BitOr(Xor(x, moved), Shr(moved, s), j);
      BitXor(x, moved, j);
      BitShr(moved, s, j);
      BitAnd(x, And(mp, m), j);
      BitAnd(x, And(mp, m), j + s);
      BitAnd(mp, m, j);
      BitAnd(mp, m, j + s);
    }
  }

  lemma ImageInMask(x: nat, m: nat, word: nat, mask: nat, t: nat)
    requires Image(x, word, mask, t) && Image(m, mask, mask, t)
    ensures forall j: nat :: Bit(x, j) ==> Bit(m, j)
  {
    hide Bit, At;
    forall j: nat | Bit(x, j)
      ensures Bit(m, j)
    {
      var i: nat :| IsFrom(word, mask, t, j, i);
      assert IsFrom(mask, mask, t, j, i);
    }
  }

  lemma MaskedSelf(m: nat, mp: nat)
    ensures And(m, And(mp, m)) == And(mp, m)
  {
    hide Bit, And;
    forall j: nat
      ensures Bit(And(m, And(mp, m)), j) == Bit(And(mp, m), j)
    {
      BitAnd(m, And(mp, m), j);
      BitAnd(mp, m, j);
    }
    SameBits(And(m, And(mp, m)), And(mp, m));
  }

  lemma KeptBits(mk: nat, mp: nat)
    ensures forall k: nat :: k < 32 ==>
              (Bit(And(mk, Low(Xor(mp, ONES32), 32)), k) <==> Bit(mk, k) && !Bit(mp, k))
  {
    Pow2Values();
    hide Bit, And, Low, Xor;
    forall k: nat | k < 32
      ensures Bit(And(mk, Low(Xor(mp, ONES32), 32)), k) <==> Bit(mk, k) && !Bit(mp, k)
    {
      BitAnd(mk, Low(Xor(mp, ONES32), 32), k);
      BitLow(Xor(mp, ONES32), 32, k);
      BitXor(mp, ONES32, k);
      BitOfMask(32, k);
    }
  }

  /** After five rounds every bit has arrived. */
  lemma AfterRounds(x: nat, word: nat, mask: nat)
    requires Image(x, word, mask, 5) && mask < Pow2(32)
    ensures x == Gather(word, mask)
  {
    Pow2Values();
    hide Bit, Gather, Pow2, Count;
    forall j: nat
      ensures Bit(x, j) == Bit(Gather(word, mask), j)
    {
      GatherBit(word, mask, j);
      forall i: nat
        ensures IsFrom(word, mask, 5, j, i) <==> IsSource(word, mask, j, i)
      {
        Arrived(word, mask, j, i);
      }
    }
    SameBits(x, Gather(word, mask));
  }

  lemma Arrived(word: nat, mask: nat, j: nat, i: nat)
    requires mask < Pow2(32)
    ensures IsFrom(word, mask, 5, j, i) <==> IsSource(word, mask, j, i)
  {
    if 32 <= i {
      hide *;
      BitHigh(mask, 32, i);
      NotInMask(word, mask, j, i);
    } else {
      assert Pow2(5) == 32;
      hide Bit, Pow2, Count;
      assert Distance(mask, i) < 32;
    }
  }

  lemma NotInMask(word: nat, mask: nat, j: nat, i: nat)
    requires !Bit(mask, i)
    ensures !IsFrom(word, mask, 5, j, i) && !IsSource(word, mask, j, i)
  {
  }

  /** Compress: the word's bits at the mask's positions, moved together in order. */
  method Compress(word: nat, mask: nat) returns (x: nat)
    requires mask < Pow2(32)
    ensures x == Gather(word, mask)
  {
    hide Bit, And, Or, Xor, Shl, Shr, Low, Pow2, Image, Measures, Parity, Gather, MovedDown;
    var m := mask;
    x := And(word, m);
    var mk := Low(Shl(Low(Xor(m, ONES32), 32), 1), 32);
    BeforeRounds(word, mask);
    MaskImage(mask);
    StartMeasures(mask);
    for i := 0 to 5
      invariant Image(x, word, mask, i) && Image(m, mask, mask, i) && Measures(mk, mask, i)
    {
      var mp := ParallelSuffix(mk);
      var s := Shl(1, i);
      ShlOfOne(i);
      var mv := And(mp, m);
      ImageInMask(x, m, word, mask, i);
      MaskedSelf(m, mp);
      ghost var oldX, oldM := x, m;
      m := Or(Xor(m, mv), Shr(mv, s));
      var t := And(x, mv);
      x := Or(Xor(x, t), Shr(t, s));
      MovedBits(oldX, oldM, mp, s, x);
      MovedBits(oldM, oldM, mp, s, m);
      MoveRound(oldX, x, mp, mk, word, mask, i);
      MoveRound(oldM, m, mp, mk, mask, mask, i);
      KeptBits(mk, mp);
      ghost var oldMk := mk;
      mk := And(mk, Low(Xor(mp, ONES32), 32));
      NextMeasure(oldMk, mp, mk, mask, i);
    }
    AfterRounds(x, word, mask);
  }
}
