/** The pointer-authentication hash: a network of nibble permutations,
    substitutions and rotations on a 64-bit word. */
module PACHash {
  import opened Bits

  function GetNibble(data: nat, position: nat): nat {
    And(Shr(data, position), 0xf)
  }

  lemma NibbleBits(data: nat, position: nat)
    ensures GetNibble(data, position) < 16
    ensures forall b: nat :: Bit(GetNibble(data, position), b) <==> b < 4 && Bit(data, position + b)
  {
    assert Pow2(4) == 16;
    AndMask(Shr(data, position), 4);
    Split(Shr(data, position), 4);
    forall b: nat
      ensures Bit(GetNibble(data, position), b) <==> b < 4 && Bit(data, position + b)
    {
      BitLow(Shr(data, position), 4, b);
      BitShr(data, position, b);
    }
  }

  /** Placing a nibble above the bits collected so far. */
  lemma PlaceNibble(out: nat, nibble: nat, position: nat)
    requires nibble < 16
    ensures forall j: nat :: Bit(Or(out, Shl(nibble, position)), j) <==>
              Bit(out, j) || (position <= j < position + 4 && Bit(nibble, j - position))
  {
    assert Pow2(4) == 16;
    forall j: nat
      ensures Bit(Or(out, Shl(nibble, position)), j) <==>
                Bit(out, j) || (position <= j < position + 4 && Bit(nibble, j - position))
    {
      BitOr(out, Shl(nibble, position), j);
      BitShl(nibble, position, j);
      if position + 4 <= j {
        BitHigh(nibble, 4, j - position);
      }
    }
  }

  // ---- Shuffling nibbles ----

  const IN_POSITIONS: seq<nat> := [4, 36, 52, 40, 44, 0, 24, 12, 56, 60, 8, 32, 16, 28, 20, 48]
  const OUT_POSITIONS: seq<nat> := [20, 0, 40, 28, 48, 56, 24, 52, 44, 4, 12, 16, 60, 8, 32, 36]

  /** Moves nibble from[i] of the word to place i. */
  function Permuted(x: nat, from: seq<nat>): nat
    requires |from| == 16
  {
    Word(64, PermutedBit(x, from))
  }

  function PermutedBit(x: nat, from: seq<nat>): nat -> bool
    requires |from| == 16
  {
    (j: nat) => j < 64 && Bit(x, from[j / 4] + j % 4)
  }

  function Shuffled(x: nat): nat {
    Permuted(x, IN_POSITIONS)
  }

  function Unshuffled(x: nat): nat {
    Permuted(x, OUT_POSITIONS)
  }

  lemma PermutedBits(x: nat, from: seq<nat>)
    requires |from| == 16
    ensures Permuted(x, from) < Pow2(64)
    ensures forall j: nat :: Bit(Permuted(x, from), j) <==> j < 64 && Bit(x, from[j / 4] + j % 4)
  {
    hide Word, Bit, Pow2;
    WordBits(64, PermutedBit(x, from));
  }

  method ShuffleNibbles(data: nat) returns (out: nat)
    ensures out == Shuffled(data)
  {
    hide Bit, Shl, Shr, And, Or, GetNibble, Permuted;
    out := 0;
    ZeroBits();
    for i := 0 to 16
      invariant forall j: nat :: Bit(out, j) <==> j < 4 * i && Bit(data, IN_POSITIONS[j / 4] + j % 4)
    {
      var nibble := GetNibble(data, IN_POSITIONS[i]);
      NibbleBits(data, IN_POSITIONS[i]);
      PlaceNibble(out, nibble, 4 * i);
      out := Or(out, Shl(nibble, 4 * i));
    }
    PermutedBits(data, IN_POSITIONS);
    SameBits(out, Permuted(data, IN_POSITIONS));
    ShuffledIs(data);
  }

  lemma ShuffledIs(x: nat)
    ensures |IN_POSITIONS| == 16 && Shuffled(x) == Permuted(x, IN_POSITIONS)
  {
  }

  predicate InverseTables(from: seq<nat>, to: seq<nat>) {
    && |from| == 16 && |to| == 16
    && (forall i :: 0 <= i < 16 ==> from[i] < 64 && from[i] % 4 == 0)
    && (forall i :: 0 <= i < 16 ==> to[i] < 64 && to[i] % 4 == 0)
    && (forall i :: 0 <= i < 16 ==> from[to[i] / 4] == 4 * i)
  }

  lemma PermuteInverse(x: nat, from: seq<nat>, to: seq<nat>)
    requires InverseTables(from, to) && x < Pow2(64)
    ensures Permuted(Permuted(x, from), to) == x && Permuted(x, from) < Pow2(64)
  {
    hide Bit, Pow2, Permuted;
    PermutedBits(x, from);
    PermutedBits(Permuted(x, from), to);
    forall j: nat | j < 64
      ensures Bit(Permuted(Permuted(x, from), to), j) == Bit(x, j)
    {
      var p := to[j / 4] + j % 4;
      assert p < 64 && p / 4 == to[j / 4] / 4 && p % 4 == j % 4;
      assert from[p / 4] + p % 4 == j;
    }
    SameWord(64, Permuted(Permuted(x, from), to), x);
  }

  lemma TableEntry(i: nat)
    requires i < 16
    ensures IN_POSITIONS[i] < 64 && IN_POSITIONS[i] % 4 == 0 && OUT_POSITIONS[IN_POSITIONS[i] / 4] == 4 * i
    ensures OUT_POSITIONS[i] < 64 && OUT_POSITIONS[i] % 4 == 0 && IN_POSITIONS[OUT_POSITIONS[i] / 4] == 4 * i
  {
  }

  lemma TablesAreInverse()
    ensures InverseTables(IN_POSITIONS, OUT_POSITIONS) && InverseTables(OUT_POSITIONS, IN_POSITIONS)
  {
    TablesHave16();
    hide IN_POSITIONS, OUT_POSITIONS;
    forall i | 0 <= i < 16
      ensures IN_POSITIONS[i] < 64 && IN_POSITIONS[i] % 4 == 0 && OUT_POSITIONS[IN_POSITIONS[i] / 4] == 4 * i
      ensures OUT_POSITIONS[i] < 64 && OUT_POSITIONS[i] % 4 == 0 && IN_POSITIONS[OUT_POSITIONS[i] / 4] == 4 * i
    {
      TableEntry(i);
    }
  }

  lemma TablesHave16()
    ensures |IN_POSITIONS| == 16 && |OUT_POSITIONS| == 16
  {
  }

  /** Shuffling is a permutation of the words. */
  lemma ShuffleInverse(x: nat)
    requires x < Pow2(64)
    ensures Unshuffled(Shuffled(x)) == x && Shuffled(Unshuffled(x)) == x
    ensures Shuffled(x) < Pow2(64) && Unshuffled(x) < Pow2(64)
  {
    hide Pow2, Permuted, InverseTables;
    TablesAreInverse();
    PermuteInverse(x, IN_POSITIONS, OUT_POSITIONS);
    PermuteInverse(x, OUT_POSITIONS, IN_POSITIONS);
  }

  // ---- Substituting nibbles ----

  const SUBS: seq<nat> := [4, 7, 3, 9, 10, 14, 0, 1, 15, 2, 8, 6, 12, 5, 11, 13]
  const INVERSE_SUBS: seq<nat> := [6, 7, 9, 2, 0, 13, 11, 1, 10, 3, 4, 14, 12, 15, 5, 8]

  /** Replaces every nibble by its entry in the table. */
  function Replaced(x: nat, subs: seq<nat>): nat
    requires |subs| == 16
  {
    Word(64, ReplacedBit(x, subs))
  }

  function ReplacedBit(x: nat, subs: seq<nat>): nat -> bool
    requires |subs| == 16
  {
    (j: nat) => j < 64 && Bit(subs[NibbleValue(x, j / 4)], j % 4)
  }

  function NibbleValue(x: nat, i: nat): (n: nat)
    ensures n < 16
  {
    NibbleBits(x, 4 * i);
    GetNibble(x, 4 * i)
  }

  function Substituted(x: nat): nat {
    Replaced(x, SUBS)
  }

  function Unsubstituted(x: nat): nat {
    Replaced(x, INVERSE_SUBS)
  }

  lemma ReplacedBits(x: nat, subs: seq<nat>)
    requires |subs| == 16
    ensures Replaced(x, subs) < Pow2(64)
    ensures forall j: nat :: Bit(Replaced(x, subs), j) <==> j < 64 && Bit(subs[NibbleValue(x, j / 4)], j % 4)
  {
    hide Word, Bit, Pow2, NibbleValue;
    WordBits(64, ReplacedBit(x, subs));
  }

  method SubstituteNibbles(data: nat) returns (out: nat)
    ensures out == Substituted(data)
  {
    hide Bit, Shl, Shr, And, Or, GetNibble, Replaced;
    out := 0;
    ZeroBits();
    for i := 0 to 16
      invariant forall j: nat :: Bit(out, j) <==> j < 4 * i && Bit(SUBS[NibbleValue(data, j / 4)], j % 4)
    {
      NibbleBits(data, 4 * i);
      NibbleIs(data, i);
      var index := And(Shr(data, 4 * i), 0xf);
      PlaceNibble(out, SUBS[index], 4 * i);
      out := Or(out, Shl(SUBS[index], 4 * i));
    }
    ReplacedBits(data, SUBS);
    SameBits(out, Replaced(data, SUBS));
  }

  lemma NibbleIs(x: nat, i: nat)
    ensures NibbleValue(x, i) == GetNibble(x, 4 * i) == And(Shr(x, 4 * i), 0xf)
  {
  }

  /** Nibble i of the replaced word is the entry for nibble i of the word. */
  lemma ReplacedNibble(x: nat, subs: seq<nat>, i: nat)
    requires |subs| == 16 && i < 16 && forall n :: 0 <= n < 16 ==> subs[n] < 16
    ensures NibbleValue(Replaced(x, subs), i) == subs[NibbleValue(x, i)]
  {
    hide Bit, And, Shr, GetNibble, Replaced, NibbleValue;
    var y, v := NibbleValue(Replaced(x, subs), i), subs[NibbleValue(x, i)];
    ReplacedBits(x, subs);
    NibbleIs(Replaced(x, subs), i);
    NibbleBits(Replaced(x, subs), 4 * i);
    forall b: nat | b < 4
      ensures Bit(y, b) == Bit(v, b)
    {
      assert (4 * i + b) / 4 == i && (4 * i + b) % 4 == b;
    }
    assert y < 16 && v < 16;
    SameNibble(y, v);
  }

  lemma SameNibble(x: nat, y: nat)
    requires x < 16 && y < 16 && forall b: nat :: b < 4 ==> Bit(x, b) == Bit(y, b)
    ensures x == y
  {
    assert Pow2(4) == 16;
    hide *;
    SameWord(4, x, y);
  }

  lemma ReplaceInverse(x: nat, subs: seq<nat>, inverse: seq<nat>)
    requires |subs| == 16 && |inverse| == 16 && x < Pow2(64)
    requires forall n :: 0 <= n < 16 ==> subs[n] < 16 && inverse[subs[n]] == n
    ensures Replaced(Replaced(x, subs), inverse) == x && Replaced(x, subs) < Pow2(64)
  {
    hide Bit, Replaced, NibbleValue, Pow2;
    ReplacedBits(x, subs);
    ReplacedBits(Replaced(x, subs), inverse);
    forall j: nat | j < 64
      ensures Bit(Replaced(Replaced(x, subs), inverse), j) == Bit(x, j)
    {
      ReplacedNibble(x, subs, j / 4);
      NibbleIs(x, j / 4);
      NibbleBits(x, 4 * (j / 4));
      assert 4 * (j / 4) + j % 4 == j;
    }
    SameWord(64, Replaced(Replaced(x, subs), inverse), x);
  }

  /** Substitution is a permutation of the words. */
  lemma SubstituteInverse(x: nat)
    requires x < Pow2(64)
    ensures Unsubstituted(Substituted(x)) == x && Substituted(Unsubstituted(x)) == x
    ensures Substituted(x) < Pow2(64) && Unsubstituted(x) < Pow2(64)
  {
    hide Replaced, Pow2;
    ReplaceInverse(x, SUBS, INVERSE_SUBS);
    ReplaceInverse(x, INVERSE_SUBS, SUBS);
  }

  // ---- What each nibble becomes ----

  lemma PermutedNibble(x: nat, from: seq<nat>, i: nat)
    requires |from| == 16 && i < 16 && from[i] % 4 == 0
    ensures NibbleValue(Permuted(x, from), i) == NibbleValue(x, from[i] / 4)
  {
    hide Bit, Permuted, NibbleValue, And, Shr, GetNibble;
    var y, k := Permuted(x, from), from[i] / 4;
    PermutedBits(x, from);
    NibbleIs(y, i);
    NibbleBits(y, 4 * i);
    NibbleIs(x, k);
    NibbleBits(x, 4 * k);
    forall b: nat | b < 4
      ensures Bit(NibbleValue(y, i), b) == Bit(NibbleValue(x, k), b)
    {
      var j := 4 * i + b;
      assert j / 4 == i && j % 4 == b && from[j / 4] + j % 4 == 4 * k + b;
    }
    SameNibble(NibbleValue(y, i), NibbleValue(x, k));
  }

  lemma ShuffledNibble(x: nat, i: nat)
    requires i < 16
    ensures |IN_POSITIONS| == 16 && NibbleValue(Shuffled(x), i) == NibbleValue(x, IN_POSITIONS[i] / 4)
  {
    TableEntry(i);
    ShuffledIs(x);
    hide *;
    PermutedNibble(x, IN_POSITIONS, i);
  }

  /** Where each nibble of the shuffled word comes from. */
  lemma ShuffleTable(x: nat)
    ensures NibbleValue(Shuffled(x), 0) == NibbleValue(x, 1) && NibbleValue(Shuffled(x), 1) == NibbleValue(x, 9)
    ensures NibbleValue(Shuffled(x), 2) == NibbleValue(x, 13) && NibbleValue(Shuffled(x), 3) == NibbleValue(x, 10)
    ensures NibbleValue(Shuffled(x), 4) == NibbleValue(x, 11) && NibbleValue(Shuffled(x), 5) == NibbleValue(x, 0)
    ensures NibbleValue(Shuffled(x), 6) == NibbleValue(x, 6) && NibbleValue(Shuffled(x), 7) == NibbleValue(x, 3)
    ensures NibbleValue(Shuffled(x), 8) == NibbleValue(x, 14) && NibbleValue(Shuffled(x), 9) == NibbleValue(x, 15)
    ensures NibbleValue(Shuffled(x), 10) == NibbleValue(x, 2) && NibbleValue(Shuffled(x), 11) == NibbleValue(x, 8)
    ensures NibbleValue(Shuffled(x), 12) == NibbleValue(x, 4) && NibbleValue(Shuffled(x), 13) == NibbleValue(x, 7)
    ensures NibbleValue(Shuffled(x), 14) == NibbleValue(x, 5) && NibbleValue(Shuffled(x), 15) == NibbleValue(x, 12)
  {
    hide NibbleValue, Shuffled;
    ShuffledNibble(x, 0);
    ShuffledNibble(x, 1);
    ShuffledNibble(x, 2);
    ShuffledNibble(x, 3);
    ShuffledNibble(x, 4);
    ShuffledNibble(x, 5);
    ShuffledNibble(x, 6);
    ShuffledNibble(x, 7);
    ShuffledNibble(x, 8);
    ShuffledNibble(x, 9);
    ShuffledNibble(x, 10);
    ShuffledNibble(x, 11);
    ShuffledNibble(x, 12);
    ShuffledNibble(x, 13);
    ShuffledNibble(x, 14);
    ShuffledNibble(x, 15);
  }

  /** What each nibble is replaced by. */
  lemma SubstituteTable(x: nat, i: nat, n: nat, r: nat)
    requires i < 16 && n == NibbleValue(x, i) && r == NibbleValue(Substituted(x), i)
    ensures (n == 0 ==> r == 4) && (n == 1 ==> r == 7) && (n == 2 ==> r == 3) && (n == 3 ==> r == 9)
    ensures (n == 4 ==> r == 10) && (n == 5 ==> r == 14) && (n == 6 ==> r == 0) && (n == 7 ==> r == 1)
    ensures (n == 8 ==> r == 15) && (n == 9 ==> r == 2) && (n == 10 ==> r == 8) && (n == 11 ==> r == 6)
    ensures (n == 12 ==> r == 12) && (n == 13 ==> r == 5) && (n == 14 ==> r == 11) && (n == 15 ==> r == 13)
  {
    hide NibbleValue, Replaced;
    ReplacedNibble(x, SUBS, i);
  }

  // ---- The big shuffle ----

  /** Rotates a nibble to the left. */
  function RotNibble(cell: nat, amount: nat): nat
    requires amount <= 3
  {
    var c := And(cell, 0xf);
    var temp := Or(Shl(c, 4), c);
    And(Shr(temp, 4 - amount), 0xf)
  }

  /** Bit c of nibble k, counting modulo the nibble. */
  predicate Cell(x: nat, k: nat, c: int) {
    Bit(x, 4 * k + c % 4)
  }

  /** Bit b of nibble k after one round; the nibbles k, k + 4, k + 8 and k + 12
      modulo 16 form a column. */
  predicate MixedCell(x: nat, k: nat, b: nat)
    requires k < 16
  {
    var i := k % 4;
    match k / 4
    case 3 => (Cell(x, 8 + i, b - 2) != Cell(x, 4 + i, b - 1)) != Cell(x, i, b - 1)
    case 2 => (Cell(x, 12 + i, b - 1) != Cell(x, 4 + i, b - 2)) != Cell(x, i, b - 1)
    case 1 => (Cell(x, 12 + i, b - 2) != Cell(x, 8 + i, b - 1)) != Cell(x, i, b - 1)
    case _ => (Cell(x, 12 + i, b - 1) != Cell(x, 8 + i, b - 1)) != Cell(x, 4 + i, b - 2)
  }

  function MixedBit(x: nat): nat -> bool {
    (j: nat) => j < 64 && MixedCell(x, j / 4, j % 4)
  }

  function Mixed(x: nat): nat {
    Word(64, MixedBit(x))
  }

  lemma MixedBits(x: nat)
    ensures Mixed(x) < Pow2(64)
    ensures forall j: nat :: Bit(Mixed(x), j) <==> j < 64 && MixedCell(x, j / 4, j % 4)
  {
    hide Word, Bit, Pow2, MixedCell;
    WordBits(64, MixedBit(x));
  }

  lemma RotatedBits(data: nat, k: nat, amount: nat)
    requires amount <= 3
    ensures RotNibble(GetNibble(data, 4 * k), amount) < 16
    ensures forall b: nat :: Bit(RotNibble(GetNibble(data, 4 * k), amount), b) <==> b < 4 && Cell(data, k, b - amount)
  {
    hide Bit, Shl, Shr, And, Or, GetNibble, RotNibble;
    assert Pow2(4) == 16;
    var n := GetNibble(data, 4 * k);
    NibbleBits(data, 4 * k);
    AndMask(n, 4);
    LowOfSmall(n, 4);
    var temp := Or(Shl(n, 4), n);
    NibbleBits(temp, 4 - amount);
    RotNibbleIs(n, amount);
    forall b: nat
      ensures Bit(RotNibble(n, amount), b) <==> b < 4 && Cell(data, k, b - amount)
    {
      if b < 4 {
        BitOr(Shl(n, 4), n, b + 4 - amount);
        BitShl(n, 4, b + 4 - amount);
      }
    }
  }

  lemma RotNibbleIs(n: nat, amount: nat)
    requires amount <= 3 && And(n, 0xf) == n
    ensures RotNibble(n, amount) == GetNibble(Or(Shl(n, 4), n), 4 - amount)
  {
  }

  /** The exclusive or of three rotated nibbles. */
  lemma XorOfThree(a: nat, b: nat, c: nat)
    requires a < 16 && b < 16 && c < 16
    ensures Xor(Xor(a, b), c) < 16
    ensures forall j: nat :: Bit(Xor(Xor(a, b), c), j) <==> ((Bit(a, j) != Bit(b, j)) != Bit(c, j))
  {
    hide Bit, Xor;
    forall j: nat
      ensures Bit(Xor(Xor(a, b), c), j) <==> ((Bit(a, j) != Bit(b, j)) != Bit(c, j))
    {
      BitXor(Xor(a, b), c, j);
      BitXor(a, b, j);
    }
    XorBound(a, b);
    XorBound(Xor(a, b), c);
  }

  lemma XorBound(a: nat, b: nat)
    requires a < 16 && b < 16
    ensures Xor(a, b) < 16
  {
    assert Pow2(4) == 16;
    hide Xor, Pow2;
    XorFits(a, b, 4);
  }

  lemma {:induction false} ShrOfXor(a: nat, b: nat, k: nat)
    ensures Shr(Xor(a, b), k) == Xor(Shr(a, k), Shr(b, k))
    decreases k
  {
    if k > 0 {
      ShrOfXor(a / 2, b / 2, k - 1);
    }
  }

  /** One pass over the four columns. */
  method BigShuffle(data: nat) returns (out: nat)
    ensures out == Mixed(data)
  {
    hide Bit, Shl, Shr, And, Or, Xor, GetNibble, RotNibble, Mixed, MixedCell;
    out := 0;
    ZeroBits();
    for i := 0 to 4
      invariant forall j: nat :: Bit(out, j) <==> j < 64 && (j / 4) % 4 < i && MixedCell(data, j / 4, j % 4)
    {
      var n12 := GetNibble(data, 4 * (i + 12));
      var n8 := GetNibble(data, 4 * (i + 8));
      var n4 := GetNibble(data, 4 * (i + 4));
      var n0 := GetNibble(data, 4 * (i + 0));

      var t0 := Xor(Xor(RotNibble(n8, 2), RotNibble(n4, 1)), RotNibble(n0, 1));
      var t1 := Xor(Xor(RotNibble(n12, 1), RotNibble(n4, 2)), RotNibble(n0, 1));
      var t2 := Xor(Xor(RotNibble(n12, 2), RotNibble(n8, 1)), RotNibble(n0, 1));
      var t3 := Xor(Xor(RotNibble(n12, 1), RotNibble(n8, 1)), RotNibble(n4, 2));
      ColumnBits(data, i);

      ghost var before := out;
      PlaceNibble(out, t3, 4 * (i + 0));
      out := Or(out, Shl(t3, 4 * (i + 0)));
      PlaceNibble(out, t2, 4 * (i + 4));
      out := Or(out, Shl(t2, 4 * (i + 4)));
      PlaceNibble(out, t1, 4 * (i + 8));
      out := Or(out, Shl(t1, 4 * (i + 8)));
      PlaceNibble(out, t0, 4 * (i + 12));
      out := Or(out, Shl(t0, 4 * (i + 12)));
      ColumnPlaced(data, i, before, out, t0, t1, t2, t3);
    }
    MixedBits(data);
    SameBits(out, Mixed(data));
  }

  /** The four nibbles computed for column i. */
  lemma ColumnBits(data: nat, i: nat)
    requires i < 4
    ensures var n12, n8, n4, n0 := GetNibble(data, 4 * (i + 12)), GetNibble(data, 4 * (i + 8)),
                                   GetNibble(data, 4 * (i + 4)), GetNibble(data, 4 * (i + 0));
            var t0 := Xor(Xor(RotNibble(n8, 2), RotNibble(n4, 1)), RotNibble(n0, 1));
            var t1 := Xor(Xor(RotNibble(n12, 1), RotNibble(n4, 2)), RotNibble(n0, 1));
            var t2 := Xor(Xor(RotNibble(n12, 2), RotNibble(n8, 1)), RotNibble(n0, 1));
            var t3 := Xor(Xor(RotNibble(n12, 1), RotNibble(n8, 1)), RotNibble(n4, 2));
            && t0 < 16 && t1 < 16 && t2 < 16 && t3 < 16
            && (forall b: nat :: b < 4 ==> (Bit(t0, b) <==> MixedCell(data, 12 + i, b)))
            && (forall b: nat :: b < 4 ==> (Bit(t1, b) <==> MixedCell(data, 8 + i, b)))
            && (forall b: nat :: b < 4 ==> (Bit(t2, b) <==> MixedCell(data, 4 + i, b)))
            && (forall b: nat :: b < 4 ==> (Bit(t3, b) <==> MixedCell(data, i, b)))
  {
    hide Bit, GetNibble, RotNibble, Xor, Cell;
    RotatedBits(data, 12 + i, 1);
    RotatedBits(data, 12 + i, 2);
    RotatedBits(data, 8 + i, 1);
    RotatedBits(data, 8 + i, 2);
    RotatedBits(data, 4 + i, 1);
    RotatedBits(data, 4 + i, 2);
    RotatedBits(data, i, 1);
    var n12, n8, n4, n0 := GetNibble(data, 4 * (12 + i)), GetNibble(data, 4 * (8 + i)),
                           GetNibble(data, 4 * (4 + i)), GetNibble(data, 4 * i);
    XorOfThree(RotNibble(n8, 2), RotNibble(n4, 1), RotNibble(n0, 1));
    XorOfThree(RotNibble(n12, 1), RotNibble(n4, 2), RotNibble(n0, 1));
    XorOfThree(RotNibble(n12, 2), RotNibble(n8, 1), RotNibble(n0, 1));
    XorOfThree(RotNibble(n12, 1), RotNibble(n8, 1), RotNibble(n4, 2));
  }

  lemma ColumnPlaced(data: nat, i: nat, before: nat, after: nat, t0: nat, t1: nat, t2: nat, t3: nat)
    requires i < 4
    requires forall j: nat :: Bit(before, j) <==> j < 64 && (j / 4) % 4 < i && MixedCell(data, j / 4, j % 4)
    requires forall b: nat :: b < 4 ==> (Bit(t0, b) <==> MixedCell(data, 12 + i, b))
    requires forall b: nat :: b < 4 ==> (Bit(t1, b) <==> MixedCell(data, 8 + i, b))
    requires forall b: nat :: b < 4 ==> (Bit(t2, b) <==> MixedCell(data, 4 + i, b))
    requires forall b: nat :: b < 4 ==> (Bit(t3, b) <==> MixedCell(data, i, b))
    requires forall j: nat :: Bit(after, j) <==>
               || Bit(before, j)
               || (4 * i <= j < 4 * i + 4 && Bit(t3, j - 4 * i))
               || (4 * (i + 4) <= j < 4 * (i + 4) + 4 && Bit(t2, j - 4 * (i + 4)))
               || (4 * (i + 8) <= j < 4 * (i + 8) + 4 && Bit(t1, j - 4 * (i + 8)))
               || (4 * (i + 12) <= j < 4 * (i + 12) + 4 && Bit(t0, j - 4 * (i + 12)))
    ensures forall j: nat :: Bit(after, j) <==> j < 64 && (j / 4) % 4 < i + 1 && MixedCell(data, j / 4, j % 4)
  {
    hide Bit, MixedCell;
    forall j: nat
      ensures Bit(after, j) <==> j < 64 && (j / 4) % 4 < i + 1 && MixedCell(data, j / 4, j % 4)
    {
      var k, b := j / 4, j % 4;
      assert j == 4 * k + b;
    }
  }

  // ---- Eight big shuffles are the identity ----

  lemma MixedCells(x: nat, k: nat, b: int)
    requires k < 16
    ensures Cell(Mixed(x), k, b) <==> MixedCell(x, k, b % 4)
  {
    hide Bit, Mixed, MixedCell;
    MixedBits(x);
    assert (4 * k + b % 4) / 4 == k && (4 * k + b % 4) % 4 == b % 4;
  }

  /** A cell as an integer, so that exclusive or is addition modulo 2. */
  function Value(x: nat, k: nat, c: int): (v: int)
    ensures v == 0 || v == 1
  {
    if Cell(x, k, c) then 1 else 0
  }

  function Sum2(p: int, q: int): int { (p + q) % 2 }

  function Sum3(p: int, q: int, r: int): int { (p + q + r) % 2 }

  function Sum5(p: int, q: int, r: int, s: int, t: int): int { (p + q + r + s + t) % 2 }

  function Sum7(p: int, q: int, r: int, s: int, t: int, u: int, v: int): int { (p + q + r + s + t + u + v) % 2 }

  /** The sixteen bits of a column: row by row from the top, each from a bit down. */
  datatype Column = Column(
    a0: int, a1: int, a2: int, a3: int,
    b0: int, b1: int, b2: int, b3: int,
    c0: int, c1: int, c2: int, c3: int,
    d0: int, d1: int, d2: int, d3: int)
  {
    function Sum(): int {
      (a0 + a1 + a2 + a3 + b0 + b1 + b2 + b3 + c0 + c1 + c2 + c3 + d0 + d1 + d2 + d3) % 2
    }

    function Rotated(): Column {
      Column(a1, a2, a3, a0, b1, b2, b3, b0, c1, c2, c3, c0, d1, d2, d3, d0)
    }

    /** Every bit flipped if t is 1. */
    function Flipped(t: int): Column {
      Column(Sum2(a0, t), Sum2(a1, t), Sum2(a2, t), Sum2(a3, t), Sum2(b0, t), Sum2(b1, t), Sum2(b2, t), Sum2(b3, t),
             Sum2(c0, t), Sum2(c1, t), Sum2(c2, t), Sum2(c3, t), Sum2(d0, t), Sum2(d1, t), Sum2(d2, t), Sum2(d3, t))
    }
  }

  function ColumnAt(x: nat, i: nat, b: int): Column {
    Column(Value(x, 12 + i, b), Value(x, 12 + i, b - 1), Value(x, 12 + i, b - 2), Value(x, 12 + i, b - 3),
           Value(x, 8 + i, b), Value(x, 8 + i, b - 1), Value(x, 8 + i, b - 2), Value(x, 8 + i, b - 3),
           Value(x, 4 + i, b), Value(x, 4 + i, b - 1), Value(x, 4 + i, b - 2), Value(x, 4 + i, b - 3),
           Value(x, i, b), Value(x, i, b - 1), Value(x, i, b - 2), Value(x, i, b - 3))
  }

  lemma ValueModulo(x: nat, k: nat, b: int, c: int)
    requires b % 4 == c % 4
    ensures Value(x, k, b) == Value(x, k, c)
  {
  }

  /** Column i after one round, at any bit. */
  lemma MixedColumn(x: nat, i: nat, b: int)
    requires i < 4
    ensures var y := Mixed(x);
            && Value(y, 12 + i, b) == Sum3(Value(x, 8 + i, b - 2), Value(x, 4 + i, b - 1), Value(x, i, b - 1))
            && Value(y, 8 + i, b) == Sum3(Value(x, 12 + i, b - 1), Value(x, 4 + i, b - 2), Value(x, i, b - 1))
            && Value(y, 4 + i, b) == Sum3(Value(x, 12 + i, b - 2), Value(x, 8 + i, b - 1), Value(x, i, b - 1))
            && Value(y, i, b) == Sum3(Value(x, 12 + i, b - 1), Value(x, 8 + i, b - 1), Value(x, 4 + i, b - 2))
  {
    hide Bit, Mixed, Cell, Value, Sum3;
    MixedCells(x, 12 + i, b);
    MixedCells(x, 8 + i, b);
    MixedCells(x, 4 + i, b);
    MixedCells(x, i, b);
    ShiftInNibble(x, 12 + i, b);
    ShiftInNibble(x, 8 + i, b);
    ShiftInNibble(x, 4 + i, b);
    ShiftInNibble(x, i, b);
    XorIsSum(Mixed(x), x, 12 + i, b, 8 + i, b - 2, 4 + i, b - 1, i, b - 1);
    XorIsSum(Mixed(x), x, 8 + i, b, 12 + i, b - 1, 4 + i, b - 2, i, b - 1);
    XorIsSum(Mixed(x), x, 4 + i, b, 12 + i, b - 2, 8 + i, b - 1, i, b - 1);
    XorIsSum(Mixed(x), x, i, b, 12 + i, b - 1, 8 + i, b - 1, 4 + i, b - 2);
  }

  /** A cell that is the exclusive or of three others. */
  lemma XorIsSum(y: nat, x: nat, k: nat, b: int, k1: nat, c1: int, k2: nat, c2: int, k3: nat, c3: int)
    requires Cell(y, k, b) <==> (Cell(x, k1, c1) != Cell(x, k2, c2)) != Cell(x, k3, c3)
    ensures Value(y, k, b) == Sum3(Value(x, k1, c1), Value(x, k2, c2), Value(x, k3, c3))
  {
    hide Cell;
  }

  lemma ShiftInNibble(x: nat, k: nat, b: int)
    ensures Cell(x, k, b % 4 - 1) == Cell(x, k, b - 1) && Cell(x, k, b % 4 - 2) == Cell(x, k, b - 2)
  {
    assert (b % 4 - 1) % 4 == (b - 1) % 4;
    assert (b % 4 - 2) % 4 == (b - 2) % 4;
  }

  /** Two rounds on the sixteen bits of a column, in rotated order. */
  lemma TwoRoundsTwelve(v: Column)
    ensures var yb2, yc1, yd1 :=
              Sum3(v.a3, v.c0, v.d3),
              Sum3(v.a3, v.b2, v.d2),
              Sum3(v.a2, v.b2, v.c3);
            Sum3(yb2, yc1, yd1) == Sum5(v.a2, v.c0, v.c3, v.d2, v.d3)
  {
  }

  lemma TwoRoundsEight(v: Column)
    ensures var ya1, yc2, yd1 :=
              Sum3(v.b3, v.c2, v.d2),
              Sum3(v.a0, v.b3, v.d3),
              Sum3(v.a2, v.b2, v.c3);
            Sum3(ya1, yc2, yd1) == Sum7(v.a0, v.a2, v.b2, v.c2, v.c3, v.d2, v.d3)
  {
  }

  lemma TwoRoundsFour(v: Column)
    ensures var ya2, yb1, yd1 :=
              Sum3(v.b0, v.c3, v.d3),
              Sum3(v.a2, v.c3, v.d2),
              Sum3(v.a2, v.b2, v.c3);
            Sum3(ya2, yb1, yd1) == Sum5(v.b0, v.b2, v.c3, v.d2, v.d3)
  {
  }

  lemma TwoRoundsZero(v: Column)
    ensures var ya1, yb1, yc2 :=
              Sum3(v.b3, v.c2, v.d2),
              Sum3(v.a2, v.c3, v.d2),
              Sum3(v.a0, v.b3, v.d3);
            Sum3(ya1, yb1, yc2) == Sum5(v.a0, v.a2, v.c2, v.c3, v.d3)
  {
  }

  /** Two double rounds add the parity of the column to each bit. */
  lemma TwoDoubleRoundsTwelve(v: Column)
    ensures var ya2, yc0, yc3, yd2, yd3 :=
              Sum5(v.a0, v.c2, v.c1, v.d0, v.d1),
              Sum5(v.b0, v.b2, v.c3, v.d2, v.d3),
              Sum5(v.b3, v.b1, v.c2, v.d1, v.d2),
              Sum5(v.a2, v.a0, v.c0, v.c1, v.d1),
              Sum5(v.a3, v.a1, v.c1, v.c2, v.d2);
            Sum5(ya2, yc0, yc3, yd2, yd3) == Sum2(v.a0, v.Sum())
  {
  }

  lemma TwoDoubleRoundsEight(v: Column)
    ensures var ya0, ya2, yb2, yc2, yc3, yd2, yd3 :=
              Sum5(v.a2, v.c0, v.c3, v.d2, v.d3),
              Sum5(v.a0, v.c2, v.c1, v.d0, v.d1),
              Sum7(v.a2, v.a0, v.b0, v.c0, v.c1, v.d0, v.d1),
              Sum5(v.b2, v.b0, v.c1, v.d0, v.d1),
              Sum5(v.b3, v.b1, v.c2, v.d1, v.d2),
              Sum5(v.a2, v.a0, v.c0, v.c1, v.d1),
              Sum5(v.a3, v.a1, v.c1, v.c2, v.d2);
            Sum7(ya0, ya2, yb2, yc2, yc3, yd2, yd3) == Sum2(v.b0, v.Sum())
  {
  }

  lemma TwoDoubleRoundsFour(v: Column)
    ensures var yb0, yb2, yc3, yd2, yd3 :=
              Sum7(v.a0, v.a2, v.b2, v.c2, v.c3, v.d2, v.d3),
              Sum7(v.a2, v.a0, v.b0, v.c0, v.c1, v.d0, v.d1),
              Sum5(v.b3, v.b1, v.c2, v.d1, v.d2),
              Sum5(v.a2, v.a0, v.c0, v.c1, v.d1),
              Sum5(v.a3, v.a1, v.c1, v.c2, v.d2);
            Sum5(yb0, yb2, yc3, yd2, yd3) == Sum2(v.c0, v.Sum())
  {
  }

  lemma TwoDoubleRoundsZero(v: Column)
    ensures var ya0, ya2, yc2, yc3, yd3 :=
              Sum5(v.a2, v.c0, v.c3, v.d2, v.d3),
              Sum5(v.a0, v.c2, v.c1, v.d0, v.d1),
              Sum5(v.b2, v.b0, v.c1, v.d0, v.d1),
              Sum5(v.b3, v.b1, v.c2, v.d1, v.d2),
              Sum5(v.a3, v.a1, v.c1, v.c2, v.d2);
            Sum5(ya0, ya2, yc2, yc3, yd3) == Sum2(v.d0, v.Sum())
  {
  }

  /** Column i after two rounds. */
  lemma MixedTwice(x: nat, i: nat, b: int)
    requires i < 4
    ensures var z := Mixed(Mixed(x));
            && Value(z, 12 + i, b) == Sum5(
                  Value(x, 12 + i, b - 2), Value(x, 4 + i, b), Value(x, 4 + i, b - 3), Value(x, i, b - 2),
                  Value(x, i, b - 3))
            && Value(z, 8 + i, b) == Sum7(
                  Value(x, 12 + i, b), Value(x, 12 + i, b - 2), Value(x, 8 + i, b - 2), Value(x, 4 + i, b - 2),
                  Value(x, 4 + i, b - 3), Value(x, i, b - 2), Value(x, i, b - 3))
            && Value(z, 4 + i, b) == Sum5(
                  Value(x, 8 + i, b), Value(x, 8 + i, b - 2), Value(x, 4 + i, b - 3), Value(x, i, b - 2),
                  Value(x, i, b - 3))
            && Value(z, i, b) == Sum5(
                  Value(x, 12 + i, b), Value(x, 12 + i, b - 2), Value(x, 4 + i, b - 2), Value(x, 4 + i, b - 3),
                  Value(x, i, b - 3))
  {
    hide Mixed, Value, Sum2, Sum3, Sum5, Sum7;
    MixedColumn(Mixed(x), i, b);
    MixedColumn(x, i, b - 1);
    MixedColumn(x, i, b - 2);
    ValueModulo(x, 12 + i, b - 4, b);
    ValueModulo(x, 8 + i, b - 4, b);
    ValueModulo(x, 4 + i, b - 4, b);
    ValueModulo(x, i, b - 4, b);
    TwoRoundsTwelve(ColumnAt(x, i, b));
    TwoRoundsEight(ColumnAt(x, i, b));
    TwoRoundsFour(ColumnAt(x, i, b));
    TwoRoundsZero(ColumnAt(x, i, b));
  }

  /** The exclusive or of the sixteen bits of a column, from any bit down. */
  function Parity(x: nat, i: nat, b: int): int {
    ColumnAt(x, i, b).Sum()
  }

  lemma ParityFrom(x: nat, i: nat, b: int)
    ensures Parity(x, i, b) == Parity(x, i, 3)
  {
    hide Value, Column.Sum;
    InNibble(x, 12 + i, b);
    InNibble(x, 8 + i, b);
    InNibble(x, 4 + i, b);
    InNibble(x, i, b);
    SumRotates(ColumnAt(x, i, 3));
  }

  /** The four bits of a nibble, from bit b down, are one of its rotations. */
  lemma InNibble(x: nat, k: nat, b: int)
    ensures Value(x, k, b) == Value(x, k, b % 4)
    ensures Value(x, k, b - 1) == Value(x, k, (b % 4 + 3) % 4)
    ensures Value(x, k, b - 2) == Value(x, k, (b % 4 + 2) % 4)
    ensures Value(x, k, b - 3) == Value(x, k, (b % 4 + 1) % 4)
  {
    hide Value;
    ValueModulo(x, k, b, b % 4);
    ValueModulo(x, k, b - 1, (b % 4 + 3) % 4);
    ValueModulo(x, k, b - 2, (b % 4 + 2) % 4);
    ValueModulo(x, k, b - 3, (b % 4 + 1) % 4);
  }

  lemma SumRotates(v: Column)
    ensures v.Rotated().Sum() == v.Sum()
    ensures v.Rotated().Rotated().Sum() == v.Sum()
    ensures v.Rotated().Rotated().Rotated().Sum() == v.Sum()
  {
  }

  /** Four rounds add the parity of a column to each of its bits. */
  lemma FourRounds(x: nat, i: nat, b: int)
    requires i < 4
    ensures var z := Mixed(Mixed(Mixed(Mixed(x))));
            && Value(z, 12 + i, b) == Sum2(Value(x, 12 + i, b), Parity(x, i, b))
            && Value(z, 8 + i, b) == Sum2(Value(x, 8 + i, b), Parity(x, i, b))
            && Value(z, 4 + i, b) == Sum2(Value(x, 4 + i, b), Parity(x, i, b))
            && Value(z, i, b) == Sum2(Value(x, i, b), Parity(x, i, b))
  {
    hide Mixed, Value, Sum2, Sum3, Sum5, Sum7, Column.Sum;
    MixedTwice(Mixed(Mixed(x)), i, b);
    MixedTwice(x, i, b);
    MixedTwice(x, i, b - 2);
    MixedTwice(x, i, b - 3);
    ValueModulo(x, 12 + i, b - 4, b);
    ValueModulo(x, 12 + i, b - 5, b - 1);
    ValueModulo(x, 12 + i, b - 6, b - 2);
    ValueModulo(x, 8 + i, b - 4, b);
    ValueModulo(x, 8 + i, b - 5, b - 1);
    ValueModulo(x, 8 + i, b - 6, b - 2);
    ValueModulo(x, 4 + i, b - 4, b);
    ValueModulo(x, 4 + i, b - 5, b - 1);
    ValueModulo(x, 4 + i, b - 6, b - 2);
    ValueModulo(x, i, b - 4, b);
    ValueModulo(x, i, b - 5, b - 1);
    ValueModulo(x, i, b - 6, b - 2);
    TwoDoubleRoundsTwelve(ColumnAt(x, i, b));
    TwoDoubleRoundsEight(ColumnAt(x, i, b));
    TwoDoubleRoundsFour(ColumnAt(x, i, b));
    TwoDoubleRoundsZero(ColumnAt(x, i, b));
  }

  lemma FourRoundsAt(x: nat, k: nat, b: int)
    requires k < 16
    ensures Value(Mixed(Mixed(Mixed(Mixed(x)))), k, b) == Sum2(Value(x, k, b), Parity(x, k % 4, 3))
  {
    hide *;
    var i := k % 4;
    FourRounds(x, i, b);
    ParityFrom(x, i, b);
    assert k == 12 + i || k == 8 + i || k == 4 + i || k == i;
  }

  lemma FlipTwice(p: int, t: int)
    requires p == 0 || p == 1
    ensures Sum2(Sum2(p, t), t) == p
  {
  }

  lemma ParityKept(x: nat, i: nat)
    requires i < 4
    ensures Parity(Mixed(Mixed(Mixed(Mixed(x)))), i, 3) == Parity(x, i, 3)
  {
    hide Value, Mixed, Sum2, Column.Sum;
    FourRounds(x, i, 3);
    FourRounds(x, i, 2);
    FourRounds(x, i, 1);
    FourRounds(x, i, 0);
    ParityFrom(x, i, 2);
    ParityFrom(x, i, 1);
    ParityFrom(x, i, 0);
    SixteenFlips(ColumnAt(x, i, 3), Parity(x, i, 3));
  }

  /** Flipping sixteen bits keeps their parity. */
  lemma SixteenFlips(v: Column, t: int)
    ensures v.Flipped(t).Sum() == v.Sum()
  {
    hide Sum2;
    FourFlips(v.a0, v.a1, v.a2, v.a3, t);
    FourFlips(v.b0, v.b1, v.b2, v.b3, t);
    FourFlips(v.c0, v.c1, v.c2, v.c3, t);
    FourFlips(v.d0, v.d1, v.d2, v.d3, t);
  }

  lemma FourFlips(p: int, q: int, r: int, s: int, t: int)
    ensures (Sum2(p, t) + Sum2(q, t) + Sum2(r, t) + Sum2(s, t)) % 2 == (p + q + r + s) % 2
  {
    hide Sum2;
    TwoFlips(p, q, t);
    TwoFlips(r, s, t);
  }

  lemma TwoFlips(p: int, q: int, t: int)
    ensures (Sum2(p, t) + Sum2(q, t)) % 2 == (p + q) % 2
  {
  }

  function MixedTimes(x: nat, n: nat): nat
    decreases n
  {
    if n == 0 then x else MixedTimes(Mixed(x), n - 1)
  }

  lemma EightTimes(x: nat)
    ensures MixedTimes(x, 8) == Mixed(Mixed(Mixed(Mixed(Mixed(Mixed(Mixed(Mixed(x))))))))
  {
    hide Mixed;
  }

  /** Eight rounds are the identity. */
  lemma EightRounds(x: nat)
    requires x < Pow2(64)
    ensures MixedTimes(x, 8) == x
  {
    hide *;
    var z := Mixed(Mixed(Mixed(Mixed(x))));
    var w := Mixed(Mixed(Mixed(Mixed(z))));
    EightTimes(x);
    forall j: nat | j < 64
      ensures Bit(w, j) == Bit(x, j)
    {
      var k, b := j / 4, j % 4;
      FourRoundsAt(x, k, b);
      FourRoundsAt(z, k, b);
      ParityKept(x, k % 4);
      FlipTwice(Value(x, k, b), Parity(x, k % 4, 3));
      ValueIsBit(x, k, b);
      ValueIsBit(w, k, b);
      assert j == 4 * k + b;
    }
    MixedBits(Mixed(Mixed(Mixed(z))));
    SameWord(64, w, x);
  }

  lemma ValueIsBit(x: nat, k: nat, b: nat)
    requires b < 4
    ensures Value(x, k, b) == if Bit(x, 4 * k + b) then 1 else 0
  {
  }

  /** So the big shuffle is a permutation of the words, undone by seven more. */
  lemma MixInverse(x: nat)
    requires x < Pow2(64)
    ensures MixedTimes(Mixed(x), 7) == x && Mixed(MixedTimes(x, 7)) == x
    ensures Mixed(x) < Pow2(64) && MixedTimes(x, 7) < Pow2(64)
  {
    EightRounds(x);
    hide Mixed, Pow2;
    MixedBits(x);
    LastRound(x, 7);
    LastRound(x, 6);
    MixedBits(MixedTimes(x, 6));
  }

  lemma {:induction false} LastRound(x: nat, n: nat)
    ensures MixedTimes(x, n + 1) == Mixed(MixedTimes(x, n))
    decreases n
  {
    hide Mixed;
    if n > 0 {
      LastRound(Mixed(x), n - 1);
    }
  }

  // ---- The hash ----

  datatype PACKey = PACKey(high: nat, low: nat, number: nat)

  function PAC(data: nat, context: nat, key: PACKey): nat {
    Substituted(Mixed(Substituted(Xor(Mixed(Shuffled(Xor(Shuffled(Mixed(Xor(data, key.high))), key.low))), context))))
  }

  method ComputePAC(data: nat, context: nat, key: PACKey) returns (pac: nat)
    ensures pac == PAC(data, context, key)
  {
    hide Mixed, Shuffled, Substituted, Xor;
    var workingValue := Xor(data, key.high);
    workingValue := BigShuffle(workingValue);
    workingValue := ShuffleNibbles(workingValue);
    workingValue := Xor(workingValue, key.low);
    workingValue := ShuffleNibbles(workingValue);
    workingValue := BigShuffle(workingValue);
    workingValue := Xor(workingValue, context);
    workingValue := SubstituteNibbles(workingValue);
    workingValue := BigShuffle(workingValue);
    workingValue := SubstituteNibbles(workingValue);
    pac := workingValue;
  }

  /** The data that gives a code, for a context and a key. */
  function DataFor(pac: nat, context: nat, key: PACKey): nat {
    var v := Xor(Unsubstituted(MixedTimes(Unsubstituted(pac), 7)), context);
    Xor(MixedTimes(Unshuffled(Xor(Unshuffled(MixedTimes(v, 7)), key.low)), 7), key.high)
  }

  /** The context that gives a code, for data and a key. */
  function ContextFor(pac: nat, data: nat, key: PACKey): nat {
    Xor(Unsubstituted(MixedTimes(Unsubstituted(pac), 7)),
        Mixed(Shuffled(Xor(Shuffled(Mixed(Xor(data, key.high))), key.low))))
  }

  lemma XorTwice(x: nat, y: nat)
    ensures Xor(Xor(x, y), y) == x && Xor(x, y) == Xor(y, x)
  {
    hide Bit, Xor;
    forall j: nat
      ensures Bit(Xor(Xor(x, y), y), j) == Bit(x, j) && Bit(Xor(x, y), j) == Bit(Xor(y, x), j)
    {
      BitXor(Xor(x, y), y, j);
      BitXor(x, y, j);
      BitXor(y, x, j);
    }
    SameBits(Xor(Xor(x, y), y), x);
    SameBits(Xor(x, y), Xor(y, x));
  }

  lemma XorFits(x: nat, y: nat, k: nat)
    requires x < Pow2(k) && y < Pow2(k)
    ensures Xor(x, y) < Pow2(k)
  {
    assert Xor(0, 0) == 0;
    hide *;
    ShrOfXor(x, y, k);
    LowOfSmall(x, k);
    LowOfSmall(y, k);
    Split(Xor(x, y), k);
  }

  lemma XorCancels(x: nat, y: nat)
    requires x < Pow2(64) && y < Pow2(64)
    ensures Xor(Xor(x, y), y) == x && Xor(Xor(y, x), y) == x && Xor(x, y) == Xor(y, x)
    ensures Xor(x, y) < Pow2(64)
  {
    hide *;
    XorTwice(x, y);
    XorFits(x, y, 64);
  }

  predicate KeyFits(key: PACKey) {
    key.high < Pow2(64) && key.low < Pow2(64)
  }

  /** For each context and key the hash is a permutation of the data. */
  lemma PACPermutesData(data: nat, context: nat, key: PACKey)
    requires data < Pow2(64) && context < Pow2(64) && KeyFits(key)
    ensures PAC(data, context, key) < Pow2(64) && DataFor(data, context, key) < Pow2(64)
    ensures DataFor(PAC(data, context, key), context, key) == data
    ensures PAC(DataFor(data, context, key), context, key) == data
  {
    hide Pow2, Mixed, MixedTimes, Shuffled, Unshuffled, Substituted, Unsubstituted, Xor;
    var a := Xor(data, key.high);
    XorCancels(data, key.high);
    MixInverse(a);
    var b := Mixed(a);
    ShuffleInverse(b);
    var c := Shuffled(b);
    XorCancels(c, key.low);
    var d := Xor(c, key.low);
    ShuffleInverse(d);
    var e := Shuffled(d);
    MixInverse(e);
    var f := Mixed(e);
    XorCancels(f, context);
    var g := Xor(f, context);
    SubstituteInverse(g);
    MixInverse(Substituted(g));
    SubstituteInverse(Mixed(Substituted(g)));
    DataForIsRight(data, context, key);
  }

  lemma DataForIsRight(pac: nat, context: nat, key: PACKey)
    requires pac < Pow2(64) && context < Pow2(64) && KeyFits(key)
    ensures DataFor(pac, context, key) < Pow2(64) && PAC(DataFor(pac, context, key), context, key) == pac
  {
    hide Pow2, Mixed, MixedTimes, Shuffled, Unshuffled, Substituted, Unsubstituted, Xor;
    SubstituteInverse(pac);
    var a := Unsubstituted(pac);
    MixInverse(a);
    var b := MixedTimes(a, 7);
    SubstituteInverse(b);
    var c := Unsubstituted(b);
    XorCancels(c, context);
    var d := Xor(c, context);
    MixInverse(d);
    var e := MixedTimes(d, 7);
    ShuffleInverse(e);
    var f := Unshuffled(e);
    XorCancels(f, key.low);
    var g := Xor(f, key.low);
    ShuffleInverse(g);
    var h := Unshuffled(g);
    MixInverse(h);
    XorCancels(MixedTimes(h, 7), key.high);
  }

  /** For each data word and key the hash is a permutation of the context. */
  lemma PACPermutesContext(data: nat, context: nat, key: PACKey)
    requires data < Pow2(64) && context < Pow2(64) && KeyFits(key)
    ensures PAC(data, context, key) < Pow2(64) && ContextFor(context, data, key) < Pow2(64)
    ensures ContextFor(PAC(data, context, key), data, key) == context
    ensures PAC(data, ContextFor(context, data, key), key) == context
  {
    hide Pow2, Mixed, MixedTimes, Shuffled, Unshuffled, Substituted, Unsubstituted, Xor;
    XorCancels(data, key.high);
    MixInverse(Xor(data, key.high));
    var c := Shuffled(Mixed(Xor(data, key.high)));
    ShuffleInverse(Mixed(Xor(data, key.high)));
    XorCancels(c, key.low);
    ShuffleInverse(Xor(c, key.low));
    MixInverse(Shuffled(Xor(c, key.low)));
    var f := Mixed(Shuffled(Xor(c, key.low)));
    XorCancels(f, context);
    var g := Xor(f, context);
    XorCancels(context, f);
    SubstituteInverse(g);
    MixInverse(Substituted(g));
    SubstituteInverse(Mixed(Substituted(g)));

    SubstituteInverse(context);
    MixInverse(Unsubstituted(context));
    SubstituteInverse(MixedTimes(Unsubstituted(context), 7));
    var u := Unsubstituted(MixedTimes(Unsubstituted(context), 7));
    XorCancels(u, f);
    XorTwice(Xor(u, f), f);
  }
}
