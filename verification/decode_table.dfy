/** One decode node: its patterns as masks and values over the sampled bits, the
    bits extracted from an instruction word, and the table entry they select. */
module DecodeTables {
  import opened Bits
  import opened DecodePatterns

  // ---- Masks and values ----

  /** The mask of a pattern: a one for each symbol that is not x. */
  function MaskOf(s: seq<nat>): nat {
    if s == [] then 0 else 2 * MaskOf(s[..|s| - 1]) + (if s[|s| - 1] == SYMBOL_X then 0 else 1)
  }

  /** The value of a pattern: a one for each symbol 1. */
  function ValueOf(s: seq<nat>): nat {
    if s == [] then 0 else 2 * ValueOf(s[..|s| - 1]) + s[|s| - 1] % 2
  }

  method GenerateMaskValuePair(pattern: nat) returns (mask: nat, value: nat)
    requires IsPattern(pattern)
    ensures mask == MaskOf(Symbols(pattern)) && value == ValueOf(Symbols(pattern))
  {
    hide And, Or, Shl, Shr, HighBit, IsPattern, Symbols, MaskOf, ValueOf, GetSymbolAt, GetPatternLength;
    ghost var s := Symbols(pattern);
    LengthIs(pattern);
    mask, value := 0, 0;
    NoSymbols();
    assert s[..0] == [];
    for i := 0 to GetPatternLength(pattern)
      invariant mask == MaskOf(s[..i]) && value == ValueOf(s[..i])
    {
      SymbolAt(pattern, i);
      var sym := GetSymbolAt(pattern, i);
      AndOne(sym);
      PushBit(mask, if sym == SYMBOL_X then 0 else 1);
      PushBit(value, And(sym, 1));
      LastSymbol(s, i);
      mask := Or(Shl(mask, 1), if sym == SYMBOL_X then 0 else 1);
      value := Or(Shl(value, 1), And(sym, 1));
    }
    assert s[..|s|] == s;
  }

  lemma NoSymbols()
    ensures MaskOf([]) == 0 && ValueOf([]) == 0
  {
  }

  lemma PushBit(a: nat, r: nat)
    requires r < 2
    ensures Or(Shl(a, 1), r) == 2 * a + r
  {
    assert Pow2(1) == 2;
    OrIsSum(a, 1, r);
    ShlIsMul(a, 1);
  }

  lemma LastSymbol(s: seq<nat>, i: nat)
    requires i < |s|
    ensures MaskOf(s[..i + 1]) == 2 * MaskOf(s[..i]) + (if s[i] == SYMBOL_X then 0 else 1)
    ensures ValueOf(s[..i + 1]) == 2 * ValueOf(s[..i]) + s[i] % 2
  {
    assert s[..i + 1][..i] == s[..i];
  }

  /** A one at each of the positions. */
  function SampledMask(bits: seq<nat>): nat {
    if bits == [] then 0 else Or(SampledMask(bits[..|bits| - 1]), Shl(1, bits[|bits| - 1]))
  }

  method GenerateSampledBitsMask(bits: seq<nat>) returns (mask: nat)
    ensures mask == SampledMask(bits)
  {
    hide Or, Shl;
    mask := 0;
    for i := 0 to |bits|
      invariant mask == SampledMask(bits[..i])
    {
      assert bits[..i + 1][..i] == bits[..i];
      mask := Or(mask, Shl(1, bits[i]));
    }
    assert bits[..|bits|] == bits;
  }

  lemma {:induction false} SampledMaskBits(bits: seq<nat>)
    ensures forall j: nat :: Bit(SampledMask(bits), j) <==> j in bits
  {
    hide Or, Shl, Bit;
    ZeroBits();
    if bits != [] {
      var n := |bits| - 1;
      SampledMaskBits(bits[..n]);
      OrBit(SampledMask(bits[..n]), bits[n]);
      assert bits == bits[..n] + [bits[n]];
    }
  }

  lemma OrBit(mask: nat, b: nat)
    ensures forall j: nat :: Bit(Or(mask, Shl(1, b)), j) <==> Bit(mask, j) || j == b
  {
    hide *;
    ShlOfOne(b);
    forall j: nat
      ensures Bit(Or(mask, Shl(1, b)), j) <==> Bit(mask, j) || j == b
    {
      BitOr(mask, Shl(1, b), j);
      BitOfPow2(b, j);
    }
  }

  lemma SampledMaskFits(bits: seq<nat>)
    requires IsSample(bits)
    ensures SampledMask(bits) < Pow2(32)
  {
    hide Bit, Pow2, Low, SampledMask;
    var mask := SampledMask(bits);
    SampledMaskBits(bits);
    forall j: nat
      ensures Bit(mask, j) == Bit(Low(mask, 32), j)
    {
      BitLow(mask, 32, j);
    }
    SameBits(mask, Low(mask, 32));
    Split(mask, 32);
  }

  // ---- Extracting the sampled bits of a word ----

  /** The bits of the word at the set positions of the mask, moved together with
      their order kept. */
  function Gather(word: nat, mask: nat): nat
    decreases mask
  {
    if mask == 0 then 0
    else if mask % 2 == 1 then 2 * Gather(word / 2, mask / 2) + word % 2
    else Gather(word / 2, mask / 2)
  }

  /** The word has the pattern's symbol at each sampled position from k up. */
  predicate MatchesFrom(word: nat, bits: seq<nat>, s: seq<nat>, k: nat)
    requires |s| == |bits|
  {
    forall i :: 0 <= i < |bits| && bits[i] >= k ==> Fits(s[i], Bit(word, bits[i]))
  }

  predicate Fits(symbol: nat, bit: bool) {
    symbol == SYMBOL_X || bit == (symbol == SYMBOL_1)
  }

  /** The word matches the pattern, symbol by symbol. */
  predicate Matches(word: nat, bits: seq<nat>, s: seq<nat>)
    requires |s| == |bits|
  {
    forall i :: 0 <= i < |bits| ==> Fits(s[i], Bit(word, bits[i]))
  }

  /** What a pattern literal means: the i-th character is for the i-th sampled bit,
      '1' for a set bit, '0' for a clear one and 'x' for either. */
  lemma LiteralMatches(word: nat, bits: seq<nat>, x: string)
    requires IsPatternString(x) && |x| == |bits|
    ensures |Symbols(StrToTwoBitPattern(x, END_OF_PATTERN))| == |bits|
    ensures Matches(word, bits, Symbols(StrToTwoBitPattern(x, END_OF_PATTERN)))
            <==> forall i :: 0 <= i < |x| ==>
                   (x[i] == '1' ==> Bit(word, bits[i])) && (x[i] == '0' ==> !Bit(word, bits[i]))
  {
    hide Bit, StrToTwoBitPattern, IsPattern, Symbols, SymbolsOf, Pow2, SymbolOf;
    StringPattern(x);
    forall i | 0 <= i < |x|
      ensures Fits(SymbolsOf(x)[i], Bit(word, bits[i])) <==>
                (x[i] == '1' ==> Bit(word, bits[i])) && (x[i] == '0' ==> !Bit(word, bits[i]))
    {
      CharacterFits(x[i], Bit(word, bits[i]));
    }
  }

  lemma CharacterFits(c: char, bit: bool)
    requires c in "01x"
    ensures Fits(SymbolOf(c), bit) <==> (c == '1' ==> bit) && (c == '0' ==> !bit)
  {
    assert c == '0' || c == '1' || c == 'x';
  }

  lemma BitIsLowOfShr(n: nat, k: nat)
    ensures Shr(n, k) % 2 == 1 <==> Bit(n, k)
    ensures Shr(n, k) / 2 == Shr(n, k + 1)
  {
    BitShr(n, k, 0);
    ShrStep(n, k);
  }

  lemma {:induction false} ShrStep(n: nat, k: nat)
    ensures Shr(n, k) / 2 == Shr(n, k + 1)
    decreases k
  {
    if k > 0 {
      ShrStep(n / 2, k - 1);
    }
  }

  lemma AndPush(a: nat, x: nat, m: nat, y: nat)
    requires x < 2 && y < 2
    ensures And(2 * a + x, 2 * m + y) == 2 * And(a, m) + (if x == 1 && y == 1 then 1 else 0)
  {
    AndStep(2 * a + x, 2 * m + y);
    assert (2 * a + x) / 2 == a && (2 * m + y) / 2 == m;
  }

  /** Comparing the extracted bits under the ordered pattern's mask compares each
      sampled bit with its symbol. */
  lemma {:induction false} OrderedComparison(word: nat, mask: nat, bits: seq<nat>, s: seq<nat>, k: nat)
    requires IsSample(bits) && |s| == |bits| && AreSymbols(s) && k <= 32
    requires mask < Pow2(32) && forall j: nat :: Bit(mask, j) <==> j in bits
    ensures var o := Ordered(bits, s, k);
            And(Gather(Shr(word, k), Shr(mask, k)), MaskOf(o)) == ValueOf(o) <==> MatchesFrom(word, bits, s, k)
    ensures Gather(Shr(word, k), Shr(mask, k)) < Pow2(|Ordered(bits, s, k)|)
    decreases 32 - k
  {
    hide And, Shr, Bit, FieldAt, Ordered, Gather, MaskOf, ValueOf, IsSample;
    if k == 32 {
      AllSampled(word, mask, bits, s);
    } else {
      OrderedComparison(word, mask, bits, s, k + 1);
      ComparisonStep(word, mask, bits, s, k);
    }
  }

  lemma AllSampled(word: nat, mask: nat, bits: seq<nat>, s: seq<nat>)
    requires IsSample(bits) && |s| == |bits|
    requires mask < Pow2(32)
    ensures Ordered(bits, s, 32) == [] && MaskOf([]) == ValueOf([]) == 0 && MatchesFrom(word, bits, s, 32)
    ensures Gather(Shr(word, 32), Shr(mask, 32)) == 0 && And(0, 0) == 0
  {
    hide Pow2, Shr, Bit;
    LowOfSmall(mask, 32);
  }

  lemma ComparisonStep(word: nat, mask: nat, bits: seq<nat>, s: seq<nat>, k: nat)
    requires IsSample(bits) && |s| == |bits| && AreSymbols(s) && k < 32
    requires Bit(mask, k) <==> k in bits
    requires var o := Ordered(bits, s, k + 1);
             And(Gather(Shr(word, k + 1), Shr(mask, k + 1)), MaskOf(o)) == ValueOf(o)
             <==> MatchesFrom(word, bits, s, k + 1)
    requires Gather(Shr(word, k + 1), Shr(mask, k + 1)) < Pow2(|Ordered(bits, s, k + 1)|)
    ensures var o := Ordered(bits, s, k);
            And(Gather(Shr(word, k), Shr(mask, k)), MaskOf(o)) == ValueOf(o) <==> MatchesFrom(word, bits, s, k)
    ensures Gather(Shr(word, k), Shr(mask, k)) < Pow2(|Ordered(bits, s, k)|)
  {
    hide And, Shr, Bit, FieldAt, IsSample, Pow2, Ordered, Gather, MatchesFrom, MaskOf, ValueOf, AreSymbols;
    var o, p := Ordered(bits, s, k + 1), Ordered(bits, s, k);
    BitIsLowOfShr(word, k);
    BitIsLowOfShr(mask, k);
    var high := Gather(Shr(word, k + 1), Shr(mask, k + 1));
    GatherStep(Shr(word, k), Shr(mask, k));
    OrderedNext(bits, s, k);
    MatchStep(word, bits, s, k);
    if k in bits {
      var f := FieldAt(bits, s, |bits|, k);
      PushedSymbol(o, f);
      Pow2Step(|p|);
      var low, m := Shr(word, k) % 2, if f == SYMBOL_X then 0 else 1;
      assert p == o + [f];
      assert Fits(f, Bit(word, k)) <==> (if low == 1 && m == 1 then 1 else 0) == f % 2;
      AndPush(high, low, MaskOf(o), m);
    } else {
      assert p == o;
    }
  }

  lemma GatherStep(w: nat, m: nat)
    ensures Gather(w, m) ==
              if m % 2 == 1 then 2 * Gather(w / 2, m / 2) + w % 2 else Gather(w / 2, m / 2)
  {
  }

  lemma OrderedNext(bits: seq<nat>, s: seq<nat>, k: nat)
    requires |s| == |bits| && k < 32 && AreSymbols(s)
    ensures var f := FieldAt(bits, s, |bits|, k);
            Ordered(bits, s, k) == Ordered(bits, s, k + 1) + if k in bits then [f] else []
    ensures k in bits ==> FieldAt(bits, s, |bits|, k) <= SYMBOL_X
  {
    assert bits[..|bits|] == bits;
  }

  lemma PushedSymbol(o: seq<nat>, f: nat)
    ensures MaskOf(o + [f]) == 2 * MaskOf(o) + (if f == SYMBOL_X then 0 else 1)
    ensures ValueOf(o + [f]) == 2 * ValueOf(o) + f % 2
  {
    assert (o + [f])[..|o|] == o;
  }

  lemma MatchStep(word: nat, bits: seq<nat>, s: seq<nat>, k: nat)
    requires IsSample(bits) && |s| == |bits|
    ensures MatchesFrom(word, bits, s, k) <==>
            MatchesFrom(word, bits, s, k + 1) && (k in bits ==> Fits(FieldAt(bits, s, |bits|, k), Bit(word, k)))
  {
    hide Bit, FieldAt, Fits;
    if k in bits {
      var i :| 0 <= i < |bits| && bits[i] == k;
      FieldOf(bits, s, |bits|, i);
      if MatchesFrom(word, bits, s, k) {
        assert Fits(s[i], Bit(word, bits[i]));
      }
      if MatchesFrom(word, bits, s, k + 1) && Fits(s[i], Bit(word, k)) {
        forall j | 0 <= j < |bits| && bits[j] >= k
          ensures Fits(s[j], Bit(word, bits[j]))
        {
          if bits[j] == k {
            FieldOf(bits, s, |bits|, j);
          }
        }
      }
    }
  }

  lemma MatchesAll(word: nat, bits: seq<nat>, s: seq<nat>)
    requires |s| == |bits|
    ensures MatchesFrom(word, bits, s, 0) <==> Matches(word, bits, s)
  {
    hide Fits, Bit;
  }

  /** The table index of a word satisfies a pattern's mask and value exactly if the
      word matches the pattern symbol by symbol, in whatever order the bits are
      sampled; and it is a valid index. */
  lemma IndexMatches(word: nat, bits: seq<nat>, s: seq<nat>)
    requires IsSample(bits) && |s| == |bits| && AreSymbols(s)
    ensures var o := Ordered(bits, s, 0);
            And(Gather(word, SampledMask(bits)), MaskOf(o)) == ValueOf(o) <==> Matches(word, bits, s)
    ensures Gather(word, SampledMask(bits)) < Pow2(|bits|)
  {
    var mask := SampledMask(bits);
    assert Shr(word, 0) == word && Shr(mask, 0) == mask;
    hide *;
    SampledMaskBits(bits);
    SampledMaskFits(bits);
    OrderedComparison(word, mask, bits, s, 0);
    OrderedKeepsLength(bits, s);
    MatchesAll(word, bits, s);
  }

  // ---- The mask and value of a pattern without x, over the whole word ----

  function SingleValue(bits: seq<nat>, s: seq<nat>): nat
    requires |s| == |bits|
  {
    if bits == [] then 0
    else
      var n := |bits| - 1;
      var below := SingleValue(bits[..n], s[..n]);
      if s[n] == SYMBOL_1 then Or(below, Shl(1, bits[n])) else below
  }

  method SingleMaskAndValue(bits: seq<nat>, pattern: nat) returns (mask: nat, value: nat)
    requires IsPattern(pattern) && |Symbols(pattern)| == |bits|
    ensures mask == SampledMask(bits) && value == SingleValue(bits, Symbols(pattern))
  {
    hide Or, Shl, IsPattern, Symbols, GetSymbolAt, GetPatternLength;
    ghost var s := Symbols(pattern);
    LengthIs(pattern);
    mask, value := 0, 0;
    for i := 0 to |bits|
      invariant mask == SampledMask(bits[..i]) && value == SingleValue(bits[..i], s[..i])
    {
      SymbolAt(pattern, i);
      assert bits[..i + 1][..i] == bits[..i] && s[..i + 1][..i] == s[..i];
      mask := Or(mask, Shl(1, bits[i]));
      if GetSymbolAt(pattern, i) == SYMBOL_1 {
        value := Or(value, Shl(1, bits[i]));
      }
    }
    assert bits[..|bits|] == bits && s[..|s|] == s;
  }

  predicate OneAt(bits: seq<nat>, s: seq<nat>, j: nat)
    requires |s| == |bits|
  {
    exists i :: 0 <= i < |bits| && bits[i] == j && s[i] == SYMBOL_1
  }

  lemma {:induction false} SingleValueBits(bits: seq<nat>, s: seq<nat>)
    requires |s| == |bits|
    ensures forall j: nat :: Bit(SingleValue(bits, s), j) <==> OneAt(bits, s, j)
  {
    hide Or, Shl, Bit;
    ZeroBits();
    if bits != [] {
      var n := |bits| - 1;
      SingleValueBits(bits[..n], s[..n]);
      OrBit(SingleValue(bits[..n], s[..n]), bits[n]);
      forall j: nat
        ensures OneAt(bits, s, j) <==> OneAt(bits[..n], s[..n], j) || (bits[n] == j && s[n] == SYMBOL_1)
      {
        OneAtStep(bits, s, j);
      }
    }
  }

  lemma OneAtStep(bits: seq<nat>, s: seq<nat>, j: nat)
    requires |s| == |bits| && bits != []
    ensures var n := |bits| - 1;
            OneAt(bits, s, j) <==> OneAt(bits[..n], s[..n], j) || (bits[n] == j && s[n] == SYMBOL_1)
  {
    var n := |bits| - 1;
    if i :| 0 <= i < n && bits[i] == j && s[i] == SYMBOL_1 {
      assert bits[..n][i] == j && s[..n][i] == SYMBOL_1;
    }
    if OneAt(bits[..n], s[..n], j) {
      var i :| 0 <= i < n && bits[..n][i] == j && s[..n][i] == SYMBOL_1;
      assert bits[i] == j && s[i] == SYMBOL_1;
    }
  }

  /** For a pattern without x, comparing the masked word with the value compares
      each sampled bit with its symbol. */
  lemma SingleComparison(word: nat, bits: seq<nat>, s: seq<nat>)
    requires IsSample(bits) && |s| == |bits| && SYMBOL_X !in s
    ensures And(word, SampledMask(bits)) == SingleValue(bits, s) <==> Matches(word, bits, s)
  {
    hide And, Bit, SampledMask, SingleValue, OneAt, IsSample;
    var masked, value := And(word, SampledMask(bits)), SingleValue(bits, s);
    SampledMaskBits(bits);
    SingleValueBits(bits, s);
    forall j: nat
      ensures Bit(masked, j) <==> Bit(word, j) && j in bits
    {
      BitAnd(word, SampledMask(bits), j);
    }
    forall i | 0 <= i < |bits|
      ensures OneAt(bits, s, bits[i]) <==> s[i] == SYMBOL_1
    {
      OneAtPosition(bits, s, i);
    }
    if Matches(word, bits, s) {
      forall j: nat
        ensures Bit(masked, j) == Bit(value, j)
      {
        if j in bits {
          var i :| 0 <= i < |bits| && bits[i] == j;
          assert Fits(s[i], Bit(word, bits[i]));
        } else {
          NotSampled(bits, s, j);
        }
      }
      SameBits(masked, value);
    }
    if masked == value {
      forall i | 0 <= i < |bits|
        ensures Fits(s[i], Bit(word, bits[i]))
      {
        assert Bit(masked, bits[i]) == Bit(value, bits[i]);
      }
    }
  }

  lemma OneAtPosition(bits: seq<nat>, s: seq<nat>, i: nat)
    requires IsSample(bits) && |s| == |bits| && i < |bits|
    ensures OneAt(bits, s, bits[i]) <==> s[i] == SYMBOL_1
  {
  }

  lemma NotSampled(bits: seq<nat>, s: seq<nat>, j: nat)
    requires |s| == |bits| && j !in bits
    ensures !OneAt(bits, s, j)
  {
  }
}
