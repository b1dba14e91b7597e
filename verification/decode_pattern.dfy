/** Bit patterns of the decode tables. A pattern is a word of two-bit symbols, the
    first symbol highest, above which the value 3 marks the end. */
module DecodePatterns {
  import opened Bits

  /** The symbols '0', '1' and 'x', by their two-bit codes. */
  const SYMBOL_1: nat := 1
  const SYMBOL_X: nat := 2
  const END_OF_PATTERN: nat := 3
  const MAX_PATTERN_LENGTH: nat := 15

  predicate AreSymbols(s: seq<nat>) {
    forall i :: 0 <= i < |s| ==> s[i] <= SYMBOL_X
  }

  function Encode(s: seq<nat>): (p: nat)
    ensures p >= END_OF_PATTERN || !AreSymbols(s)
  {
    if s == [] then END_OF_PATTERN else 4 * Encode(s[..|s| - 1]) + s[|s| - 1]
  }

  /** The symbols of a pattern, first one first. */
  function Symbols(p: nat): (s: seq<nat>) {
    if p <= END_OF_PATTERN then [] else Symbols(p / 4) + [p % 4]
  }

  /** The words that are patterns: an end marker, then symbols 0, 1 and x only. */
  predicate IsPattern(p: nat) {
    p == END_OF_PATTERN || (p > END_OF_PATTERN && p % 4 <= SYMBOL_X && IsPattern(p / 4))
  }

  lemma {:induction false} SymbolsUndoesEncode(s: seq<nat>)
    requires AreSymbols(s)
    ensures IsPattern(Encode(s)) && Symbols(Encode(s)) == s
  {
    if s != [] {
      var init := s[..|s| - 1];
      SymbolsUndoesEncode(init);
      assert Encode(s) / 4 == Encode(init) && Encode(s) % 4 == s[|s| - 1];
      assert s == init + [s[|s| - 1]];
    }
  }

  lemma {:induction false} EncodeUndoesSymbols(p: nat)
    requires IsPattern(p)
    ensures AreSymbols(Symbols(p)) && Encode(Symbols(p)) == p
  {
    if p != END_OF_PATTERN {
      EncodeUndoesSymbols(p / 4);
      var s := Symbols(p);
      assert s[..|s| - 1] == Symbols(p / 4);
    }
  }

  // ---- Patterns written as strings ----

  function SymbolOf(c: char): nat
    requires c in "01x"
  {
    if c == 'x' then 2 else c as nat - '0' as nat
  }

  predicate IsPatternString(x: string) {
    forall c <- x :: c in "01x"
  }

  function SymbolsOf(x: string): (s: seq<nat>)
    requires IsPatternString(x)
    ensures |s| == |x|
    ensures forall i :: 0 <= i < |x| ==> s[i] == SymbolOf(x[i])
  {
    seq(|x|, i requires 0 <= i < |x| => SymbolOf(x[i]))
  }

  /** The string is read from the front, each symbol shifted in below. */
  function StrToTwoBitPattern(x: string, a: nat): nat
    requires IsPatternString(x)
  {
    if x == "" then a
    else
      var r := SymbolOf(x[0]);
      StrToTwoBitPattern(x[1..], Or(Shl(a, 2), r))
  }

  lemma PushSymbol(a: nat, r: nat)
    requires r < 4
    ensures Or(Shl(a, 2), r) == 4 * a + r
  {
    assert Pow2(2) == 4;
    OrIsSum(a, 2, r);
    ShlIsMul(a, 2);
  }

  lemma SymbolSmall(c: char)
    requires c in "01x"
    ensures SymbolOf(c) <= SYMBOL_X
  {
  }

  lemma {:induction false} StringPatternIs(x: string, before: seq<nat>)
    requires IsPatternString(x)
    ensures StrToTwoBitPattern(x, Encode(before)) == Encode(before + SymbolsOf(x))
  {
    hide Or, Shl, SymbolOf, IsPattern, Symbols;
    if x == "" {
      assert before + SymbolsOf(x) == before;
    } else {
      var r := SymbolOf(x[0]);
      assert r <= SYMBOL_X by {
        SymbolSmall(x[0]);
      }
      PushSymbol(Encode(before), r);
      var longer := before + [r];
      assert longer[..|longer| - 1] == before;
      StringPatternIs(x[1..], longer);
      assert longer + SymbolsOf(x[1..]) == before + SymbolsOf(x);
    }
  }

  /** A pattern literal has the symbols of its string, in order, and fits 32 bits
      exactly if the string has at most fifteen characters. */
  lemma StringPattern(x: string)
    requires IsPatternString(x)
    ensures IsPattern(StrToTwoBitPattern(x, END_OF_PATTERN))
    ensures Symbols(StrToTwoBitPattern(x, END_OF_PATTERN)) == SymbolsOf(x)
    ensures StrToTwoBitPattern(x, END_OF_PATTERN) < Pow2(32) <==> |x| <= MAX_PATTERN_LENGTH
  {
    var s := SymbolsOf(x);
    StringSymbols(x);
    StringPatternIs(x, []);
    assert [] + s == s && Encode([]) == END_OF_PATTERN;
    assert StrToTwoBitPattern(x, END_OF_PATTERN) == Encode(s);
    hide *;
    SymbolsUndoesEncode(s);
    PatternFits(s);
  }

  lemma PatternFits(s: seq<nat>)
    requires AreSymbols(s)
    ensures Encode(s) < Pow2(32) <==> |s| <= 15
  {
    hide Pow2, Encode, AreSymbols;
    EncodeFits(s);
    if |s| <= 15 {
      Pow2AtMost(2 * |s| + 2, 32);
    } else {
      Pow2AtMost(32, 2 * |s|);
    }
  }

  lemma StringSymbols(x: string)
    requires IsPatternString(x)
    ensures AreSymbols(SymbolsOf(x))
  {
    forall i | 0 <= i < |x|
      ensures SymbolsOf(x)[i] <= SYMBOL_X
    {
      SymbolSmall(x[i]);
    }
  }

  lemma {:induction false} EncodeFits(s: seq<nat>)
    requires AreSymbols(s)
    ensures 3 * Pow2(2 * |s|) <= Encode(s) < 4 * Pow2(2 * |s|) == Pow2(2 * |s| + 2)
  {
    if s == [] {
      assert Pow2(0) == 1 && Pow2(2) == 4;
    } else {
      EncodeFits(s[..|s| - 1]);
      var n := 2 * |s|;
      assert Pow2(n) == 2 * Pow2(n - 1) && Pow2(n - 1) == 2 * Pow2(n - 2);
      assert Pow2(n + 2) == 2 * Pow2(n + 1);
    }
  }

  // ---- Reading a pattern ----

  function GetPatternLength(pattern: nat): nat
    requires pattern > 0
  {
    HighBit(pattern) / 2
  }

  /** The marker is found where the encoding puts it. */
  lemma {:induction false} LengthIs(p: nat)
    requires IsPattern(p)
    ensures p > 0 && GetPatternLength(p) == |Symbols(p)|
    ensures HighBit(p) % 2 == 1 && Shr(p, HighBit(p) - 1) == END_OF_PATTERN
  {
    EncodeUndoesSymbols(p);
    var s := Symbols(p);
    EncodeFits(s);
    var n := 2 * |s|;
    assert Pow2(n + 1) == 2 * Pow2(n);
    HighBitUnique(p, n + 1);
    SplitUnique(p, n, 3, p - 3 * Pow2(n));
  }

  function GetSymbolAt(pattern: nat, pos: nat): nat
    requires pattern > 0 && pos < GetPatternLength(pattern)
  {
    And(Shr(pattern, 2 * (GetPatternLength(pattern) - pos - 1)), 3)
  }

  lemma {:induction false} SymbolFromEnd(p: nat, k: nat)
    requires IsPattern(p) && k < |Symbols(p)|
    ensures And(Shr(p, 2 * k), 3) == Symbols(p)[|Symbols(p)| - 1 - k]
    decreases k
  {
    if k == 0 {
      LowPair(p);
    } else {
      SymbolFromEnd(p / 4, k - 1);
      assert Shr(p, 2 * k) == Shr(p / 2 / 2, 2 * k - 2);
      assert p / 2 / 2 == p / 4;
    }
  }

  lemma LowPair(p: nat)
    ensures And(p, 3) == p % 4
  {
    assert Pow2(2) == 4;
    AndMask(p, 2);
    ShrLowAreDivMod(p, 2);
  }

  lemma SymbolAt(p: nat, pos: nat)
    requires IsPattern(p) && pos < |Symbols(p)|
    ensures p > 0 && pos < GetPatternLength(p) && GetSymbolAt(p, pos) == Symbols(p)[pos] <= SYMBOL_X
  {
    LengthIs(p);
    SymbolFromEnd(p, |Symbols(p)| - pos - 1);
    EncodeUndoesSymbols(p);
  }

  method PatternContainsSymbol(pattern: nat, symbol: nat) returns (found: bool)
    requires IsPattern(pattern)
    ensures found <==> symbol in Symbols(pattern)
  {
    hide And, Shr, HighBit;
    var p := pattern;
    LowPair(p);
    while And(p, 3) != END_OF_PATTERN
      invariant IsPattern(p)
      invariant symbol in Symbols(pattern) <==> symbol in Symbols(p)
      invariant And(p, 3) == p % 4
      decreases p
    {
      if And(p, 3) == symbol {
        return true;
      }
      ShrTwo(p);
      p := Shr(p, 2);
      LowPair(p);
    }
    return false;
  }

  lemma ShrTwo(p: nat)
    ensures Shr(p, 2) == p / 4
  {
    assert Shr(p, 2) == p / 2 / 2;
  }

  // ---- The bits a node samples ----

  /** Sampled positions: distinct, within a 32-bit word, at most 15 of them. */
  predicate IsSample(bits: seq<nat>) {
    && |bits| <= MAX_PATTERN_LENGTH
    && (forall i :: 0 <= i < |bits| ==> bits[i] < 32)
    && (forall i, j :: 0 <= i < j < |bits| ==> bits[i] != bits[j])
  }

  /** The symbol for position b of the word, or the end marker if it is not
      among the first n sampled ones. */
  function FieldAt(bits: seq<nat>, s: seq<nat>, n: nat, b: nat): (f: nat)
    requires n <= |bits| && |s| == |bits|
    ensures AreSymbols(s) ==> f <= END_OF_PATTERN && (f != END_OF_PATTERN <==> b in bits[..n])
  {
    if n == 0 then END_OF_PATTERN
    else if bits[n - 1] == b then s[n - 1]
    else FieldAt(bits, s, n - 1, b)
  }

  lemma {:induction false} FieldOf(bits: seq<nat>, s: seq<nat>, n: nat, i: nat)
    requires IsSample(bits) && |s| == |bits| && i < n <= |bits|
    ensures FieldAt(bits, s, n, bits[i]) == s[i]
    decreases n
  {
    if i < n - 1 {
      FieldOf(bits, s, n - 1, i);
    }
  }

  /** The symbols in the order of the positions they sample, highest position
      first, for positions k and above. */
  function Ordered(bits: seq<nat>, s: seq<nat>, k: nat): (o: seq<nat>)
    requires |s| == |bits|
    ensures AreSymbols(s) ==> AreSymbols(o)
    decreases 32 - k
  {
    if k >= 32 then []
    else
      var f := FieldAt(bits, s, |bits|, k);
      Ordered(bits, s, k + 1) + if f == END_OF_PATTERN then [] else [f]
  }

  /** The sampled positions from k up. */
  function SampledFrom(bits: seq<nat>, k: nat): set<nat> {
    set b | b in bits && b >= k
  }

  lemma SampledEnd(bits: seq<nat>)
    requires IsSample(bits)
    ensures SampledFrom(bits, 32) == {}
  {
  }

  lemma SampledStep(bits: seq<nat>, k: nat)
    ensures |SampledFrom(bits, k)| == |SampledFrom(bits, k + 1)| + if k in bits then 1 else 0
  {
    assert SampledFrom(bits, k) == SampledFrom(bits, k + 1) + if k in bits then {k} else {};
  }

  lemma {:induction false} OrderedLength(bits: seq<nat>, s: seq<nat>, k: nat)
    requires IsSample(bits) && |s| == |bits| && AreSymbols(s) && k <= 32
    ensures |Ordered(bits, s, k)| == |SampledFrom(bits, k)|
    decreases 32 - k
  {
    hide FieldAt, IsSample, SampledFrom, AreSymbols;
    SampledEnd(bits);
    if k == 32 {
    } else {
      OrderedLength(bits, s, k + 1);
      SampledStep(bits, k);
      assert bits[..|bits|] == bits;
    }
  }

  /** Ordering keeps the number of symbols. */
  lemma OrderedKeepsLength(bits: seq<nat>, s: seq<nat>)
    requires IsSample(bits) && |s| == |bits| && AreSymbols(s)
    ensures |Ordered(bits, s, 0)| == |bits|
  {
    hide Ordered, IsSample, AreSymbols;
    OrderedLength(bits, s, 0);
    DistinctCount(bits, |bits|);
    assert SampledFrom(bits, 0) == Positions(bits[..|bits|]);
  }

  function Positions(bits: seq<nat>): set<nat> {
    set b | b in bits
  }

  lemma {:induction false} DistinctCount(bits: seq<nat>, n: nat)
    requires IsSample(bits) && n <= |bits|
    ensures |Positions(bits[..n])| == n
  {
    if n > 0 {
      DistinctCount(bits, n - 1);
      assert bits[..n] == bits[..n - 1] + [bits[n - 1]];
      assert Positions(bits[..n]) == Positions(bits[..n - 1]) + {bits[n - 1]};
    }
  }

  // ---- Ordering a pattern by position ----

  /** The two-bit field of a word at position b. */
  function Pair(word: nat, b: nat): nat {
    And(Shr(word, 2 * b), 3)
  }

  lemma PairBits(word: nat, b: nat)
    ensures Pair(word, b) == (if Bit(word, 2 * b + 1) then 2 else 0) + (if Bit(word, 2 * b) then 1 else 0)
  {
    hide Bit, Shr, And;
    var w := Shr(word, 2 * b);
    LowPairBits(w);
    BitShr(word, 2 * b, 0);
    BitShr(word, 2 * b, 1);
  }

  lemma LowPairBits(w: nat)
    ensures And(w, 3) == (if Bit(w, 1) then 2 else 0) + (if Bit(w, 0) then 1 else 0)
  {
    hide *;
    LowPair(w);
    FirstBits(w);
  }

  lemma FirstBits(w: nat)
    ensures Bit(w, 0) <==> w % 2 == 1
    ensures Bit(w, 1) <==> w / 2 % 2 == 1
  {
    assert Bit(w, 1) == Bit(w / 2, 0);
  }

  /** Flipping the empty field at a position and or-ing a symbol into it. */
  lemma PlaceSymbol(word: nat, at: nat, symbol: nat, b: nat)
    requires symbol <= SYMBOL_X && Pair(word, at) == END_OF_PATTERN
    ensures Pair(Or(Xor(word, Shl(END_OF_PATTERN, 2 * at)), Shl(symbol, 2 * at)), b)
            == if b == at then symbol else Pair(word, b)
  {
    hide And, Or, Xor, Shl, Shr, Bit, Pair;
    var flipped := Xor(word, Shl(3, 2 * at));
    var placed := Or(flipped, Shl(symbol, 2 * at));
    PairBits(word, at);
    PairBits(word, b);
    PairBits(placed, b);
    PlacedBit(word, at, symbol, 2 * b);
    PlacedBit(word, at, symbol, 2 * b + 1);
    SmallBits(symbol);
  }

  lemma PlacedBit(word: nat, at: nat, symbol: nat, j: nat)
    requires symbol <= SYMBOL_X
    ensures Bit(Or(Xor(word, Shl(3, 2 * at)), Shl(symbol, 2 * at)), j)
            <==> ((Bit(word, j) != (2 * at <= j < 2 * at + 2)) || (2 * at <= j && Bit(symbol, j - 2 * at)))
  {
    var flipped := Xor(word, Shl(3, 2 * at));
    assert Pow2(2) - 1 == 3;
    hide *;
    BitOr(flipped, Shl(symbol, 2 * at), j);
    BitXor(word, Shl(3, 2 * at), j);
    BitShl(3, 2 * at, j);
    BitShl(symbol, 2 * at, j);
    if 2 * at <= j {
      BitOfMask(2, j - 2 * at);
    }
  }

  lemma SmallBits(symbol: nat)
    requires symbol <= SYMBOL_X
    ensures Bit(symbol, 0) == (symbol == 1) && Bit(symbol, 1) == (symbol == 2)
    ensures forall j: nat :: j >= 2 ==> !Bit(symbol, j)
  {
    assert Bit(symbol, 1) == Bit(symbol / 2, 0);
    forall j: nat | j >= 2
      ensures !Bit(symbol, j)
    {
      assert Bit(symbol, j) == Bit(symbol / 2, j - 1) == Bit(symbol / 4, j - 2);
      BitZero(j - 2);
    }
  }

  lemma EmptyFields(b: nat)
    requires b < 32
    ensures Pair(0xffff_ffff_ffff_ffff, b) == END_OF_PATTERN
  {
    Pow2Values();
    hide And, Shr, Bit, Pair, Pow2;
    PairBits(0xffff_ffff_ffff_ffff, b);
    BitOfMask(64, 2 * b);
    BitOfMask(64, 2 * b + 1);
  }

  method GenerateOrderedPattern(bits: seq<nat>, pattern: nat) returns (result: nat)
    requires IsSample(bits) && IsPattern(pattern) && |Symbols(pattern)| == |bits|
    ensures result == Encode(Ordered(bits, Symbols(pattern), 0))
    ensures IsPattern(result) && Symbols(result) == Ordered(bits, Symbols(pattern), 0)
    ensures GetPatternLength(result) == GetPatternLength(pattern) == |bits|
  {
    hide And, Or, Xor, Shl, Shr, HighBit, Pow2, Pair, IsPattern, Symbols, Encode, Ordered, GetSymbolAt;
    hide GetPatternLength;
    ghost var s := Symbols(pattern);
    EncodeUndoesSymbols(pattern);
    LengthIs(pattern);
    var temp := 0xffff_ffff_ffff_ffff;
    forall b: nat | b < 32
      ensures Pair(temp, b) == END_OF_PATTERN
    {
      EmptyFields(b);
    }
    for i := 0 to |bits|
      invariant forall b: nat :: b < 32 ==> Pair(temp, b) == FieldAt(bits, s, i, b)
    {
      var shift := bits[i] * 2;
      SymbolAt(pattern, i);
      var symbol := GetSymbolAt(pattern, i);
      assert Pair(temp, bits[i]) == END_OF_PATTERN;
      forall b: nat | b < 32
        ensures Pair(Or(Xor(temp, Shl(END_OF_PATTERN, shift)), Shl(symbol, shift)), b) == FieldAt(bits, s, i + 1, b)
      {
        PlaceSymbol(temp, bits[i], symbol, b);
      }
      temp := Or(Xor(temp, Shl(END_OF_PATTERN, shift)), Shl(symbol, shift));
    }

    result := END_OF_PATTERN;
    OrderedEnd(bits, s);
    var i := 62;
    while i >= 0
      invariant -2 <= i <= 62 && i % 2 == 0
      invariant result == Encode(Ordered(bits, s, i / 2 + 1))
      decreases i
    {
      var sym := And(Shr(temp, i), 3);
      PairAt(temp, i);
      OrderedStep(bits, s, i / 2, result);
      if sym != END_OF_PATTERN {
        result := Or(Shl(result, 2), sym);
      }
      i := i - 2;
    }
    OrderedKeepsLength(bits, s);
    SymbolsUndoesEncode(Ordered(bits, s, 0));
    LengthIs(result);
  }

  lemma PairAt(word: nat, i: nat)
    requires i % 2 == 0
    ensures And(Shr(word, i), 3) == Pair(word, i / 2)
  {
    assert 2 * (i / 2) == i;
  }

  lemma OrderedEnd(bits: seq<nat>, s: seq<nat>)
    requires |s| == |bits|
    ensures Encode(Ordered(bits, s, 32)) == END_OF_PATTERN
  {
  }

  lemma OrderedStep(bits: seq<nat>, s: seq<nat>, k: nat, result: nat)
    requires IsSample(bits) && |s| == |bits| && AreSymbols(s) && k < 32
    requires result == Encode(Ordered(bits, s, k + 1))
    ensures var f := FieldAt(bits, s, |bits|, k);
            Encode(Ordered(bits, s, k)) == if f == END_OF_PATTERN then result else Or(Shl(result, 2), f)
  {
    hide Or, Shl, FieldAt;
    var f := FieldAt(bits, s, |bits|, k);
    if f != END_OF_PATTERN {
      PushSymbol(result, f);
      var longer := Ordered(bits, s, k + 1) + [f];
      assert longer[..|longer| - 1] == Ordered(bits, s, k + 1);
    } else {
      assert Ordered(bits, s, k + 1) + [] == Ordered(bits, s, k + 1);
    }
  }
}
