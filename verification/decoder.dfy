/** The decoder: a graph of nodes by name, compiled in place into linked tables. */
module Decoding {
  import opened Bits
  import opened DecodePatterns
  import opened DecodeTables
  import opened DecodeGraphs
  import opened Compression

  /** A node of the compiled graph: a table of next nodes, or a leaf that names an
      instruction form. */
  class CompiledDecodeNode {
    const bitExtract: BitExtract
    const instructionName: string
    const decodeTable: array?<CompiledDecodeNode?>

    constructor Table(bitExtract: BitExtract, size: nat)
      requires size > 0
      ensures this.bitExtract == bitExtract && instructionName == NODE
      ensures decodeTable != null && fresh(decodeTable) && decodeTable.Length == size
      ensures forall b :: 0 <= b < size ==> decodeTable[b] == null
    {
      this.bitExtract := bitExtract;
      instructionName := NODE;
      decodeTable := new CompiledDecodeNode?[size](_ => null);
    }

    constructor Visitor(name: string)
      requires name != NODE
      ensures instructionName == name && decodeTable == null
    {
      bitExtract := ExtractBits(0);
      instructionName := name;
      decodeTable := null;
    }

    predicate IsLeafNode() {
      instructionName != NODE
    }

    /** The compiled node has the form that the node asks for. */
    ghost predicate Realizes(spec: NodeSpec)
      requires spec.WellFormed()
    {
      && instructionName == spec.instructionName
      && (spec.IsLeafNode() <==> decodeTable == null)
      && (decodeTable != null ==> bitExtract == Extractor(spec) && decodeTable.Length == TableSize(spec))
    }

    function GetNodeForBits(bits: nat): CompiledDecodeNode?
      requires decodeTable != null && bits < decodeTable.Length
      reads decodeTable
    {
      decodeTable[bits]
    }

    method SetNodeForBits(bits: nat, n: CompiledDecodeNode)
      requires decodeTable != null && bits < decodeTable.Length
      modifies decodeTable
      ensures decodeTable[bits] == n
      ensures forall b :: 0 <= b < decodeTable.Length && b != bits ==> decodeTable[b] == old(decodeTable[b])
    {
      decodeTable[bits] := n;
    }

    /** Walks from this node to a leaf, whose instruction form it returns. The ghost
        arguments say which node of the graph this is and how far the leaf is. */
    method Decode(word: nat, ghost decoder: Decoder, ghost name: string, ghost steps: nat) returns (form: string)
      requires decoder.Valid() && decoder.Consistent({})
      requires name in decoder.Graph() && decoder.decodeNodes[name].compiledNode == this
      requires Ends(decoder.Graph(), word, name, steps)
      ensures form == decoder.Graph()[After(decoder.Graph(), word, name, steps)].instructionName
      decreases steps
    {
      hide Resolved, Live, NodeSpec.WellFormed, NextName, Extractor, Decoder.Consistent, BitExtract.Apply;
      decoder.InNodes(name);
      ghost var spec := decoder.Graph()[name];
      decoder.FormOf(name);
      if IsLeafNode() {
        form := instructionName;
      } else {
        decoder.NextNode(name, word);
        NextIn(decoder.Graph(), name, word);
        var bits := Extract(bitExtract, word);
        var next := GetNodeForBits(bits);
        form := next.Decode(word, decoder, NextName(spec, word), steps - 1);
      }
    }
  }

  /** A node of the graph, with its compiled form once there is one. */
  class DecodeNode {
    const name: string
    const spec: NodeSpec
    var compiledNode: CompiledDecodeNode?

    constructor (name: string, spec: NodeSpec)
      ensures this.name == name && this.spec == spec && compiledNode == null
    {
      this.name := name;
      this.spec := spec;
      compiledNode := null;
    }

    predicate IsCompiled()
      reads this
    {
      compiledNode != null
    }

    /** Every entry of the table points to the compiled form of the node that the
        patterns put there. */
    ghost predicate Linked(nodes: map<string, DecodeNode>)
      requires spec.WellFormed()
      reads this, nodes.Values
      reads if compiledNode != null && compiledNode.decodeTable != null then {compiledNode.decodeTable} else {}
    {
      && compiledNode != null
      && compiledNode.Realizes(spec)
      && (compiledNode.decodeTable != null ==>
            forall b: nat :: b < compiledNode.decodeTable.Length ==>
              EntryLinked(nodes, compiledNode.decodeTable, b))
    }

    ghost predicate EntryLinked(nodes: map<string, DecodeNode>, table: array<CompiledDecodeNode?>, b: nat)
      requires spec.WellFormed() && b < table.Length
      reads nodes.Values, table
    {
      && table[b] != null
      && Target(spec, b) in nodes
      && nodes[Target(spec, b)].compiledNode == table[b]
    }

    /** Makes a table for the node; all entries are empty. */
    method CreateCompiledNode(bitExtract: BitExtract, size: nat)
      requires size > 0
      modifies this
      ensures compiledNode != null && fresh(compiledNode)
      ensures compiledNode.bitExtract == bitExtract && compiledNode.instructionName == NODE
      ensures compiledNode.decodeTable != null && fresh(compiledNode.decodeTable)
      ensures compiledNode.decodeTable.Length == size
      ensures forall b :: 0 <= b < size ==> compiledNode.decodeTable[b] == null
    {
      compiledNode := new CompiledDecodeNode.Table(bitExtract, size);
    }

    /** Gives the node an empty table; it is open until the table is filled. */
    method OpenTable(decoder: Decoder, ghost open: set<DecodeNode>, bitExtract: BitExtract, size: nat)
      requires size > 0
      requires decoder.Valid() && decoder.Holds(this) && compiledNode == null
      requires decoder.Consistent(open)
      modifies this
      ensures compiledNode != null && fresh(compiledNode)
      ensures compiledNode.bitExtract == bitExtract && compiledNode.instructionName == NODE
      ensures compiledNode.decodeTable != null && fresh(compiledNode.decodeTable)
      ensures compiledNode.decodeTable.Length == size
      ensures forall b :: 0 <= b < size ==> compiledNode.decodeTable[b] == null
      ensures decoder.Consistent(open + {this}) && decoder.Keeps()
    {
      hide Resolved, Live, NodeSpec.WellFormed, DecodeNode.Linked, Decoder.Consistent, Decoder.Complete;
      hide Decoder.TablesApart;
      decoder.OpenNode(open, this);
      decoder.ConsistentApart(open);
      label before:
      CreateCompiledNode(bitExtract, size);
      decoder.NewTableApart@before(this);
      decoder.OthersStay@before(open + {this});
    }

    method CreateVisitorNode()
      requires spec.IsLeafNode()
      modifies this
      ensures compiledNode != null && fresh(compiledNode)
      ensures compiledNode.instructionName == spec.instructionName && compiledNode.decodeTable == null
    {
      compiledNode := new CompiledDecodeNode.Visitor(spec.instructionName);
    }

    /** Compiles the named node if it is not compiled yet and puts it in this node's
        table. */
    method CompileNodeForBits(decoder: Decoder, ghost open: set<DecodeNode>, name: string, bits: nat)
      requires decoder.Valid() && decoder.Holds(this) && name in decoder.Graph()
      requires decoder.Consistent(open) && this in open
      requires compiledNode != null && compiledNode.decodeTable != null && bits < compiledNode.decodeTable.Length
      modifies decoder.Uncompiled(), compiledNode.decodeTable
      ensures compiledNode.decodeTable[bits] == decoder.decodeNodes[name].compiledNode != null
      ensures forall b :: 0 <= b < compiledNode.decodeTable.Length && b != bits ==>
                compiledNode.decodeTable[b] == old(compiledNode.decodeTable[b])
      ensures decoder.Consistent(open) && decoder.Keeps()
      decreases decoder.Uncompiled(), 3
    {
      hide Resolved, Live, NodeSpec.WellFormed, DecodeNode.Linked, Decoder.Consistent, Decoder.Complete;
      hide Decoder.TablesApart;
      decoder.InNodes(name);
      var n := decoder.GetDecodeNode(name);
      if !n.IsCompiled() {
        var _ := n.Compile(decoder, open);
      }
      SetEntry(decoder, open, bits, n.compiledNode);
    }

    /** Changing an entry of an open node's table leaves the complete nodes complete. */
    method SetEntry(decoder: Decoder, ghost open: set<DecodeNode>, bits: nat, n: CompiledDecodeNode)
      requires decoder.Valid() && decoder.Holds(this)
      requires decoder.Consistent(open) && this in open
      requires compiledNode != null && compiledNode.decodeTable != null && bits < compiledNode.decodeTable.Length
      modifies compiledNode.decodeTable
      ensures compiledNode.decodeTable[bits] == n
      ensures forall b :: 0 <= b < compiledNode.decodeTable.Length && b != bits ==>
                compiledNode.decodeTable[b] == old(compiledNode.decodeTable[b])
      ensures decoder.Consistent(open)
    {
      hide Resolved, Live, NodeSpec.WellFormed, DecodeNode.Linked, Decoder.Consistent;
      decoder.ConsistentApart(open);
      compiledNode.SetNodeForBits(bits, n);
      decoder.OthersStay(open);
    }

    /** The masks and values of the node's patterns, over its sampled bits in order. */
    method Matches() returns (matches: seq<(nat, nat)>)
      requires spec.WellFormed()
      ensures |matches| == |spec.patternTable|
      ensures forall i :: 0 <= i < |matches| ==>
                matches[i] == (MaskOf(OrderedSymbols(spec, i)), ValueOf(OrderedSymbols(spec, i)))
    {
      hide Encode, MaskOf, ValueOf, Ordered, GetPatternLength;
      matches := [];
      for i := 0 to |spec.patternTable|
        invariant |matches| == i
        invariant forall j :: 0 <= j < i ==>
                    matches[j] == (MaskOf(OrderedSymbols(spec, j)), ValueOf(OrderedSymbols(spec, j)))
      {
        var ordered := GenerateOrderedPattern(spec.sampledBits, spec.patternTable[i].pattern);
        var mask, value := GenerateMaskValuePair(ordered);
        matches := matches + [(mask, value)];
      }
    }

    /** Fills one entry of the full table: with the handler of the first pattern
        that the index satisfies, or else with the unallocated node. */
    method CompileEntry(decoder: Decoder, ghost open: set<DecodeNode>, matches: seq<(nat, nat)>, bits: nat)
      requires decoder.Valid() && decoder.Holds(this) && decoder.Consistent(open) && this in open
      requires compiledNode != null && compiledNode.decodeTable != null && bits < compiledNode.decodeTable.Length
      requires compiledNode.decodeTable[bits] == null
      requires FullTarget(spec, bits, 0) in decoder.Graph()
      requires |matches| == |spec.patternTable|
      requires forall i :: 0 <= i < |matches| ==>
                 matches[i] == (MaskOf(OrderedSymbols(spec, i)), ValueOf(OrderedSymbols(spec, i)))
      modifies decoder.Uncompiled(), compiledNode.decodeTable
      ensures compiledNode.decodeTable[bits] == decoder.decodeNodes[FullTarget(spec, bits, 0)].compiledNode != null
      ensures forall b :: 0 <= b < compiledNode.decodeTable.Length && b != bits ==>
                compiledNode.decodeTable[b] == old(compiledNode.decodeTable[b])
      ensures decoder.Consistent(open) && decoder.Keeps()
      decreases decoder.Uncompiled(), 4
    {
      hide IsPattern, Symbols, IsSample, Resolved, OrderedSymbols, MaskOf, ValueOf, And, Live, Decoder.Consistent;
      for i := 0 to |matches|
        invariant FullTarget(spec, bits, 0) == FullTarget(spec, bits, i)
        invariant unchanged(decoder.Uncompiled()) && unchanged(compiledNode.decodeTable)
      {
        if And(bits, matches[i].0) == matches[i].1 {
          CompileNodeForBits(decoder, open, spec.patternTable[i].handler, bits);
          return;
        }
      }
      if compiledNode.GetNodeForBits(bits) == null {
        CompileNodeForBits(decoder, open, UNALLOCATED, bits);
      }
    }

    /** Compiles this node and every node below it that has no compiled form yet. */
    method Compile(decoder: Decoder, ghost open: set<DecodeNode>) returns (compiled: CompiledDecodeNode)
      requires decoder.Valid() && decoder.Holds(this) && compiledNode == null
      requires decoder.Consistent(open)
      modifies decoder.Uncompiled()
      ensures compiledNode == compiled
      ensures this !in open && compiledNode != null && Linked(decoder.decodeNodes)
      ensures decoder.Consistent(open) && decoder.Keeps()
      decreases decoder.Uncompiled(), 2
    {
      hide Resolved, Live, NodeSpec.WellFormed, DecodeNode.Linked, Decoder.Consistent, Decoder.Complete;
      hide Decoder.TablesApart;
      decoder.NotOpen(open, this);
      if spec.IsLeafNode() {
        decoder.OpenNode(open, this);
        decoder.ConsistentApart(open);
        label before:
        CreateVisitorNode();
        decoder.NewTableApart@before(this);
        decoder.OthersStay@before(open + {this});
        decoder.CloseNode(open, this);
      } else {
        var optimised := TryCompileOptimisedDecodeTable(decoder, open);
        if !optimised {
          CompileFullTable(decoder, open);
        }
      }
      compiled := compiledNode;
    }

    /** Gives the node a complete table with an entry for every index. */
    method CompileFullTable(decoder: Decoder, ghost open: set<DecodeNode>)
      requires decoder.Valid() && decoder.Holds(this) && compiledNode == null
      requires decoder.Consistent(open)
      requires !spec.IsLeafNode() && !IsEitherOr(spec)
      modifies decoder.Uncompiled()
      ensures this !in open && compiledNode != null && Linked(decoder.decodeNodes)
      ensures decoder.Consistent(open) && decoder.Keeps()
      decreases decoder.Uncompiled(), 1
    {
      hide IsPattern, Symbols, IsSample, Resolved, OrderedSymbols, MaskOf, ValueOf, And, Shl, IsEitherOr;
      hide Extractor, TableSize, Target, FullTarget, Live, DecodeNode.Linked, Decoder.Consistent;
      hide Decoder.Complete, Decoder.TablesApart;
      decoder.NotOpen(open, this);
      FullTable(spec);
      var matches := Matches();
      var mask := GenerateSampledBitsMask(spec.sampledBits);
      var size := Shl(1, |spec.sampledBits|);
      OpenTable(decoder, open, ExtractBits(mask), size);
      ghost var c := compiledNode;
      for bits := 0 to size
        invariant compiledNode == c && c.Realizes(spec) && fresh(c.decodeTable)
        invariant decoder.Consistent(open + {this}) && decoder.Keeps()
        invariant forall b: nat :: b < bits ==> EntryLinked(decoder.decodeNodes, c.decodeTable, b)
        invariant forall b :: bits <= b < size ==> c.decodeTable[b] == null
      {
        label entry:
        decoder.TargetInGraph(this, bits);
        CompileEntry(decoder, open + {this}, matches, bits);
        forall b: nat | b < bits
          ensures EntryLinked(decoder.decodeNodes, c.decodeTable, b)
        {
          assert old@entry(EntryLinked(decoder.decodeNodes, c.decodeTable, b));
        }
        assert EntryLinked(decoder.decodeNodes, c.decodeTable, bits);
      }
      decoder.CloseNode(open, this);
    }

    /** Tries the two-entry form for this node. */
    method TryCompileOptimisedDecodeTable(decoder: Decoder, ghost open: set<DecodeNode>) returns (done: bool)
      requires decoder.Valid() && decoder.Holds(this) && compiledNode == null
      requires decoder.Consistent(open)
      requires !spec.IsLeafNode()
      modifies decoder.Uncompiled()
      ensures done <==>
                && |spec.patternTable| == 1 && |spec.sampledBits| >= 2
                && 2 !in Symbols(spec.patternTable[0].pattern)
      ensures this !in open
      ensures if done then compiledNode != null && Linked(decoder.decodeNodes) else compiledNode == null
      ensures decoder.Consistent(open) && decoder.Keeps()
      decreases decoder.Uncompiled(), 1
    {
      hide IsPattern, Symbols, SampledMask, SingleValue, IsSample, Pow2;
      hide Resolved, Live, DecodeNode.Linked, Decoder.Consistent, Decoder.Complete, Decoder.TablesApart;
      decoder.NotOpen(open, this);
      var tableSize := |spec.patternTable|;
      if tableSize <= 2 && |spec.sampledBits| > 1 {
        var first := spec.patternTable[0];
        var hasX := PatternContainsSymbol(first.pattern, SYMBOL_X);
        if !hasX && tableSize == 1 {
          CompileEitherOr(decoder, open);
          return true;
        }
      }
      return false;
    }

    /** Gives the node a complete two-entry table. */
    method CompileEitherOr(decoder: Decoder, ghost open: set<DecodeNode>)
      requires decoder.Valid() && decoder.Holds(this) && compiledNode == null
      requires decoder.Consistent(open)
      requires !spec.IsLeafNode() && IsEitherOr(spec)
      modifies decoder.Uncompiled()
      ensures this !in open && compiledNode != null && Linked(decoder.decodeNodes)
      ensures decoder.Consistent(open) && decoder.Keeps()
      decreases decoder.Uncompiled(), 0
    {
      hide IsPattern, Symbols, SampledMask, SingleValue, IsSample, Pow2;
      hide Resolved, Live, DecodeNode.Linked, Decoder.Consistent, Decoder.Complete, Decoder.TablesApart;
      hide Target, Extractor, TableSize, IsEitherOr, EitherOrExtractor, NodeSpec.WellFormed;
      decoder.NotOpen(open, this);
      EitherOrTable(spec);
      var first := spec.patternTable[0];
      var mask, value := SingleMaskAndValue(spec.sampledBits, first.pattern);
      decoder.TargetInGraph(this, 0);
      decoder.TargetInGraph(this, 1);
      OpenTable(decoder, open, IsMaskedValue(mask, value), 2);
      assert this in old(decoder.Uncompiled()) && this !in decoder.Uncompiled();
      CompileNodeForBits(decoder, open + {this}, UNALLOCATED, 0);
      assert EntryLinked(decoder.decodeNodes, compiledNode.decodeTable, 0);
      CompileNodeForBits(decoder, open + {this}, first.handler, 1);
      assert EntryLinked(decoder.decodeNodes, compiledNode.decodeTable, 0);
      assert EntryLinked(decoder.decodeNodes, compiledNode.decodeTable, 1);
      decoder.CloseNode(open, this);
    }
  }

  // ---- Extracting a table index ----

  /** Runs a bit extraction function on an instruction word. */
  method Extract(f: BitExtract, word: nat) returns (index: nat)
    requires f.mask < Pow2(32)
    ensures index == f.Apply(word)
  {
    match f {
      case ExtractBits(mask) =>
        index := Compress(word, mask);
      case IsMaskedValue(mask, value) =>
        index := if And(word, mask) == value then 1 else 0;
    }
  }

  lemma ExtractorFits(spec: NodeSpec)
    requires spec.WellFormed()
    ensures Extractor(spec).mask < Pow2(32)
  {
    hide Symbols, Pow2, SampledMask, SingleValue, IsEitherOr;
    SampledMaskFits(spec.sampledBits);
  }

  // ---- The multimap from forms to masks and values ----

  /** The values stored under a key of a multimap. */
  function Entries(m: map<nat, seq<nat>>, key: nat): seq<nat> {
    if key in m then m[key] else []
  }

  function Inserted(m: map<nat, seq<nat>>, key: nat, value: nat): map<nat, seq<nat>> {
    m[key := Entries(m, key) + [value]]
  }

  /** Each mask and value is stored once under every form it lists, and nothing else
      is stored. */
  ghost predicate Inverts(m: map<nat, seq<nat>>, forms: map<nat, set<nat>>) {
    forall h: nat, u: nat :: Count(m, h, u) == if Lists(forms, u, h) then 1 else 0
  }

  ghost function Count(m: map<nat, seq<nat>>, h: nat, u: nat): nat {
    multiset(Entries(m, h))[u]
  }

  predicate Lists(forms: map<nat, set<nat>>, u: nat, h: nat) {
    u in forms && h in forms[u]
  }

  lemma InvertNothing(m: map<nat, seq<nat>>, forms: map<nat, set<nat>>, key: nat)
    requires Inverts(m, forms) && key !in forms
    ensures Inverts(m, forms[key := {}])
  {
    hide Count;
    forall h: nat, u: nat
      ensures Count(m, h, u) == if Lists(forms[key := {}], u, h) then 1 else 0
    {
      assert Lists(forms[key := {}], u, h) == Lists(forms, u, h);
    }
  }

  lemma InvertOne(m: map<nat, seq<nat>>, forms: map<nat, set<nat>>, key: nat, h: nat)
    requires Inverts(m, forms) && key in forms && h !in forms[key]
    ensures Inverts(Inserted(m, h, key), forms[key := forms[key] + {h}])
  {
    var after := forms[key := forms[key] + {h}];
    forall g: nat, u: nat
      ensures Count(Inserted(m, h, key), g, u) == if Lists(after, u, g) then 1 else 0
    {
      assert Count(m, g, u) == if Lists(forms, u, g) then 1 else 0;
    }
  }

  /** The encoding, masked by the high half of the entry, equals its low half. */
  predicate IsUnallocated(word: nat, u: nat) {
    And(word, Shr(u, 32)) == And(u, 0xffff_ffff)
  }

  /** An entry of a mask and a value holds for the words that the mask takes to the
      value. */
  lemma EntryMeans(word: nat, u: nat, mask: nat, value: nat)
    requires u == mask * 0x1_0000_0000 + value && value < 0x1_0000_0000
    ensures IsUnallocated(word, u) <==> And(word, mask) == value
  {
    hide And, Shr;
    EntryParts(u, mask, value);
  }

  lemma EntryParts(u: nat, mask: nat, value: nat)
    requires u == mask * 0x1_0000_0000 + value && value < 0x1_0000_0000
    ensures Shr(u, 32) == mask && And(u, 0xffff_ffff) == value
  {
    Pow2Values();
    hide Pow2, And, Shr, Low;
    SplitUnique(u, 32, mask, value);
    AndMask(u, 32);
  }

  /** Some mask and value of the table lists the form, and the masked encoding
      equals the value. */
  predicate UnallocatedForForm(forms: map<nat, set<nat>>, name: string, word: nat) {
    exists u <- forms :: Hash(name, 0) in forms[u] && IsUnallocated(word, u)
  }

  function FormMetadata(name: string, unallocated: bool): Metadata {
    if unallocated then map["form" := name, "unallocated" := ""] else map["form" := name]
  }

  /** Searching a form's entries finds an unallocated encoding exactly if some mask
      and value of the table lists the form and the masked word equals the value. */
  lemma TaggedIffListed(m: map<nat, seq<nat>>, forms: map<nat, set<nat>>, word: nat, h: nat)
    requires Inverts(m, forms)
    ensures (exists u <- Entries(m, h) :: IsUnallocated(word, u))
            <==> exists u <- forms :: h in forms[u] && IsUnallocated(word, u)
  {
    hide IsUnallocated;
    forall u: nat
      ensures u in Entries(m, h) <==> u in forms && h in forms[u]
    {
      assert Count(m, h, u) == if Lists(forms, u, h) then 1 else 0;
    }
  }

  // ---- Hashes of form names, in 32-bit arithmetic ----

  const WORD_LIMIT: nat := 0x1_0000_0000

  function Hash(str: string, hash: nat): nat
    decreases |str|
  {
    if str == "" then
      var a := (hash + Shl(hash, 3)) % WORD_LIMIT;
      var b := Xor(a, Shr(a, 11));
      (b + Shl(b, 15)) % WORD_LIMIT
    else
      var a := (hash + str[0] as nat) % WORD_LIMIT;
      var b := (a + Shl(a, 10)) % WORD_LIMIT;
      Hash(str[1..], Xor(b, Shr(b, 6)))
  }

  lemma MultiplyIn(x: nat)
    ensures (x % WORD_LIMIT + Shl(x % WORD_LIMIT, 10)) % WORD_LIMIT == 1025 * x % WORD_LIMIT
  {
    assert Pow2(10) == 1024;
    hide Shl, Pow2;
    var q, r := x / WORD_LIMIT, x % WORD_LIMIT;
    ShlIsMul(r, 10);
    DivUnique(1025 * x, WORD_LIMIT, 1025 * q + 1025 * r / WORD_LIMIT, 1025 * r % WORD_LIMIT);
  }

  lemma Folded(x: nat)
    ensures Shr(x, 6) == x / 64 && Shr(x, 11) == x / 2048
  {
    assert Pow2(6) == 64 && Pow2(11) == 2048;
    hide Shr, Low, Pow2;
    ShrLowAreDivMod(x, 6);
    ShrLowAreDivMod(x, 11);
  }

  /** The hash in plain arithmetic modulo 2^32: each character is added, multiplied in
      by 1025 and folded down by 64. */
  lemma HashOfCharacter(str: string, hash: nat)
    requires str != ""
    ensures var b := 1025 * (hash + str[0] as nat) % 0x1_0000_0000;
            Hash(str, hash) == Hash(str[1..], Xor(b, b / 64))
  {
    hide Shl, Shr, Xor;
    var x := hash + str[0] as nat;
    MultiplyIn(x);
    Folded(1025 * x % WORD_LIMIT);
  }

  /** The end multiplies by 9, folds by 2048 and multiplies by 32769. */
  lemma HashOfEnd(hash: nat)
    ensures var a := 9 * hash % 0x1_0000_0000;
            Hash("", hash) == 32769 * Xor(a, a / 2048) % 0x1_0000_0000
  {
    assert Pow2(3) == 8 && Pow2(15) == 32768;
    hide Shl, Shr, Xor, Pow2;
    var a := 9 * hash % WORD_LIMIT;
    ShlIsMul(hash, 3);
    Folded(a);
    ShlIsMul(Xor(a, a / 2048), 15);
  }

  // ---- The two forms of table ----

  lemma FullTable(spec: NodeSpec)
    requires spec.WellFormed() && !IsEitherOr(spec)
    ensures Extractor(spec) == ExtractBits(SampledMask(spec.sampledBits))
    ensures TableSize(spec) == Shl(1, |spec.sampledBits|)
    ensures forall index: nat :: Target(spec, index) == FullTarget(spec, index, 0)
  {
    hide FullTarget, NodeSpec.WellFormed;
    ShlOfOne(|spec.sampledBits|);
  }

  lemma EitherOrTable(spec: NodeSpec)
    requires spec.WellFormed() && IsEitherOr(spec)
    ensures IsPattern(spec.patternTable[0].pattern)
    ensures var s := Symbols(spec.patternTable[0].pattern);
            && |s| == |spec.sampledBits|
            && Extractor(spec) == IsMaskedValue(SampledMask(spec.sampledBits), SingleValue(spec.sampledBits, s))
    ensures |spec.patternTable| == 1 && TableSize(spec) == 2
    ensures Target(spec, 0) == UNALLOCATED && Target(spec, 1) == spec.patternTable[0].handler
  {
  }

  /** Information about an instruction, handed to the visitors. */
  type Metadata = map<string, string>

  class Decoder {
    var decodeNodes: map<string, DecodeNode>
    var compiledDecoderRoot: CompiledDecodeNode?
    var formToUnalloc: map<nat, seq<nat>>

    /** All nodes, by name. */
    ghost function Nodes(): Graph
      reads this`decodeNodes
    {
      map name <- decodeNodes :: decodeNodes[name].spec
    }

    /** The nodes that the root reaches, by name. */
    ghost function Graph(): Graph
      reads this`decodeNodes
    {
      Live(Nodes())
    }

    /** The node is one that the root reaches. */
    ghost predicate Holds(n: DecodeNode)
      reads this`decodeNodes
    {
      n.name in Graph() && n.name in decodeNodes && decodeNodes[n.name] == n && n in decodeNodes.Values
    }

    ghost predicate Valid()
      reads this`decodeNodes
    {
      && (forall name <- decodeNodes :: decodeNodes[name].name == name)
      && (forall n <- decodeNodes.Values :: n.spec.WellFormed())
      && Resolved(Graph())
    }

    lemma InNodes(name: string)
      requires name in Graph()
      ensures name in decodeNodes && decodeNodes[name].spec == Graph()[name]
    {
      hide IsReached;
    }

    ghost function Uncompiled(): set<DecodeNode>
      reads this`decodeNodes, decodeNodes.Values
    {
      set n <- decodeNodes.Values | n.compiledNode == null
    }

    /** The open nodes have been given their tables, all other compiled nodes are
        complete, and no two nodes share a table. */
    ghost predicate Consistent(open: set<DecodeNode>)
      requires Valid()
      reads this`decodeNodes, decodeNodes.Values
      reads set n <- decodeNodes.Values | n.compiledNode != null && n.compiledNode.decodeTable != null ::
              n.compiledNode.decodeTable
    {
      Complete(open) && Opened(open)
    }

    ghost predicate Opened(open: set<DecodeNode>)
      reads this`decodeNodes, decodeNodes.Values
    {
      open <= decodeNodes.Values && forall n <- decodeNodes.Values :: n in open ==> n.compiledNode != null
    }

    ghost predicate Complete(open: set<DecodeNode>)
      requires Valid()
      reads this`decodeNodes, decodeNodes.Values
      reads set n <- decodeNodes.Values | n.compiledNode != null && n.compiledNode.decodeTable != null ::
              n.compiledNode.decodeTable
    {
      && (forall n <- decodeNodes.Values :: n !in open && n.compiledNode != null ==> n.Linked(decodeNodes))
      && TablesApart()
    }

    ghost predicate TablesApart()
      reads this`decodeNodes, decodeNodes.Values
    {
      forall m <- decodeNodes.Values, n <- decodeNodes.Values :: m != n ==> Apart(m, n)
    }

    ghost predicate Apart(m: DecodeNode, n: DecodeNode)
      reads m, n
    {
      m.compiledNode != null && n.compiledNode != null && m.compiledNode.decodeTable != null ==>
        m.compiledNode.decodeTable != n.compiledNode.decodeTable
    }

    /** What was compiled stays as it is. */
    twostate predicate Keeps()
      reads this`decodeNodes, decodeNodes.Values
    {
      forall n <- decodeNodes.Values ::
        old(allocated(n)) && old(n.compiledNode) != null ==> n.compiledNode == old(n.compiledNode)
    }

    /** Completed nodes stay complete while open nodes get tables or entries. */
    twostate lemma OthersStay(open: set<DecodeNode>)
      requires Valid() && unchanged(this) && old(Complete(open)) && Opened(open)
      requires forall n <- decodeNodes.Values :: old(allocated(n))
      requires forall n <- decodeNodes.Values :: old(n.compiledNode) != null ==> n.compiledNode == old(n.compiledNode)
      requires forall n <- decodeNodes.Values :: n !in open ==>
                 && n.compiledNode == old(n.compiledNode)
                 && (n.compiledNode != null && n.compiledNode.decodeTable != null ==>
                       unchanged(n.compiledNode.decodeTable))
      requires TablesApart()
      ensures Consistent(open) && Keeps()
    {
      hide Resolved, NodeSpec.WellFormed, Target, TableSize, Extractor, TablesApart;
      forall n <- decodeNodes.Values | n !in open && n.compiledNode != null
        ensures n.Linked(decodeNodes)
      {
        StaysLinked(n);
      }
    }

    /** A node's new table is not shared with any other node. */
    twostate lemma NewTableApart(self: DecodeNode)
      requires unchanged(this) && old(TablesApart())
      requires forall n <- decodeNodes.Values :: old(allocated(n))
      requires forall n <- decodeNodes.Values :: n != self ==> n.compiledNode == old(n.compiledNode)
      requires self.compiledNode != null
      requires self.compiledNode.decodeTable != null ==> fresh(self.compiledNode.decodeTable)
      ensures TablesApart()
    {
      forall m <- decodeNodes.Values, n <- decodeNodes.Values | m != n
        ensures Apart(m, n)
      {
        assert old(Apart(m, n));
      }
    }

    twostate lemma StaysLinked(n: DecodeNode)
      requires Valid() && unchanged(this)
      requires forall m <- decodeNodes.Values :: old(allocated(m))
      requires n in decodeNodes.Values && n.compiledNode == old(n.compiledNode) != null && old(n.Linked(decodeNodes))
      requires Keeps()
      requires n.compiledNode.decodeTable != null ==> unchanged(n.compiledNode.decodeTable)
      ensures n.Linked(decodeNodes)
    {
      hide Resolved, NodeSpec.WellFormed, Target, TableSize, Extractor;
      var table := n.compiledNode.decodeTable;
      if table != null {
        forall b: nat | b < table.Length
          ensures n.EntryLinked(decodeNodes, table, b)
        {
          assert old(n.EntryLinked(decodeNodes, table, b));
        }
      }
    }

    /** An open node is closed by filling its table. */
    lemma CloseNode(open: set<DecodeNode>, self: DecodeNode)
      requires Valid() && self in decodeNodes.Values && self.compiledNode != null
      requires Consistent(open + {self}) && self.compiledNode.Realizes(self.spec)
      requires var table := self.compiledNode.decodeTable;
               table != null ==> forall b: nat :: b < table.Length ==> self.EntryLinked(decodeNodes, table, b)
      ensures Consistent(open) && self.Linked(decodeNodes)
    {
      hide Resolved, Apart, NodeSpec.WellFormed, CompiledDecodeNode.Realizes, DecodeNode.EntryLinked;
      assert self.Linked(decodeNodes);
      hide DecodeNode.Linked;
    }

    /** An uncompiled node may be opened at any time. */
    lemma OpenNode(open: set<DecodeNode>, self: DecodeNode)
      requires Valid() && Consistent(open)
      ensures Complete(open + {self})
    {
      hide DecodeNode.Linked, Resolved, Apart, NodeSpec.WellFormed;
    }

    /** An uncompiled node is not open. */
    lemma NotOpen(open: set<DecodeNode>, self: DecodeNode)
      requires Valid() && Consistent(open) && self.compiledNode == null
      ensures self !in open
    {
      hide DecodeNode.Linked, Resolved, Apart, NodeSpec.WellFormed;
    }

    lemma ConsistentApart(open: set<DecodeNode>)
      requires Valid() && Consistent(open)
      ensures Complete(open) && Opened(open) && TablesApart()
    {
    }

    /** A compiled node is a leaf exactly if its node is. */
    lemma FormOf(name: string)
      requires Valid() && Consistent({}) && name in Graph() && decodeNodes[name].compiledNode != null
      ensures var c := decodeNodes[name].compiledNode;
              && c.instructionName == Graph()[name].instructionName
              && (c.IsLeafNode() <==> c.decodeTable == null)
    {
      hide Resolved, Live, NodeSpec.WellFormed;
      InNodes(name);
      assert decodeNodes[name].Linked(decodeNodes);
    }

    /** The entry for a word is the compiled form of the node that comes next. */
    lemma NextNode(name: string, word: nat)
      requires Valid() && Consistent({}) && name in Graph()
      requires decodeNodes[name].compiledNode != null && decodeNodes[name].compiledNode.decodeTable != null
      ensures var c, spec := decodeNodes[name].compiledNode, decodeNodes[name].spec;
              && spec.WellFormed() && NextName(spec, word) in decodeNodes
              && c.bitExtract.mask < Pow2(32)
              && c.bitExtract.Apply(word) < c.decodeTable.Length
              && c.decodeTable[c.bitExtract.Apply(word)] == decodeNodes[NextName(spec, word)].compiledNode != null
    {
      hide Resolved, Live, NodeSpec.WellFormed, NextName, Extractor, TableSize, Target, BitExtract.Apply;
      InNodes(name);
      var n := decodeNodes[name];
      assert n.Linked(decodeNodes);
      CompiledNodeIsRight(n.spec, word);
      ExtractorFits(n.spec);
      assert n.EntryLinked(decodeNodes, n.compiledNode.decodeTable, n.compiledNode.bitExtract.Apply(word));
    }

    /** The names in the table of a node that the root reaches are reached too. */
    lemma TargetInGraph(n: DecodeNode, index: nat)
      requires Valid() && Holds(n) && !n.spec.IsLeafNode()
      ensures n.spec.WellFormed() && (index < TableSize(n.spec) ==> Target(n.spec, index) in Graph())
      ensures index < TableSize(n.spec) ==> Target(n.spec, index) in decodeNodes
    {
      hide NodeSpec.WellFormed, Live, Target, TableSize, NodeSpec.IsLeafNode;
      InNodes(n.name);
      if index < TableSize(n.spec) {
        assert Target(n.spec, index) in Targets(n.spec);
        InNodes(Target(n.spec, index));
      }
    }

    constructor (mappings: seq<DecodeMapping>, forms: map<nat, set<nat>>)
      requires WellFormedMappings(mappings) && RootResolves(GraphOf(mappings))
      ensures Ready() && Nodes() == GraphOf(mappings) && Graph() == Live(GraphOf(mappings))
      ensures Inverts(formToUnalloc, forms)
    {
      decodeNodes := map[];
      compiledDecoderRoot := null;
      formToUnalloc := map[];
      new;
      hide Resolved, Live, GraphOf, Inverts;
      ConstructDecodeGraph(mappings);
      InNodes(ROOT);
      PopulatePerInstructionUnallocatedMap(forms);
    }

    /** The graph is compiled from its root: every table that was made is complete. */
    ghost predicate Ready()
      reads this`decodeNodes, this`compiledDecoderRoot, decodeNodes.Values
      reads set n <- decodeNodes.Values | n.compiledNode != null && n.compiledNode.decodeTable != null ::
              n.compiledNode.decodeTable
    {
      && Valid() && Consistent({})
      && ROOT in Graph() && compiledDecoderRoot != null
      && compiledDecoderRoot == decodeNodes[ROOT].compiledNode
    }

    /** The node joins the graph unless its name is taken. */
    method AddDecodeNode(node: DecodeNode)
      modifies this`decodeNodes
      ensures decodeNodes ==
              if node.name in old(decodeNodes) then old(decodeNodes) else old(decodeNodes)[node.name := node]
    {
      if node.name !in decodeNodes {
        decodeNodes := decodeNodes[node.name := node];
      }
    }

    /** Nodes under their own names, none of them compiled. */
    ghost predicate NoneCompiled()
      reads this`decodeNodes, decodeNodes.Values
    {
      && (forall name <- decodeNodes :: decodeNodes[name].name == name)
      && (forall n <- decodeNodes.Values :: n.compiledNode == null)
    }

    method AddSpec(name: string, spec: NodeSpec)
      requires NoneCompiled()
      modifies this`decodeNodes
      ensures NoneCompiled() && Nodes() == AddNode(old(Nodes()), name, spec)
      ensures forall n <- decodeNodes.Values :: n in old(decodeNodes.Values) || fresh(n)
    {
      var node := new DecodeNode(name, spec);
      AddDecodeNode(node);
      assert forall n <- decodeNodes.Values :: n in old(decodeNodes.Values) || n == node;
      assert Nodes() == AddNode(old(Nodes()), name, spec);
    }

    method ConstructDecodeGraph(mappings: seq<DecodeMapping>)
      requires decodeNodes == map[]
      requires WellFormedMappings(mappings) && RootResolves(GraphOf(mappings))
      modifies this
      ensures formToUnalloc == old(formToUnalloc)
      ensures Ready() && Nodes() == GraphOf(mappings)
      ensures forall n <- decodeNodes.Values :: fresh(n)
    {
      hide MappingSpec, LeafSpec, IsForm, AddNode, WellFormedMappings, RootResolves, Live;
      assert Nodes() == map[];
      for i := 0 to |mappings|
        invariant NoneCompiled() && Nodes() == GraphUpTo(mappings, i)
        invariant formToUnalloc == old(formToUnalloc)
        invariant forall n <- decodeNodes.Values :: fresh(n)
      {
        var m := mappings[i];
        AddSpec(m.name, MappingSpec(m));
        ghost var g := Nodes();
        for j := 0 to |m.mapping|
          invariant NoneCompiled() && Nodes() == WithForms(g, m.mapping, j)
          invariant formToUnalloc == old(formToUnalloc)
          invariant forall n <- decodeNodes.Values :: fresh(n)
        {
          var handler := m.mapping[j].handler;
          if IsForm(handler) {
            AddSpec(handler, LeafSpec(handler));
          }
        }
      }
      AddSpec(UNALLOCATED, LeafSpec(UNALLOCATED));
      CompileRoot(mappings);
    }

    method CompileRoot(ghost mappings: seq<DecodeMapping>)
      requires WellFormedMappings(mappings) && RootResolves(GraphOf(mappings)) && Nodes() == GraphOf(mappings)
      requires NoneCompiled()
      modifies this`compiledDecoderRoot, decodeNodes.Values
      ensures Ready()
    {
      hide GraphOf, WellFormedMappings, RootResolves, Resolved, Live, NodeSpec.WellFormed;
      NodesWellFormed(mappings);
      LiveResolves(Nodes());
      AllWellFormed();
      InNodes(ROOT);
      var root := GetDecodeNode(ROOT);
      compiledDecoderRoot := root.Compile(this, {});
    }

    lemma AllWellFormed()
      requires forall name <- Nodes() :: Nodes()[name].WellFormed()
      ensures forall n <- decodeNodes.Values :: n.spec.WellFormed()
    {
      hide NodeSpec.WellFormed;
      forall n <- decodeNodes.Values
        ensures n.spec.WellFormed()
      {
        var name :| name in decodeNodes && decodeNodes[name] == n;
        assert name in Nodes() && Nodes()[name].WellFormed();
      }
    }

    // ---- Encodings that are unallocated for a form ----

    /** For each form the masks and values under which it is unallocated, from the
        table that lists the forms of each mask and value. */
    method PopulatePerInstructionUnallocatedMap(forms: map<nat, set<nat>>)
      requires formToUnalloc == map[]
      modifies this`formToUnalloc
      ensures Inverts(formToUnalloc, forms)
    {
      var keys := forms.Keys;
      ghost var done: map<nat, set<nat>> := map[];
      while keys != {}
        invariant keys <= forms.Keys && done.Keys == forms.Keys - keys
        invariant forall key <- done :: done[key] == forms[key]
        invariant Inverts(formToUnalloc, done)
        decreases keys
      {
        var key :| key in keys;
        keys := keys - {key};
        var hashes := forms[key];
        ghost var seen := {};
        ghost var before := done;
        done := done[key := {}];
        InvertNothing(formToUnalloc, before, key);
        while hashes != {}
          invariant hashes + seen == forms[key] && hashes !! seen
          invariant done == before[key := seen]
          invariant Inverts(formToUnalloc, done)
          decreases hashes
        {
          var h :| h in hashes;
          hashes := hashes - {h};
          InvertOne(formToUnalloc, done, key, h);
          formToUnalloc := Inserted(formToUnalloc, h, key);
          seen := seen + {h};
          done := done[key := done[key] + {h}];
        }
      }
      assert done == forms;
    }

    /** Tags the instruction with its form, and as unallocated if the encoding is
        unallocated for that form. */
    method VisitNamedInstruction(word: nat, name: string, ghost forms: map<nat, set<nat>>) returns (m: Metadata)
      requires Inverts(formToUnalloc, forms)
      ensures m == FormMetadata(name, UnallocatedForForm(forms, name, word))
      ensures m.Keys <= {"form", "unallocated"} && "form" in m && m["form"] == name
      ensures "unallocated" in m <==> exists u <- forms :: Hash(name, 0) in forms[u] && IsUnallocated(word, u)
    {
      hide Inverts, Hash;
      TaggedIffListed(formToUnalloc, forms, word, Hash(name, 0));
      m := map["form" := name];
      var range := Entries(formToUnalloc, Hash(name, 0));
      for i := 0 to |range|
        invariant m == map["form" := name]
        invariant forall j :: 0 <= j < i ==> !IsUnallocated(word, range[j])
      {
        var mask := Shr(range[i], 32);
        var value := And(range[i], 0xffff_ffff);
        if And(word, mask) == value {
          m := m["unallocated" := ""];
          assert range[i] in range && IsUnallocated(word, range[i]);
          return;
        }
      }
    }

    /** Decodes an instruction word and returns what its visitors are given. The ghost
        arguments say what the decoder was built from and how far the leaf is. */
    method Decode(word: nat, ghost steps: nat, ghost mappings: seq<DecodeMapping>, ghost forms: map<nat, set<nat>>)
      returns (m: Metadata)
      requires WellFormedMappings(mappings) && RootResolves(GraphOf(mappings))
      requires Ready() && Nodes() == GraphOf(mappings) && Inverts(formToUnalloc, forms)
      requires Ends(Graph(), word, ROOT, steps)
      ensures var form := After(Graph(), word, ROOT, steps);
              IsFormOf(mappings, form) && m == FormMetadata(form, UnallocatedForForm(forms, form, word))
    {
      hide Hash, UnallocatedForForm, Ends, After, Resolved, Live, Inverts, IsFormOf;
      ReportedForm(mappings, word, steps);
      var form := compiledDecoderRoot.Decode(word, this, ROOT, steps);
      m := VisitNamedInstruction(word, form, forms);
    }

    method GetDecodeNode(name: string) returns (n: DecodeNode)
      requires name in decodeNodes
      ensures n == decodeNodes[name]
    {
      n := decodeNodes[name];
    }
  }
}
