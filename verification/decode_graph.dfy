/** Decode nodes as values, what a compiled node's table holds, and the direct
    reading of a graph of nodes, which follows patterns by name. */
module DecodeGraphs {
  import opened Bits
  import opened DecodePatterns
  import opened DecodeTables

  datatype DecodePattern = DecodePattern(pattern: nat, handler: string)

  datatype DecodeMapping = DecodeMapping(name: string, sampledBits: seq<nat>, mapping: seq<DecodePattern>)

  const NODE: string := "node"
  const UNALLOCATED: string := "unallocated"

  /** What a decode node holds before it is compiled. */
  datatype NodeSpec = NodeSpec(instructionName: string, sampledBits: seq<nat>, patternTable: seq<DecodePattern>) {
    predicate IsLeafNode() {
      instructionName != NODE
    }

    /** Sampled positions are distinct and below 32; each pattern has one symbol
        for each of them; and a node that samples bits has a pattern. */
    predicate WellFormed() {
      && IsSample(sampledBits)
      && (forall p <- patternTable :: IsPattern(p.pattern) && |Symbols(p.pattern)| == |sampledBits|)
      && (patternTable == [] ==> sampledBits == [])
    }
  }

  function LeafSpec(name: string): NodeSpec {
    NodeSpec(name, [], [])
  }

  function MappingSpec(m: DecodeMapping): NodeSpec {
    NodeSpec(NODE, m.sampledBits, m.mapping)
  }

  /** The handler of the first pattern that the word matches. */
  function NextName(spec: NodeSpec, word: nat): string
    requires spec.WellFormed()
  {
    NextNameFrom(spec, word, 0)
  }

  function NextNameFrom(spec: NodeSpec, word: nat, i: nat): string
    requires spec.WellFormed() && i <= |spec.patternTable|
    decreases |spec.patternTable| - i
  {
    if i == |spec.patternTable| then UNALLOCATED
    else if Matches(word, spec.sampledBits, Symbols(spec.patternTable[i].pattern)) then spec.patternTable[i].handler
    else NextNameFrom(spec, word, i + 1)
  }

  /** The word matches pattern i of the node. */
  predicate MatchesPattern(spec: NodeSpec, word: nat, i: nat)
    requires spec.WellFormed() && i < |spec.patternTable|
  {
    Matches(word, spec.sampledBits, Symbols(spec.patternTable[i].pattern))
  }

  lemma {:induction false} NoMatchFrom(spec: NodeSpec, word: nat, i: nat)
    requires spec.WellFormed() && i <= |spec.patternTable|
    requires forall j: nat :: i <= j < |spec.patternTable| ==> !MatchesPattern(spec, word, j)
    ensures NextNameFrom(spec, word, i) == "unallocated"
    decreases |spec.patternTable| - i
  {
    hide NodeSpec.WellFormed, Matches, Symbols;
    if i < |spec.patternTable| {
      assert !MatchesPattern(spec, word, i);
      NoMatchFrom(spec, word, i + 1);
    }
  }

  lemma {:induction false} FirstMatchFrom(spec: NodeSpec, word: nat, i: nat, k: nat)
    requires spec.WellFormed() && i <= k < |spec.patternTable| && MatchesPattern(spec, word, k)
    requires forall j: nat :: i <= j < k ==> !MatchesPattern(spec, word, j)
    ensures NextNameFrom(spec, word, i) == spec.patternTable[k].handler
    decreases k - i
  {
    hide NodeSpec.WellFormed, Matches, Symbols;
    if i < k {
      assert !MatchesPattern(spec, word, i);
      FirstMatchFrom(spec, word, i + 1, k);
    }
  }

  /** The next node is the handler of the first matching pattern, and the unallocated
      node exactly where no pattern has a say. */
  lemma NextNameIsFirstMatch(spec: NodeSpec, word: nat)
    requires spec.WellFormed()
    ensures (forall i: nat :: i < |spec.patternTable| ==> !MatchesPattern(spec, word, i)) ==>
              NextName(spec, word) == "unallocated"
    ensures forall k: nat | k < |spec.patternTable| && MatchesPattern(spec, word, k)
              && (forall i: nat :: i < k ==> !MatchesPattern(spec, word, i)) ::
              NextName(spec, word) == spec.patternTable[k].handler
  {
    hide NodeSpec.WellFormed, MatchesPattern;
    if forall i: nat :: i < |spec.patternTable| ==> !MatchesPattern(spec, word, i) {
      NoMatchFrom(spec, word, 0);
    }
    forall k: nat | k < |spec.patternTable| && MatchesPattern(spec, word, k)
        && (forall i: nat :: i < k ==> !MatchesPattern(spec, word, i))
      ensures NextName(spec, word) == spec.patternTable[k].handler
    {
      FirstMatchFrom(spec, word, 0, k);
    }
  }

  // ---- The compiled form of a node ----

  /** The functions that turn an instruction word into a table index. */
  datatype BitExtract = ExtractBits(mask: nat) | IsMaskedValue(mask: nat, value: nat) {
    function Apply(word: nat): nat {
      match this
      case ExtractBits(mask) => Gather(word, mask)
      case IsMaskedValue(mask, value) => if And(word, mask) == value then 1 else 0
    }
  }

  /** A single pattern without x over two or more bits gets a two-entry table. */
  predicate IsEitherOr(spec: NodeSpec)
    requires spec.WellFormed()
  {
    && |spec.patternTable| == 1
    && |spec.sampledBits| > 1
    && SYMBOL_X !in Symbols(spec.patternTable[0].pattern)
  }

  function Extractor(spec: NodeSpec): BitExtract
    requires spec.WellFormed()
  {
    if IsEitherOr(spec) then EitherOrExtractor(spec) else ExtractBits(SampledMask(spec.sampledBits))
  }

  function EitherOrExtractor(spec: NodeSpec): BitExtract
    requires spec.WellFormed() && IsEitherOr(spec)
  {
    var s := Symbols(spec.patternTable[0].pattern);
    IsMaskedValue(SampledMask(spec.sampledBits), SingleValue(spec.sampledBits, s))
  }

  function TableSize(spec: NodeSpec): (size: nat)
    requires spec.WellFormed()
    ensures size >= 1
  {
    if IsEitherOr(spec) then 2 else Pow2(|spec.sampledBits|)
  }

  function OrderedSymbols(spec: NodeSpec, i: nat): seq<nat>
    requires spec.WellFormed() && i < |spec.patternTable|
  {
    Ordered(spec.sampledBits, Symbols(spec.patternTable[i].pattern), 0)
  }

  /** The table index satisfies the mask and value made of pattern i. */
  predicate Selects(spec: NodeSpec, i: nat, index: nat)
    requires spec.WellFormed() && i < |spec.patternTable|
  {
    And(index, MaskOf(OrderedSymbols(spec, i))) == ValueOf(OrderedSymbols(spec, i))
  }

  /** The name of the node put at an index of the full table. */
  function FullTarget(spec: NodeSpec, index: nat, i: nat): string
    requires spec.WellFormed() && i <= |spec.patternTable|
    decreases |spec.patternTable| - i
  {
    if i == |spec.patternTable| then UNALLOCATED
    else if Selects(spec, i, index) then spec.patternTable[i].handler
    else FullTarget(spec, index, i + 1)
  }

  function EitherOrTarget(spec: NodeSpec, index: nat): string
    requires spec.WellFormed() && IsEitherOr(spec)
  {
    if index == 0 then UNALLOCATED else spec.patternTable[0].handler
  }

  function Target(spec: NodeSpec, index: nat): string
    requires spec.WellFormed()
  {
    if IsEitherOr(spec) then EitherOrTarget(spec, index) else FullTarget(spec, index, 0)
  }

  // ---- A compiled node means what its patterns mean ----

  lemma PatternOf(spec: NodeSpec, i: nat)
    requires spec.WellFormed() && i < |spec.patternTable|
    ensures var s := Symbols(spec.patternTable[i].pattern); AreSymbols(s) && |s| == |spec.sampledBits|
    ensures IsSample(spec.sampledBits)
  {
    EncodeUndoesSymbols(spec.patternTable[i].pattern);
  }

  lemma {:induction false} FullTargetFrom(spec: NodeSpec, word: nat, i: nat)
    requires spec.WellFormed() && i <= |spec.patternTable|
    ensures FullTarget(spec, Gather(word, SampledMask(spec.sampledBits)), i) == NextNameFrom(spec, word, i)
    decreases |spec.patternTable| - i
  {
    hide Gather, SampledMask, Ordered, Symbols, Matches, MaskOf, ValueOf, And, NodeSpec.WellFormed;
    if i < |spec.patternTable| {
      PatternOf(spec, i);
      IndexMatches(word, spec.sampledBits, Symbols(spec.patternTable[i].pattern));
      FullTargetFrom(spec, word, i + 1);
    }
  }

  /** The entry of the full table at the extracted bits is the handler of the first
      pattern that matches the word symbol by symbol. */
  lemma FullTableIsRight(spec: NodeSpec, word: nat)
    requires spec.WellFormed()
    ensures var index := Gather(word, SampledMask(spec.sampledBits));
            index < Pow2(|spec.sampledBits|) && FullTarget(spec, index, 0) == NextName(spec, word)
  {
    hide Gather, SampledMask, Ordered, Symbols, Matches, NodeSpec.WellFormed, Pow2, FullTarget, IsSample;
    FullTargetFrom(spec, word, 0);
    GatherFits(spec, word);
  }

  lemma GatherFits(spec: NodeSpec, word: nat)
    requires spec.WellFormed()
    ensures Gather(word, SampledMask(spec.sampledBits)) < Pow2(|spec.sampledBits|)
  {
    var zeros := seq(|spec.sampledBits|, i => 0);
    assert AreSymbols(zeros);
    hide *;
    assert IsSample(spec.sampledBits) by {
      SampleOf(spec);
    }
    IndexMatches(word, spec.sampledBits, zeros);
  }

  lemma SampleOf(spec: NodeSpec)
    requires spec.WellFormed()
    ensures IsSample(spec.sampledBits)
  {
  }

  /** The two-entry table picks for every word what the full table would pick. */
  lemma EitherOrAgreesWithFull(spec: NodeSpec, word: nat)
    requires spec.WellFormed() && IsEitherOr(spec)
    ensures EitherOrTarget(spec, EitherOrExtractor(spec).Apply(word))
            == FullTarget(spec, Gather(word, SampledMask(spec.sampledBits)), 0)
  {
    FullTableIsRight(spec, word);
    hide Gather, SampledMask, Ordered, Symbols, Matches, Pow2, FullTarget, IsSample, SingleValue, And;
    PatternOf(spec, 0);
    SingleComparison(word, spec.sampledBits, Symbols(spec.patternTable[0].pattern));
    assert NextNameFrom(spec, word, 1) == UNALLOCATED;
  }

  /** Whichever table a node gets, the index is in range and the entry there is the
      name that the node's patterns give for the word. */
  lemma CompiledNodeIsRight(spec: NodeSpec, word: nat)
    requires spec.WellFormed()
    ensures Extractor(spec).Apply(word) < TableSize(spec)
    ensures Target(spec, Extractor(spec).Apply(word)) == NextName(spec, word)
  {
    hide Gather, SampledMask, Symbols, NextName, Pow2, FullTarget, SingleValue, And, IsEitherOr;
    hide NodeSpec.WellFormed, EitherOrTarget;
    FullTableIsRight(spec, word);
    if IsEitherOr(spec) {
      EitherOrAgreesWithFull(spec, word);
    }
  }

  // ---- Graphs of nodes ----

  type Graph = map<string, NodeSpec>

  /** The names in the table of a node; a leaf has none. */
  ghost function Targets(spec: NodeSpec): set<string> {
    if !spec.WellFormed() || spec.IsLeafNode() then {}
    else set index | 0 <= index < TableSize(spec) :: Target(spec, index)
  }

  /** Every node is well formed, and its table names only nodes of the graph. */
  ghost predicate Resolved(g: Graph) {
    && (forall name <- g :: g[name].WellFormed())
    && (forall name <- g :: Targets(g[name]) <= g.Keys)
  }

  /** What the patterns give for a word is in the table. */
  lemma NextIsTarget(spec: NodeSpec, word: nat)
    requires spec.WellFormed() && !spec.IsLeafNode()
    ensures NextName(spec, word) in Targets(spec)
  {
    hide NodeSpec.WellFormed, Target, TableSize, Extractor, NextName;
    CompiledNodeIsRight(spec, word);
  }

  lemma NextIn(g: Graph, name: string, word: nat)
    requires Resolved(g) && name in g
    ensures g[name].WellFormed() && (!g[name].IsLeafNode() ==> NextName(g[name], word) in g)
  {
    hide NodeSpec.WellFormed, NextName, Targets;
    if !g[name].IsLeafNode() {
      NextIsTarget(g[name], word);
    }
  }

  /** The node reached from a name after at most n steps, each to the handler of
      the first matching pattern; a leaf is where the walk stays. */
  function After(g: Graph, word: nat, name: string, n: nat): (reached: string)
    requires Resolved(g) && name in g
    ensures reached in g
    decreases n
  {
    if n == 0 || g[name].IsLeafNode() then name
    else
      NextIn(g, name, word);
      After(g, word, NextName(g[name], word), n - 1)
  }

  /** The walk from a name has reached a leaf after n steps. */
  ghost predicate Ends(g: Graph, word: nat, name: string, n: nat)
    requires Resolved(g) && name in g
  {
    g[After(g, word, name, n)].IsLeafNode()
  }

  /** Once at a leaf, the walk stays there. */
  lemma {:induction false} EndsOnce(g: Graph, word: nat, name: string, n: nat, m: nat)
    requires Resolved(g) && name in g && n <= m && Ends(g, word, name, n)
    ensures After(g, word, name, m) == After(g, word, name, n)
    decreases n
  {
    hide Resolved, NextName, NodeSpec.IsLeafNode;
    if n > 0 && !g[name].IsLeafNode() {
      NextIn(g, name, word);
      EndsOnce(g, word, NextName(g[name], word), n - 1, m - 1);
    }
  }

  /** The graph has no cycle: a rank goes down along every table entry. */
  ghost predicate Ranked(g: Graph, rank: map<string, nat>)
    requires Resolved(g)
  {
    && g.Keys <= rank.Keys
    && (forall name <- g :: forall target <- Targets(g[name]) :: rank[target] < rank[name])
  }

  /** In a graph without cycles the walk of every word from every node ends. */
  lemma {:induction false} AcyclicEnds(g: Graph, rank: map<string, nat>, word: nat, name: string)
    requires Resolved(g) && Ranked(g, rank) && name in g
    ensures Ends(g, word, name, rank[name])
    decreases rank[name]
  {
    hide NodeSpec.WellFormed, Targets, NextName, NodeSpec.IsLeafNode;
    if !g[name].IsLeafNode() {
      NextIsTarget(g[name], word);
      var next := NextName(g[name], word);
      AcyclicEnds(g, rank, word, next);
      EndsOnce(g, word, next, rank[next], rank[name] - 1);
    }
  }

  // ---- A walk ends early or never ----

  lemma {:induction false} AfterAdd(g: Graph, word: nat, name: string, i: nat, k: nat)
    requires Resolved(g) && name in g
    ensures After(g, word, name, i + k) == After(g, word, After(g, word, name, i), k)
    decreases i
  {
    hide Resolved, NextName, NodeSpec.IsLeafNode;
    if i > 0 && !g[name].IsLeafNode() {
      NextIn(g, name, word);
      AfterAdd(g, word, NextName(g[name], word), i - 1, k);
    }
  }

  /** The nodes met in the first n steps. */
  function Met(g: Graph, word: nat, name: string, n: nat): (met: set<string>)
    requires Resolved(g) && name in g
    ensures met <= g.Keys
  {
    (if n == 0 then {} else Met(g, word, name, n - 1)) + {After(g, word, name, n)}
  }

  lemma {:induction false} MetAt(g: Graph, word: nat, name: string, n: nat, other: string) returns (i: nat)
    requires Resolved(g) && name in g && other in Met(g, word, name, n)
    ensures i <= n && After(g, word, name, i) == other
  {
    hide Resolved, After;
    if other == After(g, word, name, n) {
      i := n;
    } else {
      i := MetAt(g, word, name, n - 1, other);
    }
  }

  /** Before the walk is known to end it has met a new node at each step. */
  lemma {:induction false} MetCount(g: Graph, word: nat, name: string, n: nat, last: nat)
    requires Resolved(g) && name in g && n <= last
    requires Ends(g, word, name, last) && (last > 0 ==> !Ends(g, word, name, last - 1))
    ensures |Met(g, word, name, n)| == n + 1
  {
    hide Resolved, After, Ends;
    if n > 0 {
      MetCount(g, word, name, n - 1, last);
      if After(g, word, name, n) in Met(g, word, name, n - 1) {
        var i := MetAt(g, word, name, n - 1, After(g, word, name, n));
        AfterAdd(g, word, name, i, last - n);
        AfterAdd(g, word, name, n, last - n);
        EndsEarlier(g, word, name, last, i + (last - n));
        assert false;
      }
    }
  }

  lemma EndsEarlier(g: Graph, word: nat, name: string, last: nat, n: nat)
    requires Resolved(g) && name in g && n < last
    requires Ends(g, word, name, last) && After(g, word, name, n) == After(g, word, name, last)
    ensures Ends(g, word, name, last - 1)
  {
    hide Resolved, After;
    EndsOnce(g, word, name, n, last - 1);
  }

  lemma {:induction false} FirstEnd(g: Graph, word: nat, name: string, n: nat) returns (last: nat)
    requires Resolved(g) && name in g && Ends(g, word, name, n)
    ensures last <= n && Ends(g, word, name, last) && (last > 0 ==> !Ends(g, word, name, last - 1))
  {
    hide Resolved, Ends;
    if n > 0 && Ends(g, word, name, n - 1) {
      last := FirstEnd(g, word, name, n - 1);
    } else {
      last := n;
    }
  }

  /** Cycles or not, a walk that reaches a leaf at all has reached it once it could
      have met every node of the graph. */
  lemma EndsEarlyOrNever(g: Graph, word: nat, name: string)
    requires Resolved(g) && name in g
    ensures Ends(g, word, name, |g| - 1) <==> exists n: nat :: Ends(g, word, name, n)
  {
    hide Resolved, Ends, After;
    if n: nat :| Ends(g, word, name, n) {
      var last := FirstEnd(g, word, name, n);
      MetCount(g, word, name, last, last);
      SubsetSize(Met(g, word, name, last), g.Keys);
      EndsOnce(g, word, name, last, |g| - 1);
      SameNodeEnds(g, word, name, last, |g| - 1);
    }
  }

  lemma SameNodeEnds(g: Graph, word: nat, name: string, n: nat, m: nat)
    requires Resolved(g) && name in g && Ends(g, word, name, n)
    requires After(g, word, name, m) == After(g, word, name, n)
    ensures Ends(g, word, name, m)
  {
    hide Resolved, After;
  }

  lemma {:induction false} SubsetSize(a: set<string>, b: set<string>)
    requires a <= b
    ensures |a| <= |b|
  {
    if a != {} {
      var x :| x in a;
      SubsetSize(a - {x}, b - {x});
    }
  }

  // ---- The graph of a list of mappings ----

  datatype Option<T> = None | Some(value: T)

  /** A handler without a leading underscore names an instruction form. */
  predicate IsForm(handler: string) {
    handler == "" || handler[0] != '_'
  }

  /** A name is a form unless it begins with an underscore; the empty name is one. */
  lemma FormsHaveNoUnderscore(handler: string)
    ensures IsForm(handler) <==> !exists rest: string :: handler == "_" + rest
  {
    if !IsForm(handler) {
      assert handler == "_" + handler[1..];
    }
    if rest: string :| handler == "_" + rest {
      assert handler[0] == '_';
    }
  }

  /** The first node of a name is the one that stays. */
  function AddNode(g: Graph, name: string, spec: NodeSpec): Graph {
    if name in g then g else g[name := spec]
  }

  function WithForms(g: Graph, patterns: seq<DecodePattern>, j: nat): Graph
    requires j <= |patterns|
  {
    if j == 0 then g
    else
      var before := WithForms(g, patterns, j - 1);
      var handler := patterns[j - 1].handler;
      if IsForm(handler) then AddNode(before, handler, LeafSpec(handler)) else before
  }

  function WithMapping(g: Graph, m: DecodeMapping): Graph {
    WithForms(AddNode(g, m.name, MappingSpec(m)), m.mapping, |m.mapping|)
  }

  function GraphUpTo(mappings: seq<DecodeMapping>, i: nat): Graph
    requires i <= |mappings|
  {
    if i == 0 then map[] else WithMapping(GraphUpTo(mappings, i - 1), mappings[i - 1])
  }

  function GraphOf(mappings: seq<DecodeMapping>): Graph {
    AddNode(GraphUpTo(mappings, |mappings|), UNALLOCATED, LeafSpec(UNALLOCATED))
  }

  predicate Mentions(patterns: seq<DecodePattern>, name: string) {
    IsForm(name) && exists p <- patterns :: p.handler == name
  }

  /** What a name means in a list of mappings: the first mapping that has this name,
      or a leaf if a mapping before it uses the name as an instruction form. */
  function Meaning(mappings: seq<DecodeMapping>, name: string): Option<NodeSpec>
    decreases |mappings|
  {
    if mappings == [] then (if name == UNALLOCATED then Some(LeafSpec(name)) else None)
    else if mappings[0].name == name then Some(MappingSpec(mappings[0]))
    else if Mentions(mappings[0].mapping, name) then Some(LeafSpec(name))
    else Meaning(mappings[1..], name)
  }

  lemma {:induction false} FormsAdded(g: Graph, patterns: seq<DecodePattern>, j: nat, name: string)
    requires j <= |patterns|
    ensures var h := WithForms(g, patterns, j);
            && (name in h <==> name in g || Mentions(patterns[..j], name))
            && (name in g ==> h[name] == g[name])
            && (name in h && name !in g ==> h[name] == LeafSpec(name))
  {
    if j > 0 {
      FormsAdded(g, patterns, j - 1, name);
      var p := patterns[j - 1];
      assert patterns[..j] == patterns[..j - 1] + [p];
      if Mentions(patterns[..j - 1], name) {
        var q :| q in patterns[..j - 1] && q.handler == name;
        assert q in patterns[..j];
      }
    }
  }

  lemma {:induction false} UpToMeaning(mappings: seq<DecodeMapping>, i: nat, name: string)
    requires i <= |mappings|
    ensures var g := GraphUpTo(mappings, i);
            Meaning(mappings, name) == if name in g then Some(g[name]) else Meaning(mappings[i..], name)
  {
    if i == 0 {
      assert mappings[0..] == mappings;
    } else {
      UpToMeaning(mappings, i - 1, name);
      var g, m := GraphUpTo(mappings, i - 1), mappings[i - 1];
      var patterns := m.mapping;
      assert patterns[..|patterns|] == patterns;
      FormsAdded(AddNode(g, m.name, MappingSpec(m)), patterns, |patterns|, name);
      assert mappings[i - 1..][0] == m && mappings[i - 1..][1..] == mappings[i..];
    }
  }

  /** The graph that is built holds exactly the meaning of each name. */
  lemma GraphIsMeaning(mappings: seq<DecodeMapping>, name: string)
    ensures var g := GraphOf(mappings);
            Meaning(mappings, name) == if name in g then Some(g[name]) else None
  {
    UpToMeaning(mappings, |mappings|, name);
    assert mappings[|mappings|..] == [];
  }

  /** A mapping or a form that is met before any other use of its name gives the node:
      the mapping with its sampled bits and its patterns in order, the form a leaf. */
  lemma {:induction false} FirstUseGivesNode(mappings: seq<DecodeMapping>, k: nat, name: string)
    requires k < |mappings|
    requires forall i :: 0 <= i < k ==> mappings[i].name != name && !Mentions(mappings[i].mapping, name)
    ensures mappings[k].name == name ==>
              Meaning(mappings, name) == Some(NodeSpec("node", mappings[k].sampledBits, mappings[k].mapping))
    ensures mappings[k].name != name && Mentions(mappings[k].mapping, name) ==>
              Meaning(mappings, name) == Some(NodeSpec(name, [], []))
    decreases k
  {
    hide Mentions;
    if k > 0 {
      assert mappings[0].name != name;
      FirstUseGivesNode(mappings[1..], k - 1, name);
    }
  }

  /** A name used nowhere is no node, except that there is always an unallocated leaf. */
  lemma {:induction false} UnusedName(mappings: seq<DecodeMapping>, name: string)
    requires forall m <- mappings :: m.name != name && !Mentions(m.mapping, name)
    ensures Meaning(mappings, name) ==
            if name == "unallocated" then Some(NodeSpec("unallocated", [], [])) else None
    decreases |mappings|
  {
    hide Mentions;
    if mappings != [] {
      assert mappings == [mappings[0]] + mappings[1..];
      UnusedName(mappings[1..], name);
    }
  }

  predicate NamesMapping(mappings: seq<DecodeMapping>, name: string) {
    exists m <- mappings :: m.name == name
  }

  /** Each mapping is well formed and not empty. */
  predicate WellFormedMappings(mappings: seq<DecodeMapping>) {
    forall m <- mappings :: MappingSpec(m).WellFormed() && m.mapping != []
  }

  /** Every handler that is not an instruction form is the name of a mapping. */
  predicate HandlersNamed(mappings: seq<DecodeMapping>) {
    forall m <- mappings :: forall p <- m.mapping :: IsForm(p.handler) || NamesMapping(mappings, p.handler)
  }

  lemma {:induction false} HasMeaning(mappings: seq<DecodeMapping>, name: string)
    requires name == UNALLOCATED || NamesMapping(mappings, name) || exists m <- mappings :: Mentions(m.mapping, name)
    ensures Meaning(mappings, name).Some?
    decreases |mappings|
  {
    if mappings != [] && mappings[0].name != name && !Mentions(mappings[0].mapping, name) {
      assert mappings == [mappings[0]] + mappings[1..];
      HasMeaning(mappings[1..], name);
    }
  }

  predicate IsFormOf(mappings: seq<DecodeMapping>, name: string) {
    name == UNALLOCATED || exists m <- mappings :: Mentions(m.mapping, name)
  }

  /** A meaning is a leaf for an instruction form of the mappings, or the contents
      of one of the mappings. */
  lemma {:induction false} MeaningFrom(mappings: seq<DecodeMapping>, name: string)
    requires Meaning(mappings, name).Some?
    ensures var spec := Meaning(mappings, name).value;
            (spec == LeafSpec(name) && IsFormOf(mappings, name)) || exists m <- mappings :: spec == MappingSpec(m)
    decreases |mappings|
  {
    if mappings != [] && mappings[0].name != name && !Mentions(mappings[0].mapping, name) {
      assert mappings == [mappings[0]] + mappings[1..];
      MeaningFrom(mappings[1..], name);
    }
  }

  /** The leaves of a built graph are its instruction forms, each under its own
      name; only a form called "node" is not a leaf. */
  lemma LeavesAreForms(mappings: seq<DecodeMapping>, name: string)
    requires name in GraphOf(mappings)
    ensures var spec := GraphOf(mappings)[name];
            && (spec.IsLeafNode() <==> spec == LeafSpec(name) && name != "node")
            && (spec.IsLeafNode() ==> IsFormOf(mappings, name))
  {
    hide GraphOf, Meaning, IsFormOf;
    GraphIsMeaning(mappings, name);
    MeaningFrom(mappings, name);
  }

  lemma NodesWellFormed(mappings: seq<DecodeMapping>)
    requires WellFormedMappings(mappings)
    ensures forall name <- GraphOf(mappings) :: GraphOf(mappings)[name].WellFormed()
  {
    hide GraphOf, Meaning, NodeSpec.WellFormed, IsFormOf;
    forall name <- GraphOf(mappings)
      ensures GraphOf(mappings)[name].WellFormed()
    {
      GraphIsMeaning(mappings, name);
      MeaningFrom(mappings, name);
      LeafWellFormed(name);
    }
  }

  lemma LeafWellFormed(name: string)
    ensures LeafSpec(name).WellFormed()
  {
  }

  // ---- The part of a graph that its root reaches ----

  const ROOT: string := "Root"

  ghost function Successors(g: Graph, names: set<string>): set<string> {
    set name, target | name in names && name in g && target in Targets(g[name]) :: target
  }

  /** The names met within n steps from the root, through any table entries. */
  ghost function Reached(g: Graph, n: nat): set<string> {
    if n == 0 then {ROOT} else Reached(g, n - 1) + Successors(g, Reached(g, n - 1))
  }

  ghost predicate IsReached(g: Graph, name: string) {
    exists n: nat :: name in Reached(g, n)
  }

  /** Compiling from the root looks up no missing name. */
  ghost predicate RootResolves(g: Graph) {
    forall n: nat :: Reached(g, n) <= g.Keys
  }

  /** The nodes that the root reaches. */
  ghost function Live(g: Graph): Graph {
    map name | name in g && IsReached(g, name) :: g[name]
  }

  lemma SuccessorReached(g: Graph, name: string, target: string)
    requires name in g && IsReached(g, name) && target in Targets(g[name])
    ensures IsReached(g, target)
  {
    hide Targets;
    var n: nat :| name in Reached(g, n);
    assert target in Reached(g, n + 1);
  }

  /** If no missing name is reached, the reached part is closed. */
  lemma LiveResolves(g: Graph)
    requires RootResolves(g) && forall name <- g :: g[name].WellFormed()
    ensures Resolved(Live(g)) && ROOT in Live(g)
  {
    hide NodeSpec.WellFormed, Targets, Reached;
    RootReached(g);
    forall name <- Live(g)
      ensures Targets(Live(g)[name]) <= Live(g).Keys
    {
      forall target <- Targets(g[name])
        ensures target in Live(g)
      {
        SuccessorReached(g, name, target);
        var n: nat :| target in Reached(g, n);
      }
    }
  }

  lemma RootReached(g: Graph)
    requires RootResolves(g)
    ensures IsReached(g, ROOT) && ROOT in g
  {
    assert ROOT in Reached(g, 0);
  }

  /** A set of nodes that holds the root and the targets of all its nodes holds
      everything that the root reaches. */
  lemma {:induction false} ReachedWithin(g: Graph, names: set<string>, n: nat)
    requires ROOT in names && names <= g.Keys && forall name <- names :: Targets(g[name]) <= names
    ensures Reached(g, n) <= names
  {
    hide Targets;
    if n > 0 {
      ReachedWithin(g, names, n - 1);
    }
  }

  /** Compiling from the root meets only nodes exactly if some set of nodes holds the
      root and the targets of all its nodes. */
  lemma RootResolvesExactly(g: Graph)
    requires forall name <- g :: g[name].WellFormed()
    ensures RootResolves(g) <==>
              exists names: set<string> ::
                ROOT in names && names <= g.Keys && forall name <- names :: Targets(g[name]) <= names
  {
    hide Targets, NodeSpec.WellFormed, Reached;
    if RootResolves(g) {
      LiveResolves(g);
      assert forall name <- Live(g).Keys :: Targets(g[name]) <= Live(g).Keys;
    }
    if names: set<string> :|
      ROOT in names && names <= g.Keys && forall name <- names :: Targets(g[name]) <= names
    {
      forall n: nat
        ensures Reached(g, n) <= g.Keys
      {
        ReachedWithin(g, names, n);
      }
    }
  }

  lemma {:induction false} FullTargetIn(spec: NodeSpec, index: nat, i: nat, names: set<string>)
    requires spec.WellFormed() && i <= |spec.patternTable|
    requires UNALLOCATED in names && forall p <- spec.patternTable :: p.handler in names
    ensures FullTarget(spec, index, i) in names
    decreases |spec.patternTable| - i
  {
    hide NodeSpec.WellFormed, Selects;
    if i < |spec.patternTable| {
      FullTargetIn(spec, index, i + 1, names);
    }
  }

  lemma TargetsIn(spec: NodeSpec, names: set<string>)
    requires UNALLOCATED in names && forall p <- spec.patternTable :: p.handler in names
    ensures Targets(spec) <= names
  {
    hide NodeSpec.WellFormed, FullTarget, TableSize;
    if spec.WellFormed() {
      forall index: nat
        ensures Target(spec, index) in names
      {
        FullTargetIn(spec, index, 0, names);
      }
    }
  }

  /** If every handler without a leaf names a mapping and there is a root, no missing
      name can be reached. */
  lemma GraphResolves(mappings: seq<DecodeMapping>)
    requires WellFormedMappings(mappings) && HandlersNamed(mappings) && NamesMapping(mappings, ROOT)
    ensures Resolved(GraphOf(mappings)) && RootResolves(GraphOf(mappings))
  {
    hide GraphOf, Meaning, NodeSpec.WellFormed, WellFormedMappings, HandlersNamed, Targets;
    var g := GraphOf(mappings);
    NodesWellFormed(mappings);
    GraphIsMeaning(mappings, ROOT);
    HasMeaning(mappings, ROOT);
    forall name <- g
      ensures Targets(g[name]) <= g.Keys
    {
      EntryResolves(mappings, name);
    }
    RootResolvesExactly(g);
    assert forall name <- g.Keys :: Targets(g[name]) <= g.Keys;
  }

  lemma EntryResolves(mappings: seq<DecodeMapping>, name: string)
    requires HandlersNamed(mappings) && name in GraphOf(mappings)
    ensures Targets(GraphOf(mappings)[name]) <= GraphOf(mappings).Keys
  {
    hide GraphOf, Meaning, Targets;
    var g := GraphOf(mappings);
    GraphIsMeaning(mappings, name);
    MeaningFrom(mappings, name);
    GraphIsMeaning(mappings, UNALLOCATED);
    HasMeaning(mappings, UNALLOCATED);
    forall p <- g[name].patternTable
      ensures p.handler in g
    {
      var m :| m in mappings && g[name] == MappingSpec(m);
      assert IsForm(p.handler) ==> Mentions(m.mapping, p.handler);
      HasMeaning(mappings, p.handler);
      GraphIsMeaning(mappings, p.handler);
    }
    TargetsIn(g[name], g.Keys);
  }

  /** A walk from the root of a built graph that has reached a leaf reports the name
      it has reached, which is an instruction form of the mappings. */
  lemma ReportedForm(mappings: seq<DecodeMapping>, word: nat, n: nat)
    requires WellFormedMappings(mappings) && RootResolves(GraphOf(mappings))
    ensures var g := Live(GraphOf(mappings));
            && Resolved(g) && "Root" in g
            && (Ends(g, word, "Root", n) ==>
                  var form := After(g, word, "Root", n);
                  g[form].instructionName == form && IsFormOf(mappings, form))
  {
    hide GraphOf, WellFormedMappings, RootResolves, Resolved, After, IsFormOf, IsReached;
    NodesWellFormed(mappings);
    LiveResolves(GraphOf(mappings));
    LeavesAreForms(mappings, After(Live(GraphOf(mappings)), word, "Root", n));
  }
}
