/** The flatten candidates of a structure model: a stack walk with a set of keys already used
    (core/metadata/json_structure.py:291-363). Machine paths can coincide, and the walk skips a
    candidate whose path and use were seen before; for an inferred document it never has to. */
module JsonFlatten {
  import opened JsonInvariants
  import opened JsonObservation
  import opened JsonPath
  import opened JsonSchema
  import opened Options
  import opened Text

  datatype Use = Explode | RecordSource | Meta

  datatype Candidate = Candidate(path: string, displayPath: string, use: Use, nodeKind: Kind, confidence: real)

  function Offer(node: StructureNode, use: Use, confidence: real): Candidate {
    Candidate(node.path, node.displayPath, use, node.kind, confidence)
  }

  /** The candidates of one node on its own. */
  function Own(node: StructureNode): seq<Candidate> {
    if node.kind == ARRAY then
      [Offer(node, Explode, if node.itemKind in {Some(OBJECT), Some(UNION)} then 0.85 else 0.75)]
      + (if node.itemKind == Some(OBJECT) then [Offer(node, RecordSource, if node.path == "/" then 0.95 else 0.9)] else [])
    else if IsScalar(node.kind) || (node.kind == UNION && forall i :: 0 <= i < |node.kinds| ==> IsScalar(node.kinds[i])) then
      [Offer(node, Meta, 0.8)]
    else []
  }

  /** The candidates of a subtree, parents first. */
  function Preorder(node: StructureNode): seq<Candidate>
    decreases node, 1
  {
    Own(node) + Forest(node.children)
  }

  function Forest(nodes: seq<StructureNode>): seq<Candidate>
    decreases nodes, 0
  {
    if nodes == [] then [] else Preorder(nodes[0]) + Forest(nodes[1..])
  }

  function Key(c: Candidate): (string, Use) {
    (c.path, c.use)
  }

  function Keys(cs: seq<Candidate>): set<(string, Use)> {
    set c | c in cs :: Key(c)
  }

  /** What is left when a candidate with a used key is skipped. */
  function Deduped(cs: seq<Candidate>): seq<Candidate> {
    if cs == [] then []
    else
      var rest := Deduped(cs[..|cs| - 1]);
      if Key(cs[|cs| - 1]) in Keys(rest) then rest else rest + [cs[|cs| - 1]]
  }

  // ---- the walk --------------------------------------------------------------------------------------------

  function Reversed(nodes: seq<StructureNode>): seq<StructureNode> {
    if nodes == [] then [] else Reversed(nodes[1..]) + [nodes[0]]
  }

  function NodeCount(node: StructureNode): nat
    decreases node, 1
  {
    1 + NodeCounts(node.children)
  }

  function NodeCounts(nodes: seq<StructureNode>): nat
    decreases nodes, 0
  {
    if nodes == [] then 0 else NodeCount(nodes[0]) + NodeCounts(nodes[1..])
  }

  /** What the walk will still meet, the top of the stack first. */
  function Pending(stack: seq<StructureNode>): seq<Candidate> {
    if stack == [] then [] else Preorder(stack[|stack| - 1]) + Pending(stack[..|stack| - 1])
  }

  function PendingCount(stack: seq<StructureNode>): nat {
    if stack == [] then 0 else NodeCount(stack[|stack| - 1]) + PendingCount(stack[..|stack| - 1])
  }

  lemma {:induction false} PendingReversed(stack: seq<StructureNode>, nodes: seq<StructureNode>)
    ensures Pending(stack + Reversed(nodes)) == Forest(nodes) + Pending(stack)
    ensures PendingCount(stack + Reversed(nodes)) == NodeCounts(nodes) + PendingCount(stack)
  {
    hide Preorder, NodeCount;
    if nodes == [] {
      assert stack + Reversed(nodes) == stack;
    } else {
      var pushed := stack + Reversed(nodes);
      assert pushed[..|pushed| - 1] == stack + Reversed(nodes[1..]);
      PendingReversed(stack, nodes[1..]);
      Assoc(Preorder(nodes[0]), Forest(nodes[1..]), Pending(stack));
    }
  }

  lemma DedupedStep(done: seq<Candidate>, c: Candidate)
    ensures Deduped(done + [c]) == if Key(c) in Keys(Deduped(done)) then Deduped(done) else Deduped(done) + [c]
  {
    assert (done + [c])[..|done|] == done;
  }

  lemma KeysStep(cs: seq<Candidate>, c: Candidate)
    ensures Keys(cs + [c]) == Keys(cs) + {Key(c)}
  {
  }

  /** `_add_candidate` for each candidate of a node. */
  method AddCandidates(candidates: seq<Candidate>, seen: set<(string, Use)>, offers: seq<Candidate>, ghost done: seq<Candidate>)
    returns (more: seq<Candidate>, moreSeen: set<(string, Use)>)
    requires candidates == Deduped(done) && seen == Keys(candidates)
    ensures more == Deduped(done + offers) && moreSeen == Keys(more)
  {
    hide Keys, Key, Deduped;
    more, moreSeen := candidates, seen;
    assert done + offers[..0] == done;
    for i := 0 to |offers|
      invariant more == Deduped(done + offers[..i]) && moreSeen == Keys(more)
    {
      DedupedStep(done + offers[..i], offers[i]);
      assert done + offers[..i] + [offers[i]] == done + offers[..i + 1];
      KeysStep(more, offers[i]);
      if Key(offers[i]) !in moreSeen {
        more, moreSeen := more + [offers[i]], moreSeen + {Key(offers[i])};
      }
    }
    assert offers[..|offers|] == offers;
  }

  // ---- ranking ---------------------------------------------------------------------------------------------

  function Rank(use: Use): nat {
    match use
    case Explode => 0
    case Meta => 1
    case RecordSource => 2
  }

  /** `a` may stand before `b`: by falling confidence, then by display path, then by the name of the kind. */
  predicate MayPrecede(a: Candidate, b: Candidate) {
    || a.confidence > b.confidence
    || (a.confidence == b.confidence && a.displayPath != b.displayPath && Leq(a.displayPath, b.displayPath))
    || (a.confidence == b.confidence && a.displayPath == b.displayPath && Rank(a.use) <= Rank(b.use))
  }

  lemma MayPrecedeOrders(a: Candidate, b: Candidate, c: Candidate)
    ensures MayPrecede(a, b) || MayPrecede(b, a)
    ensures MayPrecede(a, b) && MayPrecede(b, c) ==> MayPrecede(a, c)
  {
    hide Leq;
    LeqTotal(a.displayPath, b.displayPath);
    LeqTotal(b.displayPath, c.displayPath);
    LeqTotal(a.displayPath, c.displayPath);
    if Leq(a.displayPath, b.displayPath) && Leq(b.displayPath, c.displayPath) {
      LeqTransitive(a.displayPath, b.displayPath, c.displayPath);
    }
  }

  /** Stable insertion. */
  function Placed(ranked: seq<Candidate>, c: Candidate): seq<Candidate> {
    if ranked == [] || MayPrecede(ranked[|ranked| - 1], c) then ranked + [c]
    else Placed(ranked[..|ranked| - 1], c) + [ranked[|ranked| - 1]]
  }

  /** `sorted` by that order. */
  function Ranked(cs: seq<Candidate>): seq<Candidate> {
    if cs == [] then [] else Placed(Ranked(cs[..|cs| - 1]), cs[|cs| - 1])
  }

  ghost predicate InOrder(cs: seq<Candidate>) {
    forall i, j :: 0 <= i < j < |cs| ==> MayPrecede(cs[i], cs[j])
  }

  lemma {:induction false} PlacedPermutes(ranked: seq<Candidate>, c: Candidate)
    ensures multiset(Placed(ranked, c)) == multiset(ranked) + multiset{c}
  {
    hide MayPrecede;
    if ranked != [] && !MayPrecede(ranked[|ranked| - 1], c) {
      PlacedPermutes(ranked[..|ranked| - 1], c);
      assert ranked == ranked[..|ranked| - 1] + [ranked[|ranked| - 1]];
    }
  }

  /** Whatever may follow all of `ranked` and `c` may follow the insertion. */
  lemma {:induction false} PlacedBefore(ranked: seq<Candidate>, c: Candidate, d: Candidate)
    requires MayPrecede(c, d) && forall i :: 0 <= i < |ranked| ==> MayPrecede(ranked[i], d)
    ensures forall i :: 0 <= i < |Placed(ranked, c)| ==> MayPrecede(Placed(ranked, c)[i], d)
  {
    hide MayPrecede;
    if ranked != [] && !MayPrecede(ranked[|ranked| - 1], c) {
      PlacedBefore(ranked[..|ranked| - 1], c, d);
    }
  }

  lemma AppendInOrder(cs: seq<Candidate>, c: Candidate)
    requires InOrder(cs) && (cs != [] ==> MayPrecede(cs[|cs| - 1], c))
    ensures InOrder(cs + [c])
  {
    hide MayPrecede;
    forall i | 0 <= i < |cs| ensures MayPrecede(cs[i], c) {
      if i < |cs| - 1 {
        MayPrecedeOrders(cs[i], cs[|cs| - 1], c);
      }
    }
  }

  lemma {:induction false} PlacedInOrder(ranked: seq<Candidate>, c: Candidate)
    requires InOrder(ranked)
    ensures InOrder(Placed(ranked, c))
  {
    hide MayPrecede;
    if ranked != [] && !MayPrecede(ranked[|ranked| - 1], c) {
      var init, last := ranked[..|ranked| - 1], ranked[|ranked| - 1];
      PlacedInOrder(init, c);
      MayPrecedeOrders(c, last, last);
      PlacedBefore(init, c, last);
      AppendInOrder(Placed(init, c), last);
    } else {
      AppendInOrder(ranked, c);
    }
  }

  lemma {:induction false} RankedIsSorted(cs: seq<Candidate>)
    ensures InOrder(Ranked(cs)) && multiset(Ranked(cs)) == multiset(cs)
  {
    hide MayPrecede, InOrder, Placed;
    if cs != [] {
      RankedIsSorted(cs[..|cs| - 1]);
      PlacedInOrder(Ranked(cs[..|cs| - 1]), cs[|cs| - 1]);
      PlacedPermutes(Ranked(cs[..|cs| - 1]), cs[|cs| - 1]);
      assert cs == cs[..|cs| - 1] + [cs[|cs| - 1]];
    } else {
      NothingInOrder();
    }
  }

  lemma NothingInOrder()
    ensures InOrder([])
  {
  }

  /** `_build_flatten_candidates`. */
  method BuildFlattenCandidates(root: StructureNode) returns (candidates: seq<Candidate>)
    ensures candidates == Ranked(Deduped(Preorder(root)))
    ensures InOrder(candidates) && multiset(candidates) == multiset(Deduped(Preorder(root)))
  {
    hide Ranked, InOrder, MayPrecede;
    candidates := [];
    var seen: set<(string, Use)> := {};
    var stack := [root];
    ghost var done: seq<Candidate> := [];
    assert done + Pending(stack) == Preorder(root);
    while stack != []
      invariant done + Pending(stack) == Preorder(root)
      invariant candidates == Deduped(done) && seen == Keys(candidates)
      decreases PendingCount(stack)
    {
      var node := stack[|stack| - 1];
      stack := stack[..|stack| - 1];
      candidates, seen := AddCandidates(candidates, seen, Own(node), done);
      PendingReversed(stack, node.children);
      WalkLaw(done, Own(node), Forest(node.children), Pending(stack));
      done := done + Own(node);
      stack := stack + Reversed(node.children);
    }
    assert done + [] == done;
    RankedIsSorted(candidates);
    candidates := Ranked(candidates);
  }

  lemma WalkLaw<T>(done: seq<T>, own: seq<T>, below: seq<T>, rest: seq<T>)
    ensures done + ((own + below) + rest) == (done + own) + (below + rest)
  {
  }

  // ---- no candidate is skipped -------------------------------------------------------------------------------

  ghost predicate DistinctKeys(cs: seq<Candidate>) {
    forall i, j :: 0 <= i < j < |cs| ==> Key(cs[i]) != Key(cs[j])
  }

  lemma {:induction false} DistinctStay(cs: seq<Candidate>)
    requires DistinctKeys(cs)
    ensures Deduped(cs) == cs
  {
    if cs != [] {
      var init := cs[..|cs| - 1];
      DistinctStay(init);
      assert cs == init + [cs[|cs| - 1]];
    }
  }

  lemma DistinctJoin(a: seq<Candidate>, b: seq<Candidate>)
    requires DistinctKeys(a) && DistinctKeys(b)
    requires forall x, y :: x in a && y in b ==> Key(x) != Key(y)
    ensures DistinctKeys(a + b)
  {
  }

  /** `path` is the path of a position at or below `tokens`. */
  ghost predicate Below(path: string, tokens: seq<string>) {
    exists more: seq<string> :: path == Machine(tokens + more)
  }

  /** `nodes` are built from children of `t` with different keys. */
  ghost predicate BuiltFrom(t: Observed, keys: seq<string>, nodes: seq<StructureNode>) {
    && |keys| == |nodes|
    && (forall i, j :: 0 <= i < j < |keys| ==> keys[i] != keys[j])
    && forall i :: 0 <= i < |keys| ==> keys[i] in t.children && IsBuilt(t.children[keys[i]], nodes[i])
  }

  ghost predicate IsBuilt(t: Observed, node: StructureNode) {
    node == Build(t, true) || node == Build(t, false)
  }

  lemma {:induction false} ChildrenBuilt(t: Observed, required: bool) returns (keys: seq<string>)
    ensures var node := Build(t, required);
      && BuiltFrom(t, keys, node.children)
      && node.path == Machine(t.tokens)
      && (node.kind == ARRAY ==> forall k :: k in keys ==> k == ITEM)
      && (node.kind != ARRAY && keys != [] ==> node.kind == OBJECT)
  {
    var node := Build(t, required);
    if node.kind == OBJECT {
      keys := Sorted(t.children.Keys - {ITEM});
      forall i | 0 <= i < |keys| ensures keys[i] in t.children && IsBuilt(t.children[keys[i]], node.children[i]) {
        assert keys[i] in keys;
        BuildChildrenAt(t, keys, i);
      }
    } else if node.kind == ARRAY && ITEM in t.children {
      keys := [ITEM];
    } else {
      keys := [];
    }
  }

  lemma SiblingsDiffer(tokens: seq<string>, k: string, l: string, p: string)
    requires k != l && Below(p, tokens + [k])
    ensures !Below(p, tokens + [l])
  {
    hide Machine;
    var more: seq<string> :| p == Machine(tokens + [k] + more);
    forall other: seq<string> ensures p != Machine(tokens + [l] + other) {
      MachineInjective(tokens + [k] + more, tokens + [l] + other);
      assert (tokens + [k] + more)[|tokens|] == k && (tokens + [l] + other)[|tokens|] == l;
    }
  }

  /** Only the root and the member with the empty key share a path. */
  lemma OwnDiffers(tokens: seq<string>, k: string, p: string)
    requires k != "" && Below(p, tokens + [k])
    ensures p != Machine(tokens)
  {
    hide Machine;
    var more: seq<string> :| p == Machine(tokens + [k] + more);
    MachineInjective(tokens + [k] + more, tokens);
    assert (tokens + [k] + more)[|tokens|] == k;
  }

  lemma BelowUp(p: string, tokens: seq<string>, k: string)
    requires Below(p, tokens + [k])
    ensures Below(p, tokens)
  {
    var more: seq<string> :| p == Machine(tokens + [k] + more);
    assert tokens + [k] + more == tokens + ([k] + more);
  }

  lemma OwnFacts(node: StructureNode)
    ensures DistinctKeys(Own(node)) && forall c :: c in Own(node) ==> c.path == node.path
    ensures Own(node) != [] ==> node.kind != OBJECT
  {
  }

  lemma {:induction false} SubtreeFacts(t: Observed, required: bool)
    requires Truthful(t)
    ensures DistinctKeys(Preorder(Build(t, required)))
    ensures forall c :: c in Preorder(Build(t, required)) ==> Below(c.path, t.tokens)
    decreases t, 1, 0
  {
    hide Own, Build, Truthful, Machine, BuiltFrom;
    var node := Build(t, required);
    var keys := ChildrenBuilt(t, required);
    var own, forest := Own(node), Forest(node.children);
    OwnFacts(node);
    ForestFacts(t, keys, node.children);
    assert t.tokens + [] == t.tokens;
    forall c | c in own ensures Below(c.path, t.tokens) {
      assert c.path == Machine(t.tokens + []);
    }
    forall c | c in forest ensures Below(c.path, t.tokens) {
      var i :| 0 <= i < |keys| && Below(c.path, t.tokens + [keys[i]]);
      BelowUp(c.path, t.tokens, keys[i]);
    }
    forall x, y | x in own && y in forest ensures Key(x) != Key(y) {
      var i :| 0 <= i < |keys| && Below(y.path, t.tokens + [keys[i]]);
      assert keys[i] in keys && own != [];
      assert keys[i] == ITEM;
      OwnDiffers(t.tokens, keys[i], y.path);
    }
    DistinctJoin(own, forest);
  }

  lemma PathsDecide(x: Candidate, y: Candidate)
    requires x.path != y.path
    ensures Key(x) != Key(y)
  {
  }

  lemma {:induction false} ForestFacts(t: Observed, keys: seq<string>, nodes: seq<StructureNode>)
    requires Truthful(t) && BuiltFrom(t, keys, nodes)
    ensures DistinctKeys(Forest(nodes))
    ensures forall c :: c in Forest(nodes) ==> exists i :: 0 <= i < |keys| && Below(c.path, t.tokens + [keys[i]])
    decreases t, 0, |keys|
  {
    hide Preorder, Build, Machine, Below, DistinctKeys, Tallied, Key;
    if nodes != [] {
      var k, child := keys[0], t.children[keys[0]];
      assert Named(child, t.tokens, k);
      SubtreeFacts(child, nodes[0] == Build(child, true));
      ForestFacts(t, keys[1..], nodes[1..]);
      var first, rest := Preorder(nodes[0]), Forest(nodes[1..]);
      forall c | c in rest ensures exists i :: 0 < i < |keys| && Below(c.path, t.tokens + [keys[i]]) {
        var i :| 0 <= i < |keys[1..]| && Below(c.path, t.tokens + [keys[1..][i]]);
        assert keys[1..][i] == keys[i + 1];
      }
      forall x, y | x in first && y in rest ensures Key(x) != Key(y) {
        var i :| 0 < i < |keys| && Below(y.path, t.tokens + [keys[i]]);
        SiblingsDiffer(t.tokens, k, keys[i], x.path);
        PathsDecide(x, y);
      }
      DistinctJoin(first, rest);
    } else {
      NoKeys();
    }
  }

  lemma NoKeys()
    ensures DistinctKeys([])
  {
  }

  /** Whatever the document and the limits, every candidate of every node is reported. */
  lemma NoCandidateIsSkipped(v: Json, limits: Limits)
    ensures var root := Build(ObserveRoot(v, limits).0, true);
            Deduped(Preorder(root)) == Preorder(root) && multiset(Ranked(Deduped(Preorder(root)))) == multiset(Preorder(root))
  {
    hide Build, ObserveRoot, Truthful, Preorder, Deduped, Ranked, InOrder;
    RankedIsSorted(Preorder(Build(ObserveRoot(v, limits).0, true)));
    ObserveRootInvariants(v, limits);
    SubtreeFacts(ObserveRoot(v, limits).0, true);
    DistinctStay(Preorder(Build(ObserveRoot(v, limits).0, true)));
  }
}
