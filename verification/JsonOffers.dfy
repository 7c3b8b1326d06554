/** Which positions of an inferred document are offered for which use, in terms of the values seen there
    (core/metadata/json_structure.py:291-340). */
module JsonOffers {
  import opened JsonFlatten
  import opened JsonInvariants
  import opened JsonObservation
  import opened JsonPath
  import opened JsonSchema
  import opened Options
  import opened Text

  // ---- kinds and values -------------------------------------------------------------------------------

  /** Values of two kinds, nulls aside. */
  ghost predicate IsMixed(vs: seq<Json>) {
    exists a, b :: a in vs && b in vs && KindOf(a) != NULL && KindOf(b) != NULL && KindOf(a) != KindOf(b)
  }

  ghost predicate NoContainer(vs: seq<Json>) {
    forall v :: v in vs ==> !IsContainer(v)
  }

  lemma {:induction false} FilterApart(order: seq<Kind>, kinds: set<Kind>)
    requires forall i, j :: 0 <= i < j < |order| ==> order[i] != order[j]
    ensures forall i, j :: 0 <= i < j < |FilterKinds(order, kinds)| ==> FilterKinds(order, kinds)[i] != FilterKinds(order, kinds)[j]
  {
    if order != [] {
      FilterApart(order[1..], kinds);
      FilterKindsMembers(order[1..], kinds);
      var rest := FilterKinds(order[1..], kinds);
      forall i | 0 <= i < |rest| ensures rest[i] != order[0] {
        assert rest[i] in rest;
      }
    }
  }

  lemma SortedSet(kinds: set<Kind>)
    ensures SortedKinds(kinds) == [] <==> kinds == {}
    ensures |SortedKinds(kinds)| == 1 ==> kinds == {SortedKinds(kinds)[0]}
    ensures |SortedKinds(kinds)| >= 2 ==> exists a, b :: a in kinds && b in kinds && a != b
  {
    var sorted := SortedKinds(kinds);
    SortedKindsMembers(kinds);
    FilterApart(ALPHABETICAL, kinds);
    hide SortedKinds, FilterKinds;
    if kinds != {} {
      var k :| k in kinds;
      assert k in sorted;
    }
    if sorted != [] {
      assert sorted[0] in sorted;
    }
    if |sorted| >= 2 {
      assert sorted[0] in sorted && sorted[1] in sorted;
    }
  }

  ghost predicate HasTwo(kinds: set<Kind>) {
    exists a, b :: a in kinds && b in kinds && a != b
  }

  /** The kind of a node by the set of kinds seen, nulls aside. */
  lemma KindBySet(t: Observed, kind: Kind)
    requires UNION !in t.kinds && kind in {OBJECT, ARRAY}
    ensures var kinds := t.kinds - {NULL};
      && (EffectiveKind(t) == UNION <==> HasTwo(kinds))
      && (EffectiveKind(t) == kind <==> kinds == {kind})
      && (IsScalar(EffectiveKind(t)) || (EffectiveKind(t) == UNION && AllScalar(SortedKinds(kinds))) <==>
            OBJECT !in kinds && ARRAY !in kinds)
  {
    var kinds := t.kinds - {NULL};
    SortedSet(kinds);
    SortedKindsMembers(kinds);
    hide SortedKinds;
    var sorted := SortedKinds(kinds);
    assert forall i :: 0 <= i < |sorted| ==> sorted[i] in sorted;
  }

  lemma OnlyMeans(t: Observed, kind: Kind)
    requires KindsAre(t.seen, t.kinds) && kind in {OBJECT, ARRAY}
    ensures t.kinds - {NULL} == {kind} <==> OnlyKind(t.seen, kind)
  {
    var kinds := t.kinds - {NULL};
    if kinds == {kind} {
      assert kind in kinds;
      forall v | v in t.seen ensures KindOf(v) == kind || v.Null? {
        assert KindOf(v) != NULL ==> KindOf(v) in kinds;
      }
    }
    if OnlyKind(t.seen, kind) {
      forall k | k in kinds ensures k == kind {
        var v :| v in t.seen && KindOf(v) == k;
      }
    }
  }

  lemma MixedMeans(t: Observed)
    requires KindsAre(t.seen, t.kinds)
    ensures HasTwo(t.kinds - {NULL}) <==> IsMixed(t.seen)
  {
    hide KindOf;
    var kinds := t.kinds - {NULL};
    if x, y :| x in kinds && y in kinds && x != y {
      var a :| a in t.seen && KindOf(a) == x;
      var b :| b in t.seen && KindOf(b) == y;
    }
    if a, b :| a in t.seen && b in t.seen && KindOf(a) != NULL && KindOf(b) != NULL && KindOf(a) != KindOf(b) {
      assert KindOf(a) in kinds && KindOf(b) in kinds;
    }
  }

  lemma ContainerMeans(t: Observed)
    requires KindsAre(t.seen, t.kinds)
    ensures UNION !in t.kinds
    ensures OBJECT !in t.kinds && ARRAY !in t.kinds <==> NoContainer(t.seen)
  {
    if v :| v in t.seen && IsContainer(v) {
      assert KindOf(v) in t.kinds;
    }
  }

  /** The kind of a node, in terms of the values seen there. */
  lemma KindMeans(t: Observed)
    requires KindsAre(t.seen, t.kinds)
    ensures EffectiveKind(t) == OBJECT <==> OnlyKind(t.seen, OBJECT)
    ensures EffectiveKind(t) == ARRAY <==> OnlyKind(t.seen, ARRAY)
    ensures EffectiveKind(t) == UNION <==> IsMixed(t.seen)
    ensures IsScalar(EffectiveKind(t)) || (EffectiveKind(t) == UNION && AllScalar(SortedKinds(t.kinds - {NULL}))) <==> NoContainer(t.seen)
  {
    hide KindsAre, EffectiveKind, OnlyKind, IsMixed, NoContainer, SortedKinds, HasTwo, AllScalar;
    ContainerMeans(t);
    MixedMeans(t);
    OnlyMeans(t, OBJECT);
    OnlyMeans(t, ARRAY);
    KindBySet(t, OBJECT);
    KindBySet(t, ARRAY);
  }

  predicate AllScalar(kinds: seq<Kind>) {
    forall i :: 0 <= i < |kinds| ==> IsScalar(kinds[i])
  }

  // ---- what a position is offered for --------------------------------------------------------------------

  /** The items seen below an array position. */
  function ItemsSeen(t: Observed): seq<Json> {
    if ITEM in t.children then t.children[ITEM].seen else []
  }

  /** A candidate that the position of `t` gives. It can be exploded if only arrays were seen there, with more confidence
      if their items are objects, or are mixed; such an array is a record source if its items are objects, with most
      confidence at the root; a position where no container was seen is metadata. */
  ghost predicate Offered(t: Observed, c: Candidate) {
    && c.path == Machine(t.tokens) && c.displayPath == Display(t.tokens) && c.nodeKind == EffectiveKind(t)
    && match c.use
       case Explode =>
         && OnlyKind(t.seen, ARRAY)
         && c.confidence == if OnlyKind(ItemsSeen(t), OBJECT) || IsMixed(ItemsSeen(t)) then 0.85 else 0.75
       case RecordSource =>
         && OnlyKind(t.seen, ARRAY) && OnlyKind(ItemsSeen(t), OBJECT)
         && c.confidence == if t.tokens == [] || t.tokens == [""] then 0.95 else 0.9
       case Meta => NoContainer(t.seen) && c.confidence == 0.8
  }

  /** The node is a leaf: a scalar, or a union of scalars. */
  predicate IsLeaf(node: StructureNode) {
    IsScalar(node.kind) || (node.kind == UNION && AllScalar(node.kinds))
  }

  /** The same in terms of the built node. */
  predicate Gives(node: StructureNode, c: Candidate) {
    && c.path == node.path && c.displayPath == node.displayPath && c.nodeKind == node.kind
    && match c.use
       case Explode => node.kind == ARRAY && c.confidence == if node.itemKind in {Some(OBJECT), Some(UNION)} then 0.85 else 0.75
       case RecordSource => node.kind == ARRAY && node.itemKind == Some(OBJECT) && c.confidence == if node.path == "/" then 0.95 else 0.9
       case Meta => IsLeaf(node) && c.confidence == 0.8
  }

  lemma OwnGives(node: StructureNode, c: Candidate)
    ensures c in Own(node) <==> Gives(node, c)
  {
    hide AllScalar;
    var own := Own(node);
    assert AllScalar(node.kinds) <==> forall i :: 0 <= i < |node.kinds| ==> IsScalar(node.kinds[i]) by { ScalarsAre(node.kinds); }
    if Gives(node, c) {
      match c.use
      case Explode => assert c == own[0];
      case RecordSource => assert c == own[1];
      case Meta => assert c == own[0];
    }
  }

  lemma ScalarsAre(kinds: seq<Kind>)
    ensures AllScalar(kinds) <==> forall i :: 0 <= i < |kinds| ==> IsScalar(kinds[i])
  {
  }

  lemma OwnExactly(t: Observed, required: bool, c: Candidate)
    requires Truthful(t)
    ensures c in Own(Build(t, required)) <==> Offered(t, c)
  {
    hide Truthful, Build, Machine, Display, EffectiveKind, SortedKinds, OnlyKind, IsMixed, NoContainer, Own, AllScalar, KindsAre;
    OwnGives(Build(t, required), c);
    BuiltNode(t, required);
    TruthfulKinds(t);
    KindMeans(t);
    RootPath(t.tokens);
    if ITEM in t.children {
      KindMeans(t.children[ITEM]);
    } else {
      NothingMixed();
    }
  }

  /** What the candidates of a built node depend on. */
  lemma BuiltNode(t: Observed, required: bool)
    ensures var node := Build(t, required);
      && node.path == Machine(t.tokens) && node.displayPath == Display(t.tokens) && node.kind == EffectiveKind(t)
      && (node.kind == UNION ==> node.kinds == SortedKinds(t.kinds - {NULL}))
      && (node.kind == ARRAY ==> node.itemKind == Some(if ITEM in t.children then EffectiveKind(t.children[ITEM]) else UNKNOWN))
      && (node.kind == OBJECT ==> node.children == BuildChildren(t, Sorted(t.children.Keys - {ITEM})))
  {
    hide Machine, Display, EffectiveKind, SortedKinds, BuildChildren;
  }

  lemma TruthfulKinds(t: Observed)
    requires Truthful(t)
    ensures KindsAre(t.seen, t.kinds) && forall k :: k in t.children ==> KindsAre(t.children[k].seen, t.children[k].kinds)
  {
  }

  lemma NothingMixed()
    ensures !IsMixed([]) && !OnlyKind([], OBJECT)
  {
  }

  lemma RootPath(tokens: seq<string>)
    ensures Machine(tokens) == "/" <==> tokens == [] || tokens == [""]
  {
    hide Machine;
    MachineInjective(tokens, []);
    assert Machine([]) == "/" by { RootIs(); }
  }

  lemma RootIs()
    ensures Machine([]) == "/"
  {
  }

  // ---- all positions ------------------------------------------------------------------------------------------

  /** The structure goes on from `t` to its child `k`: to the keys of an object, and to the items of an array. */
  predicate GoesTo(t: Observed, k: string) {
    k in t.children && if EffectiveKind(t) == OBJECT then k != ITEM else EffectiveKind(t) == ARRAY && k == ITEM
  }

  /** The structure shows `d` at the end of `path`. */
  ghost predicate Shows(t: Observed, path: seq<string>, d: Observed)
    decreases |path|
  {
    if path == [] then d == t else GoesTo(t, path[0]) && Shows(t.children[path[0]], path[1..], d)
  }

  lemma {:induction false} ForestHas(nodes: seq<StructureNode>, c: Candidate)
    ensures c in Forest(nodes) <==> exists i :: 0 <= i < |nodes| && c in Preorder(nodes[i])
  {
    hide Preorder;
    if nodes != [] {
      ForestHas(nodes[1..], c);
      if i :| 0 <= i < |nodes| && c in Preorder(nodes[i]) {
        if i > 0 {
          assert nodes[1..][i - 1] == nodes[i];
        }
      }
      if i :| 0 <= i < |nodes[1..]| && c in Preorder(nodes[1..][i]) {
        assert nodes[i + 1] == nodes[1..][i];
      }
    }
  }

  /** Whether a position is required makes no difference. */
  lemma SameOffers(t: Observed, a: bool, b: bool)
    ensures Preorder(Build(t, a)) == Preorder(Build(t, b))
  {
    hide BuildChildren, Sorted, Machine, Display, EffectiveKind, SortedKinds;
    assert Build(t, a).children == Build(t, b).children;
    assert Own(Build(t, a)) == Own(Build(t, b));
  }

  /** The children of the built node are those that the structure goes to. */
  lemma ChildrenOffer(t: Observed, required: bool, c: Candidate)
    ensures c in Forest(Build(t, required).children) <==>
      exists k :: GoesTo(t, k) && c in Preorder(Build(t.children[k], true))
  {
    hide Preorder, Machine, Display, EffectiveKind, SortedKinds, Forest;
    var node := Build(t, required);
    ForestHas(node.children, c);
    if EffectiveKind(t) == OBJECT {
      ObjectOffers(t, required, c);
    } else if EffectiveKind(t) == ARRAY && ITEM in t.children {
      var item := t.children[ITEM];
      SameOffers(item, t.sampled > 0 && item.occurrences == t.sampled, true);
      assert node.children[0] == Build(item, t.sampled > 0 && item.occurrences == t.sampled);
      assert GoesTo(t, ITEM);
    }
  }

  lemma ObjectOffers(t: Observed, required: bool, c: Candidate)
    requires EffectiveKind(t) == OBJECT
    ensures var nodes := Build(t, required).children;
      (exists i :: 0 <= i < |nodes| && c in Preorder(nodes[i])) <==>
      exists k :: GoesTo(t, k) && c in Preorder(Build(t.children[k], true))
  {
    hide Preorder, Build, Machine, Display, EffectiveKind, SortedKinds, BuildChildren;
    BuiltNode(t, required);
    var nodes, keys := Build(t, required).children, Sorted(t.children.Keys - {ITEM});
    forall i | 0 <= i < |keys| ensures GoesTo(t, keys[i]) && Preorder(nodes[i]) == Preorder(Build(t.children[keys[i]], true)) {
      assert keys[i] in keys;
      var child := t.children[keys[i]];
      BuildChildrenAt(t, keys, i);
      SameOffers(child, t.objects > 0 && child.occurrences == t.objects, true);
    }
    if k :| GoesTo(t, k) && c in Preorder(Build(t.children[k], true)) {
      assert k in keys;
      var i :| 0 <= i < |keys| && keys[i] == k;
      assert c in Preorder(nodes[i]);
    }
  }

  ghost predicate OfferedAt(t: Observed, path: seq<string>, d: Observed, c: Candidate) {
    Shows(t, path, d) && Offered(d, c)
  }

  /** The candidates of a structure are exactly those that its positions give. */
  lemma {:induction false} CandidatesExactly(t: Observed, required: bool, c: Candidate)
    requires Truthful(t)
    ensures c in Preorder(Build(t, required)) <==> exists path, d :: OfferedAt(t, path, d, c)
    decreases t
  {
    hide Offered, Own, Build, EffectiveKind, Tallied, Forest;
    OwnExactly(t, required, c);
    ChildrenOffer(t, required, c);
    forall k | k in t.children
      ensures c in Preorder(Build(t.children[k], true)) <==> exists path, d :: OfferedAt(t.children[k], path, d, c)
    {
      CandidatesExactly(t.children[k], true, c);
    }
    SplitsOffer(t, c);
  }

  lemma SplitsOffer(t: Observed, c: Candidate)
    ensures (exists path, d :: OfferedAt(t, path, d, c)) <==>
      Offered(t, c) || exists k :: GoesTo(t, k) && exists path, d :: OfferedAt(t.children[k], path, d, c)
  {
    hide Offered, EffectiveKind;
    if path, d :| OfferedAt(t, path, d, c) {
      if path != [] {
        assert OfferedAt(t.children[path[0]], path[1..], d, c);
      }
    }
    if Offered(t, c) {
      assert OfferedAt(t, [], t, c);
    }
    if k :| GoesTo(t, k) && exists path, d :: OfferedAt(t.children[k], path, d, c) {
      var path, d :| OfferedAt(t.children[k], path, d, c);
      assert ([k] + path)[1..] == path;
      assert OfferedAt(t, [k] + path, d, c);
    }
  }

  /** So are those reported for any document under any limits. */
  lemma ReportedExactly(v: Json, limits: Limits, c: Candidate)
    ensures var t := ObserveRoot(v, limits).0;
      c in Ranked(Deduped(Preorder(Build(t, true)))) <==> exists path, d :: OfferedAt(t, path, d, c)
  {
    hide Build, ObserveRoot, Truthful, Preorder, Deduped, Ranked, OfferedAt;
    var t := ObserveRoot(v, limits).0;
    NoCandidateIsSkipped(v, limits);
    ObserveRootInvariants(v, limits);
    CandidatesExactly(t, true, c);
    assert c in Ranked(Deduped(Preorder(Build(t, true)))) <==> c in multiset(Ranked(Deduped(Preorder(Build(t, true)))));
  }
}
