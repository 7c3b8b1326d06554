/** The statistics of a structure model: a stack walk that equals the recursive count
    (core/metadata/json_structure.py), and stays within the inference budget. */
module JsonStats {
  import opened JsonBudget
  import opened JsonObservation
  import opened JsonPath
  import opened JsonSchema
  import opened Text

  datatype Stats = Stats(total: nat, objects: nat, arrays: nat, scalars: nat, unions: nat, maxDepth: nat)

  const ZERO := Stats(0, 0, 0, 0, 0, 0)

  function Max(a: nat, b: nat): nat {
    if a > b then a else b
  }

  function Add(a: Stats, b: Stats): Stats {
    Stats(a.total + b.total, a.objects + b.objects, a.arrays + b.arrays, a.scalars + b.scalars,
          a.unions + b.unions, Max(a.maxDepth, b.maxDepth))
  }

  /** One node on its own, met at the given depth. */
  function Single(kind: Kind, depth: nat): Stats {
    Stats(1, if kind == OBJECT then 1 else 0, if kind == ARRAY then 1 else 0,
          if IsScalar(kind) then 1 else 0, if kind == UNION then 1 else 0, depth)
  }

  /** The counts of a whole subtree. */
  function Tally(node: StructureNode, depth: nat): Stats
    decreases node, |node.children| + 1
  {
    Add(Single(node.kind, depth), TallyChildren(node, |node.children|, depth + 1))
  }

  function TallyChildren(node: StructureNode, n: nat, depth: nat): Stats
    requires n <= |node.children|
    decreases node, n
  {
    if n == 0 then ZERO
    else Add(TallyChildren(node, n - 1, depth), Tally(node.children[n - 1], depth))
  }

  datatype Entry = Entry(node: StructureNode, depth: nat)

  function Pending(stack: seq<Entry>): Stats {
    if stack == [] then ZERO
    else Add(Pending(stack[..|stack| - 1]), Tally(stack[|stack| - 1].node, stack[|stack| - 1].depth))
  }

  lemma PendingPush(stack: seq<Entry>, e: Entry)
    ensures Pending(stack + [e]) == Add(Pending(stack), Tally(e.node, e.depth))
  {
    assert (stack + [e])[..|stack|] == stack;
  }

  lemma AddLaws(a: Stats, b: Stats, c: Stats)
    ensures Add(Add(a, b), c) == Add(a, Add(b, c))
    ensures Add(a, b) == Add(b, a) && Add(a, ZERO) == a
  {
  }

  /** Pushes the children in reverse, so that the first is popped first. */
  method PushChildren(stack: seq<Entry>, node: StructureNode, depth: nat) returns (pushed: seq<Entry>)
    ensures Pending(pushed) == Add(Pending(stack), TallyChildren(node, |node.children|, depth))
  {
    hide Add;
    pushed := stack;
    var i := |node.children|;
    while i > 0
      invariant 0 <= i <= |node.children|
      invariant Add(Pending(pushed), TallyChildren(node, i, depth))
             == Add(Pending(stack), TallyChildren(node, |node.children|, depth))
    {
      i := i - 1;
      ghost var earlier, child := TallyChildren(node, i, depth), Tally(node.children[i], depth);
      PendingPush(pushed, Entry(node.children[i], depth));
      AddLaws(Pending(pushed), child, earlier);
      AddLaws(earlier, child, ZERO);
      pushed := pushed + [Entry(node.children[i], depth)];
    }
    AddLaws(Pending(pushed), ZERO, ZERO);
  }

  /** `_build_structure_stats`: pops a node, counts it, pushes its children. */
  method BuildStats(root: StructureNode) returns (stats: Stats)
    ensures stats == Tally(root, 0) && Counts(stats, AllEntries(root, 0))
  {
    hide TallyChildren, Single, Counts, AllEntries;
    TallyExactly(root, 0);
    stats := ZERO;
    var stack := [Entry(root, 0)];
    PendingPush([], Entry(root, 0));
    assert [] + [Entry(root, 0)] == stack;
    while stack != []
      invariant Add(stats, Pending(stack)) == Tally(root, 0)
      decreases Pending(stack).total
    {
      var top := stack[|stack| - 1];
      stack := stack[..|stack| - 1];
      ghost var below, own := Pending(stack), Single(top.node.kind, top.depth);
      ghost var kids := TallyChildren(top.node, |top.node.children|, top.depth + 1);
      StepLaw(stats, below, own, kids);
      OneNode(top.node.kind, top.depth);
      stats := Add(stats, Single(top.node.kind, top.depth));
      stack := PushChildren(stack, top.node, top.depth + 1);
    }
  }

  lemma OneNode(kind: Kind, depth: nat)
    ensures Single(kind, depth).total == 1
  {
  }

  lemma StepLaw(stats: Stats, below: Stats, own: Stats, kids: Stats)
    ensures Add(stats, Add(below, Add(own, kids))) == Add(Add(stats, own), Add(below, kids))
  {
  }

  // ---- what is counted ----------------------------------------------------------------------

  /** All nodes of a subtree with their depths. */
  function AllEntries(node: StructureNode, depth: nat): seq<Entry>
    decreases node, |node.children| + 1
  {
    [Entry(node, depth)] + ChildEntries(node, |node.children|, depth + 1)
  }

  function ChildEntries(node: StructureNode, n: nat, depth: nat): seq<Entry>
    requires n <= |node.children|
    decreases node, n
  {
    if n == 0 then [] else ChildEntries(node, n - 1, depth) + AllEntries(node.children[n - 1], depth)
  }

  /** How many of the nodes are of one of the kinds. */
  function OfKind(es: seq<Entry>, kinds: set<Kind>): nat {
    if es == [] then 0 else OfKind(es[..|es| - 1], kinds) + if es[|es| - 1].node.kind in kinds then 1 else 0
  }

  lemma {:induction false} OfKindAppend(a: seq<Entry>, b: seq<Entry>, kinds: set<Kind>)
    ensures OfKind(a + b, kinds) == OfKind(a, kinds) + OfKind(b, kinds)
  {
    if b == [] {
      assert a + b == a;
    } else {
      OfKindAppend(a, b[..|b| - 1], kinds);
      assert (a + b)[..|a + b| - 1] == a + b[..|b| - 1];
    }
  }

  const SCALAR_KINDS := {STRING, INTEGER, NUMBER, BOOLEAN, NULL, UNKNOWN}

  /** The figures are the numbers of nodes of each kind, and the depth is the largest. */
  ghost predicate Counts(s: Stats, es: seq<Entry>) {
    && s.total == |es|
    && s.objects == OfKind(es, {OBJECT}) && s.arrays == OfKind(es, {ARRAY}) && s.unions == OfKind(es, {UNION})
    && s.scalars == OfKind(es, SCALAR_KINDS)
    && (forall e :: e in es ==> e.depth <= s.maxDepth)
    && (if es == [] then s.maxDepth == 0 else exists e :: e in es && e.depth == s.maxDepth)
  }

  lemma CountsAppend(s: Stats, a: seq<Entry>, t: Stats, b: seq<Entry>)
    requires Counts(s, a) && Counts(t, b)
    ensures Counts(Add(s, t), a + b)
  {
    OfKindAppend(a, b, {OBJECT});
    OfKindAppend(a, b, {ARRAY});
    OfKindAppend(a, b, {UNION});
    OfKindAppend(a, b, SCALAR_KINDS);
    hide OfKind;
    if a != [] {
      var e :| e in a && e.depth == s.maxDepth;
      assert e in a + b;
    }
    if b != [] {
      var e :| e in b && e.depth == t.maxDepth;
      assert e in a + b;
    }
  }

  lemma CountsOne(node: StructureNode, depth: nat)
    ensures Counts(Single(node.kind, depth), [Entry(node, depth)]) && Counts(ZERO, [])
  {
    var es := [Entry(node, depth)];
    assert es[..0] == [] && es[0] in es;
    assert forall kinds :: OfKind(es, kinds) == if node.kind in kinds then 1 else 0;
  }

  lemma {:induction false} TallyExactly(node: StructureNode, depth: nat)
    ensures Counts(Tally(node, depth), AllEntries(node, depth))
    decreases node, |node.children| + 1
  {
    hide Counts, Single, Add, TallyChildren, ChildEntries;
    CountsOne(node, depth);
    ChildrenExactly(node, |node.children|, depth + 1);
    CountsAppend(Single(node.kind, depth), [Entry(node, depth)],
                 TallyChildren(node, |node.children|, depth + 1), ChildEntries(node, |node.children|, depth + 1));
  }

  lemma {:induction false} ChildrenExactly(node: StructureNode, n: nat, depth: nat)
    requires n <= |node.children|
    ensures Counts(TallyChildren(node, n, depth), ChildEntries(node, n, depth))
    decreases node, n
  {
    hide Counts, Add, Tally, AllEntries;
    if n == 0 {
      CountsOne(node, depth);
    } else {
      ChildrenExactly(node, n - 1, depth);
      TallyExactly(node.children[n - 1], depth);
      CountsAppend(TallyChildren(node, n - 1, depth), ChildEntries(node, n - 1, depth),
                   Tally(node.children[n - 1], depth), AllEntries(node.children[n - 1], depth));
    }
  }

  // ---- the statistics of an inferred document ------------------------------------------

  lemma {:induction false} SubsetSum(t: Observed, keys: set<string>, more: set<string>)
    requires keys <= more <= t.children.Keys
    ensures SumSizes(t, keys) <= SumSizes(t, more)
    decreases |more|
  {
    if keys != more {
      var k :| k in more && k !in keys;
      SumPull(t, more, k);
      SubsetSum(t, keys, more - {k});
    }
  }

  ghost function Firsts(keys: seq<string>, n: nat): set<string>
    requires n <= |keys|
  {
    set i | 0 <= i < n :: keys[i]
  }

  lemma BuiltShape(t: Observed, required: bool)
    ensures var node := Build(t, required);
      && node.kind == EffectiveKind(t)
      && node.children ==
           if EffectiveKind(t) == OBJECT then BuildChildren(t, Sorted(t.children.Keys - {ITEM}))
           else if EffectiveKind(t) == ARRAY && ITEM in t.children
           then [Build(t.children[ITEM], ItemRequired(t))]
           else []
  {
  }

  lemma {:induction false} BuiltTotal(t: Observed, required: bool, depth: nat, room: int)
    requires Fits(t, room)
    ensures Tally(Build(t, required), depth).total <= Size(t)
    ensures Tally(Build(t, required), depth).maxDepth <= depth + if room > 0 then room else 0
    decreases t
  {
    BuiltShape(t, required);
    hide Build, BuildChildren, EffectiveKind, SumSizes;
    if EffectiveKind(t) == OBJECT {
      ObjectTotal(t, Build(t, required), depth + 1, room);
    } else if EffectiveKind(t) == ARRAY && ITEM in t.children {
      ItemTotal(t, Build(t, required), depth + 1, room);
    }
  }

  lemma {:induction false} ObjectTotal(t: Observed, node: StructureNode, depth: nat, room: int)
    requires Fits(t, room) && depth > 0
    requires node.children == BuildChildren(t, Sorted(t.children.Keys - {ITEM}))
    ensures TallyChildren(node, |node.children|, depth).total < Size(t)
    ensures TallyChildren(node, |node.children|, depth).maxDepth <= depth - 1 + if room > 0 then room else 0
    decreases t, |node.children| + 1
  {
    hide Build, BuildChildren, TallyChildren, SumSizes, Ascending;
    var keys := Sorted(t.children.Keys - {ITEM});
    BuiltChildrenTotal(t, node, keys, |keys|, depth, room);
    SubsetSum(t, Firsts(keys, |keys|), t.children.Keys);
  }

  lemma {:induction false} ItemTotal(t: Observed, node: StructureNode, depth: nat, room: int)
    requires Fits(t, room) && depth > 0 && ITEM in t.children
    requires node.children == [Build(t.children[ITEM], ItemRequired(t))]
    ensures TallyChildren(node, 1, depth).total < Size(t)
    ensures TallyChildren(node, 1, depth).maxDepth <= depth - 1 + if room > 0 then room else 0
    decreases t, 0
  {
    hide Build, SumSizes;
    BuiltTotal(t.children[ITEM], ItemRequired(t), depth, room - 1);
    SumPull(t, t.children.Keys, ITEM);
    hide Size, Tally;
    assert TallyChildren(node, 0, depth) == ZERO;
  }

  lemma {:induction false} BuiltChildrenTotal(t: Observed, node: StructureNode, keys: seq<string>, n: nat, depth: nat, room: int)
    requires Fits(t, room) && depth > 0
    requires (forall k :: k in keys ==> k in t.children) && Ascending(keys) && n <= |keys|
    requires node.children == BuildChildren(t, keys)
    ensures TallyChildren(node, n, depth).total <= SumSizes(t, Firsts(keys, n))
    ensures TallyChildren(node, n, depth).maxDepth <= depth - 1 + if room > 0 then room else 0
    decreases t, n
  {
    hide Build, Leq, Size, SumSizes, Tally, BuildChildren;
    if n > 0 {
      BuiltChildrenTotal(t, node, keys, n - 1, depth, room);
      var k := keys[n - 1];
      assert k in keys;
      BuildChildrenAt(t, keys, n - 1);
      BuiltTotal(t.children[k], t.objects > 0 && t.children[k].occurrences == t.objects, depth, room - 1);
      assert Firsts(keys, n) - {k} == Firsts(keys, n - 1);
      SumPull(t, Firsts(keys, n), k);
    }
  }

  /** The reported totals never exceed the budget the inference was given. */
  lemma StatsWithinBudget(v: Json, limits: Limits)
    ensures var (t, b) := ObserveRoot(v, limits);
      var stats := Tally(Build(t, true), 0);
      && stats.total <= b.created
      && stats.total <= Max(1, if limits.maxTotalNodes > 0 then limits.maxTotalNodes else 0)
      && stats.maxDepth <= if limits.maxDepth > 0 then limits.maxDepth else 0
  {
    WithinBudget(v, limits);
    BuiltTotal(ObserveRoot(v, limits).0, true, 0, limits.maxDepth);
  }
}
