/** What a node keeps of the values it saw: its examples, and how many array items it looked at
    (core/metadata/json_structure.py:128-176). */
module JsonSamples {
  import opened JsonInvariants
  import opened JsonObservation
  import opened JsonPath
  import opened JsonSchema
  import opened Options
  import opened Text

  /** The examples are different scalars that were seen, at most `limit` of them; as long as there is room for more, every
      scalar that was seen is among them. */
  ghost predicate ExamplesFit(examples: seq<Json>, seen: seq<Json>, limit: int) {
    && |examples| <= (if limit > 0 then limit else 0)
    && (forall i, j :: 0 <= i < j < |examples| ==> !PyEquals(examples[i], examples[j]))
    && (forall x :: x in examples ==> x in seen && !IsContainer(x))
    && (|examples| < limit ==> forall v :: v in seen && !IsContainer(v) ==> Shown(examples, v))
  }

  ghost predicate Shown(examples: seq<Json>, v: Json) {
    exists i :: 0 <= i < |examples| && PyEquals(examples[i], v)
  }

  /** The items looked at in all visited arrays. */
  function TotalKept(vs: seq<Json>, limits: Limits): nat {
    if vs == [] then 0
    else
      var last := vs[|vs| - 1];
      TotalKept(vs[..|vs| - 1], limits) + if last.Arr? then Kept(|last.items|, limits.maxArrayItems) else 0
  }

  ghost predicate NodeSampled(t: Observed, limits: Limits) {
    t.sampled == TotalKept(t.expanded, limits) && ExamplesFit(t.examples, t.seen, limits.maxExamples)
  }

  ghost predicate Sampled(t: Observed, limits: Limits) {
    NodeSampled(t, limits) && forall k :: k in t.children ==> Sampled(t.children[k], limits)
  }

  lemma ExampleAdded(examples: seq<Json>, seen: seq<Json>, v: Json, limit: int)
    requires ExamplesFit(examples, seen, limit) && !IsContainer(v)
    ensures ExamplesFit(AddExample(examples, v, limit), seen + [v], limit)
  {
    var more := AddExample(examples, v, limit);
    assert PyEquals(v, v);
    forall w | w in seen + [v] && !IsContainer(w) && |more| < limit ensures Shown(more, w) {
      if w != v {
        assert w in seen;
        var i :| 0 <= i < |examples| && PyEquals(examples[i], w);
        assert more[i] == examples[i];
      } else if |more| > |examples| {
        assert more[|examples|] == v;
      }
    }
  }

  lemma NoteKeeps(v: Json, t: Observed, limits: Limits)
    requires Sampled(t, limits)
    ensures Sampled(Note(v, t, limits), limits)
  {
    if !IsContainer(v) {
      ExampleAdded(t.examples, t.seen, v, limits.maxExamples);
    } else {
      assert ExamplesFit(t.examples, t.seen + [v], limits.maxExamples);
    }
  }

  lemma TotalSnoc(vs: seq<Json>, v: Json, limits: Limits)
    ensures TotalKept(vs + [v], limits) == TotalKept(vs, limits) + if v.Arr? then Kept(|v.items|, limits.maxArrayItems) else 0
  {
    assert (vs + [v])[..|vs|] == vs;
  }

  lemma FreshSampled(name: string, tokens: seq<string>, limits: Limits)
    ensures Sampled(Fresh(name, tokens), limits)
  {
  }

  lemma ChildSampled(t: Observed, k: string, c: Observed, limits: Limits)
    requires Sampled(t, limits) && Sampled(c, limits)
    ensures Sampled(t.(children := t.children[k := c]), limits)
  {
    hide NodeSampled;
    var t' := t.(children := t.children[k := c]);
    assert NodeSampled(t', limits) by { SameNode(t, t', limits); }
  }

  lemma SameNode(t: Observed, t': Observed, limits: Limits)
    requires NodeSampled(t, limits) && t'.sampled == t.sampled && t'.expanded == t.expanded
    requires t'.examples == t.examples && t'.seen == t.seen
    ensures NodeSampled(t', limits)
  {
  }

  /** Every observation keeps this of every node, truncated or not. */
  lemma {:induction false} ObserveSampled(v: Json, t: Observed, depth: int, limits: Limits, b: Budget)
    requires Sampled(t, limits)
    ensures Sampled(Observe(v, t, depth, limits, b).0, limits)
    decreases v, 1, 0
  {
    hide Sampled, Note, ObserveFields, ObserveArray;
    NoteKeeps(v, t, limits);
    var t1 := Note(v, t, limits);
    if v.Obj? {
      var keep, b1 := Kept(|v.fields|, limits.maxObjectChildren), if |v.fields| > limits.maxObjectChildren then Mark(b) else b;
      ExpandedSampled(v, t1, NoteObject(v, t1), limits);
      FieldsSampled(v, keep, NoteObject(v, t1), depth, limits, b1);
    } else if v.Arr? {
      ArraySampled(v, t1, depth, limits, b);
    }
  }

  /** A visited container is counted with what is looked at in it. */
  lemma ExpandedSampled(v: Json, t: Observed, t': Observed, limits: Limits)
    requires Sampled(t, limits) && t'.children == t.children && t'.examples == t.examples && t'.seen == t.seen
    requires t'.expanded == t.expanded + [v]
    requires t'.sampled == t.sampled + if v.Arr? then Kept(|v.items|, limits.maxArrayItems) else 0
    ensures Sampled(t', limits)
  {
    hide ExamplesFit;
    TotalSnoc(t.expanded, v, limits);
  }

  lemma {:induction false} FieldsSampled(v: Json, n: nat, t: Observed, depth: int, limits: Limits, b: Budget)
    requires v.Obj? && n <= |v.fields| && Sampled(t, limits)
    ensures Sampled(ObserveFields(v, n, t, depth, limits, b).0, limits)
    decreases v, 0, n + 1
  {
    hide Sampled, ObserveField;
    if n > 0 {
      FieldsSampled(v, n - 1, t, depth, limits, b);
      var (t1, b1) := ObserveFields(v, n - 1, t, depth, limits, b);
      FieldSampled(v, n - 1, t1, depth, limits, b1);
    }
  }

  lemma KnownSampled(t: Observed, k: string, limits: Limits)
    requires Sampled(t, limits) && k in t.children
    ensures Sampled(t.children[k], limits)
  {
  }

  lemma {:induction false} FieldSampled(v: Json, i: nat, t: Observed, depth: int, limits: Limits, b: Budget)
    requires v.Obj? && i < |v.fields| && Sampled(t, limits)
    ensures Sampled(ObserveField(v, i, t, depth, limits, b).0, limits)
    decreases v, 0, 0
  {
    hide Sampled, Observe;
    var k := v.fields[i].key;
    var (child, b1) := Child(t, k, limits, b);
    if child.Some? {
      MadeSampled(t, k, limits, b);
      var (c, b2) := Observe(v.fields[i].value, child.value, depth + 1, limits, b1);
      ObserveSampled(v.fields[i].value, child.value, depth + 1, limits, b1);
      ChildSampled(t, k, c, limits);
    }
  }

  lemma MadeSampled(t: Observed, k: string, limits: Limits, b: Budget)
    requires Sampled(t, limits) && Child(t, k, limits, b).0.Some?
    ensures Sampled(Child(t, k, limits, b).0.value, limits)
  {
    hide Sampled;
    if k in t.children {
      KnownSampled(t, k, limits);
    } else {
      FreshSampled(k, t.tokens + [k], limits);
    }
  }

  lemma {:induction false} ArraySampled(v: Json, t: Observed, depth: int, limits: Limits, b: Budget)
    requires v.Arr? && Sampled(t, limits)
    ensures Sampled(ObserveArray(v, t, depth, limits, b).0, limits)
    decreases v, 0, |v.items| + 1
  {
    hide Sampled, ObserveItems;
    var keep := Kept(|v.items|, limits.maxArrayItems);
    var b1 := if |v.items| > limits.maxArrayItems then Mark(b) else b;
    var t2 := NoteArray(v, t, keep);
    ExpandedSampled(v, t, t2, limits);
    var (child, b2) := Child(t2, ITEM, limits, b1);
    if keep > 0 && child.Some? {
      MadeSampled(t2, ITEM, limits, b1);
      var (c, b3) := ObserveItems(v, keep, child.value, depth, limits, b2);
      ItemsSampled(v, keep, child.value, depth, limits, b2);
      ChildSampled(t2, ITEM, c, limits);
    }
  }

  lemma {:induction false} ItemsSampled(v: Json, n: nat, c: Observed, depth: int, limits: Limits, b: Budget)
    requires v.Arr? && n <= |v.items| && Sampled(c, limits)
    ensures Sampled(ObserveItems(v, n, c, depth, limits, b).0, limits)
    decreases v, 0, n
  {
    hide Sampled, Observe;
    if n > 0 {
      ItemsSampled(v, n - 1, c, depth, limits, b);
      var (c1, b1) := ObserveItems(v, n - 1, c, depth, limits, b);
      ObserveSampled(v.items[n - 1], c1, depth + 1, limits, b1);
    }
  }

  /** So it holds of the tree of every document. */
  lemma RootSampled(v: Json, limits: Limits)
    ensures Sampled(ObserveRoot(v, limits).0, limits)
  {
    hide Observe, Sampled;
    FreshSampled("$", [], limits);
    ObserveSampled(v, Root(), 0, limits, Budget(1, false));
  }

  // ---- the built node ----------------------------------------------------------------------------------------

  /** What the structure model says about a position, in terms of the values seen there. */
  lemma NodeSays(t: Observed, required: bool, limits: Limits)
    requires Truthful(t) && Sampled(t, limits)
    ensures var node := Build(t, required);
      && node.name == t.name && node.required == required && node.occurrences == |t.seen|
      && (node.nullable <==> Null in t.seen || node.kind == NULL)
      && (node.kind == NULL <==> forall v :: v in t.seen ==> v == Null)
      && (node.kind == UNION ==> forall kind :: kind in node.kinds <==> kind != NULL && exists v :: v in t.seen && KindOf(v) == kind)
      && (node.kind != UNION ==> node.kinds == [])
      && (node.kind == ARRAY ==>
            && IsMinItems(t.expanded, node.minItems) && IsMaxItems(t.expanded, node.maxItems)
            && node.sampled == Some(TotalKept(t.expanded, limits)))
      && (node.kind != ARRAY ==> node.minItems == None && node.maxItems == None && node.sampled == None && node.itemKind == None)
      && (node.kind in {OBJECT, ARRAY} ==> node.examples == [])
      && (node.kind !in {OBJECT, ARRAY} ==> ExamplesFit(node.examples, t.seen, limits.maxExamples))
  {
    hide Truthful, Machine, Display, SortedKinds, BuildChildren, Sorted, ExamplesFit, IsMinItems, IsMaxItems, TotalKept;
    TruthfulTally(t);
    CountPositive(t.seen, NULL);
    NullIs(t.seen);
    KindsSay(t);
  }

  lemma TruthfulTally(t: Observed)
    requires Truthful(t)
    ensures Tallied(t)
  {
  }

  lemma NullIs(vs: seq<Json>)
    ensures (exists v :: v in vs && KindOf(v) == NULL) <==> Null in vs
  {
  }

  lemma KindsSay(t: Observed)
    requires KindsAre(t.seen, t.kinds)
    ensures EffectiveKind(t) == NULL <==> forall v :: v in t.seen ==> v == Null
    ensures forall kind :: kind in SortedKinds(t.kinds - {NULL}) <==> kind != NULL && exists v :: v in t.seen && KindOf(v) == kind
  {
    var sorted := SortedKinds(t.kinds - {NULL});
    SortedKindsMembers(t.kinds - {NULL});
    hide SortedKinds;
    if sorted == [] {
      forall v | v in t.seen ensures v == Null {
        assert KindOf(v) !in sorted;
      }
    } else {
      assert sorted[0] in sorted;
      var v :| v in t.seen && KindOf(v) == sorted[0];
    }
  }
}
