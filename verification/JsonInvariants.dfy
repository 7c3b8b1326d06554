/** What every observation keeps true of the tree it builds: counters agree with the values
    shown, nothing is recorded that was not there, and, as long as nothing was truncated,
    nothing is missing either. */
module JsonInvariants {
  import opened JsonObservation
  import opened JsonPath
  import opened Options

  // ---- the values below a value ------------------------------------------------

  function Width(v: Json): nat {
    if v.Obj? then |v.fields| else if v.Arr? then |v.items| else 0
  }

  /** The values under token `k` among the first `n` fields of an object. */
  function FieldValues(v: Json, n: nat, k: string): seq<Json>
    requires v.Obj? && n <= |v.fields|
  {
    if n == 0 then []
    else FieldValues(v, n - 1, k) + (if v.fields[n - 1].key == k then [v.fields[n - 1].value] else [])
  }

  /** The values under token `k` among the first `n` entries of a value. */
  function Part(v: Json, n: nat, k: string): seq<Json>
    requires n <= Width(v)
  {
    if v.Obj? then FieldValues(v, n, k)
    else if v.Arr? && k == ITEM then v.items[..n]
    else []
  }

  function Below(v: Json, k: string): seq<Json> {
    Part(v, Width(v), k)
  }

  /** The values under token `k` of every value in `vs`, in order. */
  function Gathered(vs: seq<Json>, k: string): seq<Json> {
    if vs == [] then [] else Gathered(vs[..|vs| - 1], k) + Below(vs[|vs| - 1], k)
  }

  lemma GatheredSnoc(vs: seq<Json>, v: Json, k: string)
    ensures Gathered(vs + [v], k) == Gathered(vs, k) + Below(v, k)
  {
    assert (vs + [v])[..|vs|] == vs;
  }

  lemma {:induction false} PartGrows(v: Json, n: nat, m: nat, k: string)
    requires n <= m <= Width(v)
    ensures multiset(Part(v, n, k)) <= multiset(Part(v, m, k))
    decreases m
  {
    hide Part;
    if n < m {
      PartGrows(v, n, m - 1, k);
      PartStep(v, m, k);
    }
  }

  lemma PartStep(v: Json, m: nat, k: string)
    requires 0 < m <= Width(v)
    ensures multiset(Part(v, m - 1, k)) <= multiset(Part(v, m, k))
  {
    if v.Arr? && k == ITEM {
      assert v.items[..m] == v.items[..m - 1] + [v.items[m - 1]];
    }
  }

  function Containers(vs: seq<Json>): seq<Json> {
    if vs == [] then []
    else Containers(vs[..|vs| - 1]) + (if IsContainer(vs[|vs| - 1]) then [vs[|vs| - 1]] else [])
  }

  lemma ContainersSnoc(vs: seq<Json>, v: Json)
    ensures Containers(vs + [v]) == Containers(vs) + if IsContainer(v) then [v] else []
  {
    assert (vs + [v])[..|vs|] == vs;
  }

  function Count(vs: seq<Json>, kind: Kind): nat {
    if vs == [] then 0
    else Count(vs[..|vs| - 1], kind) + if KindOf(vs[|vs| - 1]) == kind then 1 else 0
  }

  lemma CountSnoc(vs: seq<Json>, v: Json, kind: Kind)
    ensures Count(vs + [v], kind) == Count(vs, kind) + if KindOf(v) == kind then 1 else 0
  {
    assert (vs + [v])[..|vs|] == vs;
  }

  // ---- counters ------------------------------------------------------------------

  ghost predicate IsMinItems(vs: seq<Json>, m: Option<nat>) {
    && (m.None? ==> forall v :: v in vs ==> !v.Arr?)
    && (m.Some? ==>
          && (exists v :: v in vs && v.Arr? && |v.items| == m.value)
          && forall v :: v in vs && v.Arr? ==> m.value <= |v.items|)
  }

  ghost predicate IsMaxItems(vs: seq<Json>, m: Option<nat>) {
    && (m.None? ==> forall v :: v in vs ==> !v.Arr?)
    && (m.Some? ==>
          && (exists v :: v in vs && v.Arr? && |v.items| == m.value)
          && forall v :: v in vs && v.Arr? ==> |v.items| <= m.value)
  }

  ghost predicate KindsAre(vs: seq<Json>, kinds: set<Kind>) {
    && (forall v :: v in vs ==> KindOf(v) in kinds)
    && forall kind :: kind in kinds ==> exists v :: v in vs && KindOf(v) == kind
  }

  /** The counters of one node describe the values shown to it. */
  ghost predicate Tallied(t: Observed) {
    && t.occurrences == |t.seen|
    && t.nulls == Count(t.seen, NULL)
    && KindsAre(t.seen, t.kinds)
    && t.objects == Count(t.expanded, OBJECT)
    && t.arrays == Count(t.expanded, ARRAY)
    && IsMinItems(t.expanded, t.minItems)
    && IsMaxItems(t.expanded, t.maxItems)
    && (forall v :: v in t.expanded ==> v in t.seen && IsContainer(v))
    && (forall v :: v in t.examples ==> v in t.seen && !IsContainer(v))
  }

  ghost predicate Named(c: Observed, tokens: seq<string>, k: string) {
    c.name == k && c.tokens == tokens + [k]
  }

  /** Always true: each child saw only values that an expanded container really holds. */
  ghost predicate Truthful(t: Observed) {
    && Tallied(t)
    && forall k :: k in t.children ==>
         && Named(t.children[k], t.tokens, k)
         && multiset(t.children[k].seen) <= multiset(Gathered(t.expanded, k))
         && Truthful(t.children[k])
  }

  /** True without truncation: each child saw all of them, in order. */
  ghost predicate Complete(t: Observed) {
    && t.expanded == Containers(t.seen)
    && (forall k :: k in t.children <==> Gathered(t.seen, k) != [])
    && forall k :: k in t.children ==>
         && t.children[k].seen == Gathered(t.seen, k)
         && Complete(t.children[k])
  }

  // ---- invariants while a container is being visited ---------------------------------

  /** What token `k` has to show once the first `n` entries of `v` are visited, after `prior`. */
  function Expected(prior: seq<Json>, v: Json, n: nat, k: string): seq<Json>
    requires n <= Width(v)
  {
    Gathered(prior, k) + Part(v, n, k)
  }

  /** Going from `n` to `m` entries adds the values `more` under `key`, and nothing elsewhere. */
  ghost predicate Advances(prior: seq<Json>, v: Json, n: nat, m: nat, key: string, more: seq<Json>)
    requires n <= Width(v) && m <= Width(v)
  {
    forall k :: Expected(prior, v, m, k) == Expected(prior, v, n, k) + if k == key then more else []
  }

  lemma FieldAdvances(prior: seq<Json>, v: Json, n: nat)
    requires v.Obj? && 0 < n <= |v.fields|
    ensures Advances(prior, v, n - 1, n, v.fields[n - 1].key, [v.fields[n - 1].value])
  {
  }

  lemma ItemsAdvance(prior: seq<Json>, v: Json, n: nat)
    requires v.Arr? && n <= |v.items|
    ensures Advances(prior, v, 0, n, ITEM, v.items[..n])
  {
  }

  lemma ExpectedGrows(prior: seq<Json>, v: Json, n: nat, m: nat, k: string)
    requires n <= m <= Width(v)
    ensures multiset(Expected(prior, v, n, k)) <= multiset(Expected(prior, v, m, k))
  {
    PartGrows(v, n, m, k);
  }

  lemma WithinAppend(a: seq<Json>, b: seq<Json>, x: seq<Json>)
    requires multiset(a) <= multiset(b)
    ensures multiset(a + x) <= multiset(b + x)
  {
  }

  ghost predicate Within(c: Observed, tokens: seq<string>, k: string, values: seq<Json>) {
    Named(c, tokens, k) && multiset(c.seen) <= multiset(values) && Truthful(c)
  }

  /** The children while the first `n` entries of `v` have been visited, after the values `prior`. */
  ghost predicate TruthfulUpTo(children: map<string, Observed>, tokens: seq<string>,
                               prior: seq<Json>, v: Json, n: nat)
    requires n <= Width(v)
  {
    forall k :: k in children ==> Within(children[k], tokens, k, Expected(prior, v, n, k))
  }

  ghost predicate CompleteUpTo(children: map<string, Observed>, prior: seq<Json>, v: Json, n: nat)
    requires n <= Width(v)
  {
    && (forall k :: k in children <==> Expected(prior, v, n, k) != [])
    && forall k :: k in children ==>
         && children[k].seen == Expected(prior, v, n, k)
         && Complete(children[k])
  }

  lemma TruthfulStart(t: Observed, v: Json)
    requires Truthful(t)
    ensures TruthfulUpTo(t.children, t.tokens, t.expanded, v, 0)
  {
    hide Tallied, Gathered;
    forall k | k in t.children ensures Expected(t.expanded, v, 0, k) == Gathered(t.expanded, k) {
    }
  }

  lemma TruthfulFinish(t: Observed, prior: seq<Json>, v: Json, n: nat)
    requires n <= Width(v) && Tallied(t) && t.expanded == prior + [v]
    requires TruthfulUpTo(t.children, t.tokens, prior, v, n)
    ensures Truthful(t)
  {
    forall k | k in t.children
      ensures multiset(t.children[k].seen) <= multiset(Gathered(t.expanded, k))
    {
      GatheredSnoc(prior, v, k);
      ExpectedGrows(prior, v, n, Width(v), k);
      assert Within(t.children[k], t.tokens, k, Expected(prior, v, n, k));
    }
  }

  lemma CompleteStart(t: Observed, v: Json)
    requires Complete(t)
    ensures CompleteUpTo(t.children, t.seen, v, 0)
  {
    forall k ensures Expected(t.seen, v, 0, k) == Gathered(t.seen, k) {
    }
  }

  lemma CompleteFinish(t: Observed, prior: seq<Json>, v: Json)
    requires t.seen == prior + [v] && t.expanded == Containers(prior) + [v] && IsContainer(v)
    requires CompleteUpTo(t.children, prior, v, Width(v))
    ensures Complete(t)
  {
    ContainersSnoc(prior, v);
    forall k ensures Gathered(t.seen, k) == Expected(prior, v, Width(v), k) {
      GatheredSnoc(prior, v, k);
    }
  }

  lemma TalliedIgnoresChildren(t: Observed, children: map<string, Observed>)
    requires Tallied(t)
    ensures Tallied(t.(children := children))
  {
  }

  // ---- bookkeeping keeps the counters right -----------------------------------------

  lemma AddExampleFrom(examples: seq<Json>, v: Json, limit: int)
    ensures forall e :: e in AddExample(examples, v, limit) ==> e in examples || e == v
  {
  }

  lemma NoteTallied(v: Json, t: Observed, limits: Limits)
    requires Tallied(t)
    ensures Tallied(Note(v, t, limits))
  {
    CountSnoc(t.seen, v, NULL);
    AddExampleFrom(t.examples, v, limits.maxExamples);
    var kinds := t.kinds + {KindOf(v)};
    forall kind | kind in kinds ensures exists w :: w in t.seen + [v] && KindOf(w) == kind {
      if kind == KindOf(v) {
        assert v in t.seen + [v];
      } else {
        var w :| w in t.seen && KindOf(w) == kind;
        assert w in t.seen + [v];
      }
    }
  }

  lemma MinItemsSnoc(vs: seq<Json>, m: Option<nat>, v: Json)
    requires IsMinItems(vs, m)
    ensures IsMinItems(vs + [v], if v.Arr? then Some(LeastItems(m, |v.items|)) else m)
  {
    var n := if v.Arr? then Some(LeastItems(m, |v.items|)) else m;
    if m.Some? {
      var w :| w in vs && w.Arr? && |w.items| == m.value;
      assert w in vs + [v];
    }
    assert v in vs + [v];
    assert n.Some? ==> exists w :: w in vs + [v] && w.Arr? && |w.items| == n.value;
  }

  lemma MaxItemsSnoc(vs: seq<Json>, m: Option<nat>, v: Json)
    requires IsMaxItems(vs, m)
    ensures IsMaxItems(vs + [v], if v.Arr? then Some(MostItems(m, |v.items|)) else m)
  {
    var n := if v.Arr? then Some(MostItems(m, |v.items|)) else m;
    if m.Some? {
      var w :| w in vs && w.Arr? && |w.items| == m.value;
      assert w in vs + [v];
    }
    assert v in vs + [v];
    assert n.Some? ==> exists w :: w in vs + [v] && w.Arr? && |w.items| == n.value;
  }

  lemma ExpandTallied(v: Json, t: Observed, t': Observed)
    requires Tallied(t) && v in t.seen && IsContainer(v)
    requires t'.expanded == t.expanded + [v]
    requires t' == t.(objects := t'.objects, arrays := t'.arrays, minItems := t'.minItems,
                      maxItems := t'.maxItems, sampled := t'.sampled, expanded := t'.expanded)
    requires t'.objects == t.objects + if v.Obj? then 1 else 0
    requires t'.arrays == t.arrays + if v.Arr? then 1 else 0
    requires t'.minItems == if v.Arr? then Some(LeastItems(t.minItems, |v.items|)) else t.minItems
    requires t'.maxItems == if v.Arr? then Some(MostItems(t.maxItems, |v.items|)) else t.maxItems
    ensures Tallied(t')
  {
    CountSnoc(t.expanded, v, OBJECT);
    CountSnoc(t.expanded, v, ARRAY);
    MinItemsSnoc(t.expanded, t.minItems, v);
    MaxItemsSnoc(t.expanded, t.maxItems, v);
  }

  lemma FreshInvariants(name: string, tokens: seq<string>)
    ensures Truthful(Fresh(name, tokens)) && Complete(Fresh(name, tokens))
  {
  }

  // ---- every run keeps Truthful -----------------------------------------------------

  /** Observation appends the value to the node's history and leaves its name alone. */
  lemma {:induction false} ObserveRecords(v: Json, t: Observed, depth: int, limits: Limits, b: Budget)
    ensures var r := Observe(v, t, depth, limits, b);
      r.0.seen == t.seen + [v] && r.0.name == t.name && r.0.tokens == t.tokens
    decreases v, 1, 0
  {
    if v.Obj? && depth < limits.maxDepth {
      var b1 := if |v.fields| > limits.maxObjectChildren then Mark(b) else b;
      FieldsRecord(v, Kept(|v.fields|, limits.maxObjectChildren), NoteObject(v, Note(v, t, limits)), depth, limits, b1);
    }
  }

  lemma {:induction false} FieldsRecord(v: Json, n: nat, t: Observed, depth: int, limits: Limits, b: Budget)
    requires v.Obj? && n <= |v.fields|
    ensures var r := ObserveFields(v, n, t, depth, limits, b);
      r.0 == t.(children := r.0.children)
    decreases v, 0, n
  {
    if n > 0 { FieldsRecord(v, n - 1, t, depth, limits, b); }
  }

  lemma {:induction false} ItemsRecord(v: Json, n: nat, c: Observed, depth: int, limits: Limits, b: Budget)
    requires v.Arr? && n <= |v.items|
    ensures var r := ObserveItems(v, n, c, depth, limits, b);
      r.0.seen == c.seen + v.items[..n] && r.0.name == c.name && r.0.tokens == c.tokens
    decreases v, 0, n
  {
    if n > 0 {
      ItemsRecord(v, n - 1, c, depth, limits, b);
      var (c1, b1) := ObserveItems(v, n - 1, c, depth, limits, b);
      ObserveRecords(v.items[n - 1], c1, depth + 1, limits, b1);
      assert v.items[..n] == v.items[..n - 1] + [v.items[n - 1]];
    }
  }

  lemma {:induction false} ObserveTruthful(v: Json, t: Observed, depth: int, limits: Limits, b: Budget)
    requires Truthful(t)
    ensures Truthful(Observe(v, t, depth, limits, b).0)
    decreases v, 1, 0
  {
    var t1 := Note(v, t, limits);
    NoteTallied(v, t, limits);
    if IsContainer(v) && depth < limits.maxDepth {
      assert v in t1.seen;
      TruthfulStart(t, v);
      if v.Obj? {
        ObjectTruthful(v, t, depth, limits, b);
      } else {
        ArrayTruthful(v, t, depth, limits, b);
      }
    }
  }

  lemma {:induction false} ObjectTruthful(v: Json, t: Observed, depth: int, limits: Limits, b: Budget)
    requires Tallied(Note(v, t, limits)) && TruthfulUpTo(t.children, t.tokens, t.expanded, v, 0)
    requires v.Obj?
    ensures Truthful(ObserveObject(v, Note(v, t, limits), depth, limits, b).0)
    decreases v, 0, |v.fields| + 1
  {
    hide Tallied;
    var t2 := NoteObject(v, Note(v, t, limits));
    var keep := Kept(|v.fields|, limits.maxObjectChildren);
    var b1 := if |v.fields| > limits.maxObjectChildren then Mark(b) else b;
    var r := ObserveFields(v, keep, t2, depth, limits, b1).0;
    ExpandTallied(v, Note(v, t, limits), t2);
    FieldsTruthful(v, keep, t2, t.expanded, depth, limits, b1);
    FieldsRecord(v, keep, t2, depth, limits, b1);
    TalliedIgnoresChildren(t2, r.children);
    TruthfulFinish(r, t.expanded, v, keep);
  }

  lemma {:induction false} FieldsTruthful(v: Json, n: nat, t: Observed, prior: seq<Json>,
                                          depth: int, limits: Limits, b: Budget)
    requires v.Obj? && n <= |v.fields| && TruthfulUpTo(t.children, t.tokens, prior, v, 0)
    ensures TruthfulUpTo(ObserveFields(v, n, t, depth, limits, b).0.children, t.tokens, prior, v, n)
    decreases v, 0, n
  {
    hide Tallied, Truthful;
    if n > 0 {
      FieldsTruthful(v, n - 1, t, prior, depth, limits, b);
      FieldsRecord(v, n - 1, t, depth, limits, b);
      var (t1, b1) := ObserveFields(v, n - 1, t, depth, limits, b);
      FieldTruthful(v, n, t1, prior, depth, limits, b1);
    }
  }

  lemma {:induction false} FieldTruthful(v: Json, n: nat, t: Observed, prior: seq<Json>,
                                         depth: int, limits: Limits, b: Budget)
    requires v.Obj? && 0 < n <= |v.fields| && TruthfulUpTo(t.children, t.tokens, prior, v, n - 1)
    ensures TruthfulUpTo(ObserveField(v, n - 1, t, depth, limits, b).0.children, t.tokens, prior, v, n)
    decreases v, 0, 0
  {
    hide Truthful, Expected;
    var f := v.fields[n - 1];
    var (child, b1) := Child(t, f.key, limits, b);
    if child.Some? {
      FreshInvariants(f.key, t.tokens + [f.key]);
      ObserveTruthful(f.value, child.value, depth + 1, limits, b1);
      ObserveRecords(f.value, child.value, depth + 1, limits, b1);
      FieldAdvances(prior, v, n);
      TruthfulUpdate(t.children, t.tokens, prior, v, n - 1, n, f.key, [f.value],
                     Observe(f.value, child.value, depth + 1, limits, b1).0);
    } else {
      TruthfulGrow(t.children, t.tokens, prior, v, n - 1, n);
    }
  }

  lemma TruthfulGrow(children: map<string, Observed>, tokens: seq<string>,
                     prior: seq<Json>, v: Json, n: nat, m: nat)
    requires n <= m <= Width(v) && TruthfulUpTo(children, tokens, prior, v, n)
    ensures TruthfulUpTo(children, tokens, prior, v, m)
  {
    forall k | k in children ensures Within(children[k], tokens, k, Expected(prior, v, m, k)) {
      ExpectedGrows(prior, v, n, m, k);
    }
  }

  lemma TruthfulUpdate(children: map<string, Observed>, tokens: seq<string>, prior: seq<Json>, v: Json,
                       n: nat, m: nat, key: string, more: seq<Json>, after: Observed)
    requires n <= m <= Width(v) && TruthfulUpTo(children, tokens, prior, v, n)
    requires Advances(prior, v, n, m, key, more)
    requires after.seen == (if key in children then children[key].seen else []) + more
    requires Named(after, tokens, key) && Truthful(after)
    ensures TruthfulUpTo(children[key := after], tokens, prior, v, m)
  {
    TruthfulGrow(children, tokens, prior, v, n, m);
    var before := if key in children then children[key].seen else [];
    assert multiset(before) <= multiset(Expected(prior, v, n, key));
    WithinAppend(before, Expected(prior, v, n, key), more);
    assert Within(after, tokens, key, Expected(prior, v, m, key));
  }

  lemma {:induction false} ArrayTruthful(v: Json, t: Observed, depth: int, limits: Limits, b: Budget)
    requires Tallied(Note(v, t, limits)) && TruthfulUpTo(t.children, t.tokens, t.expanded, v, 0)
    requires v.Arr?
    ensures Truthful(ObserveArray(v, Note(v, t, limits), depth, limits, b).0)
    decreases v, 0, |v.items| + 1
  {
    hide Tallied;
    var keep := Kept(|v.items|, limits.maxArrayItems);
    var b1 := if |v.items| > limits.maxArrayItems then Mark(b) else b;
    var t2 := NoteArray(v, Note(v, t, limits), keep);
    ExpandTallied(v, Note(v, t, limits), t2);
    var (child, b2) := Child(t2, ITEM, limits, b1);
    if keep == 0 || child.None? {
      TruthfulFinish(t2, t.expanded, v, 0);
    } else {
      FreshInvariants(ITEM, t2.tokens + [ITEM]);
      ItemsTruthful(v, keep, child.value, depth, limits, b2);
      ItemsRecord(v, keep, child.value, depth, limits, b2);
      var c := ObserveItems(v, keep, child.value, depth, limits, b2).0;
      TruthfulItems(t.children, t.tokens, t.expanded, v, keep, c);
      TalliedIgnoresChildren(t2, t2.children[ITEM := c]);
      TruthfulFinish(t2.(children := t2.children[ITEM := c]), t.expanded, v, keep);
    }
  }

  lemma TruthfulItems(children: map<string, Observed>, tokens: seq<string>,
                      prior: seq<Json>, v: Json, n: nat, after: Observed)
    requires v.Arr? && n <= |v.items| && TruthfulUpTo(children, tokens, prior, v, 0)
    requires after.seen == (if ITEM in children then children[ITEM].seen else []) + v.items[..n]
    requires Named(after, tokens, ITEM) && Truthful(after)
    ensures TruthfulUpTo(children[ITEM := after], tokens, prior, v, n)
  {
    ItemsAdvance(prior, v, n);
    TruthfulUpdate(children, tokens, prior, v, 0, n, ITEM, v.items[..n], after);
  }

  lemma {:induction false} ItemsTruthful(v: Json, n: nat, c: Observed, depth: int, limits: Limits, b: Budget)
    requires v.Arr? && n <= |v.items| && Truthful(c)
    ensures Truthful(ObserveItems(v, n, c, depth, limits, b).0)
    decreases v, 0, n
  {
    hide Truthful;
    if n > 0 {
      ItemsTruthful(v, n - 1, c, depth, limits, b);
      var (c1, b1) := ObserveItems(v, n - 1, c, depth, limits, b);
      ObserveTruthful(v.items[n - 1], c1, depth + 1, limits, b1);
    }
  }

  // ---- without truncation, Complete is kept too ---------------------------------------

  /** The truncation flag is never cleared. */
  lemma {:induction false} TruncationSticks(v: Json, t: Observed, depth: int, limits: Limits, b: Budget)
    requires b.truncated
    ensures Observe(v, t, depth, limits, b).1.truncated
    decreases v, 1, 0
  {
    if IsContainer(v) && depth < limits.maxDepth {
      var t1 := Note(v, t, limits);
      if v.Obj? {
        var keep := Kept(|v.fields|, limits.maxObjectChildren);
        FieldsTruncationSticks(v, keep, NoteObject(v, t1), depth, limits, b);
      } else {
        var keep := Kept(|v.items|, limits.maxArrayItems);
        var (child, b2) := Child(NoteArray(v, t1, keep), ITEM, limits, b);
        if child.Some? { ItemsTruncationSticks(v, keep, child.value, depth, limits, b2); }
      }
    }
  }

  lemma {:induction false} FieldsTruncationSticks(v: Json, n: nat, t: Observed, depth: int, limits: Limits, b: Budget)
    requires v.Obj? && n <= |v.fields| && b.truncated
    ensures ObserveFields(v, n, t, depth, limits, b).1.truncated
    decreases v, 0, n
  {
    if n > 0 {
      FieldsTruncationSticks(v, n - 1, t, depth, limits, b);
      var (t1, b1) := ObserveFields(v, n - 1, t, depth, limits, b);
      FieldTruncationSticks(v, n - 1, t1, depth, limits, b1);
    }
  }

  lemma {:induction false} FieldTruncationSticks(v: Json, i: nat, t: Observed, depth: int, limits: Limits, b: Budget)
    requires v.Obj? && i < |v.fields| && b.truncated
    ensures ObserveField(v, i, t, depth, limits, b).1.truncated
    decreases v, 0, 0
  {
    var (child, b1) := Child(t, v.fields[i].key, limits, b);
    if child.Some? { TruncationSticks(v.fields[i].value, child.value, depth + 1, limits, b1); }
  }

  lemma {:induction false} ItemsTruncationSticks(v: Json, n: nat, c: Observed, depth: int, limits: Limits, b: Budget)
    requires v.Arr? && n <= |v.items| && b.truncated
    ensures ObserveItems(v, n, c, depth, limits, b).1.truncated
    decreases v, 0, n
  {
    if n > 0 {
      ItemsTruncationSticks(v, n - 1, c, depth, limits, b);
      var (c1, b1) := ObserveItems(v, n - 1, c, depth, limits, b);
      TruncationSticks(v.items[n - 1], c1, depth + 1, limits, b1);
    }
  }

  lemma {:induction false} ObserveComplete(v: Json, t: Observed, depth: int, limits: Limits, b: Budget)
    requires Complete(t) && !Observe(v, t, depth, limits, b).1.truncated
    ensures Complete(Observe(v, t, depth, limits, b).0)
    decreases v, 1, 0
  {
    var t1 := Note(v, t, limits);
    if !IsContainer(v) {
      ContainersSnoc(t.seen, v);
      forall k ensures Gathered(t.seen + [v], k) == Gathered(t.seen, k) {
        GatheredSnoc(t.seen, v, k);
      }
    } else if v.Obj? {
      var keep := Kept(|v.fields|, limits.maxObjectChildren);
      var t2 := NoteObject(v, t1);
      if |v.fields| > limits.maxObjectChildren {
        FieldsTruncationSticks(v, keep, t2, depth, limits, Mark(b));
      }
      CompleteStart(t, v);
      FieldsComplete(v, keep, t2, t.seen, depth, limits, b);
      FieldsRecord(v, keep, t2, depth, limits, b);
      CompleteFinish(ObserveFields(v, keep, t2, depth, limits, b).0, t.seen, v);
    } else {
      CompleteStart(t, v);
      ArrayComplete(v, t, depth, limits, b);
    }
  }

  lemma {:induction false} FieldsComplete(v: Json, n: nat, t: Observed, prior: seq<Json>,
                                          depth: int, limits: Limits, b: Budget)
    requires v.Obj? && n <= |v.fields| && CompleteUpTo(t.children, prior, v, 0)
    requires !ObserveFields(v, n, t, depth, limits, b).1.truncated
    ensures CompleteUpTo(ObserveFields(v, n, t, depth, limits, b).0.children, prior, v, n)
    decreases v, 0, n
  {
    hide Expected;
    if n > 0 {
      var (t1, b1) := ObserveFields(v, n - 1, t, depth, limits, b);
      if b1.truncated { FieldTruncationSticks(v, n - 1, t1, depth, limits, b1); }
      FieldsComplete(v, n - 1, t, prior, depth, limits, b);
      var f := v.fields[n - 1];
      var (child, b2) := Child(t1, f.key, limits, b1);
      FreshInvariants(f.key, t1.tokens + [f.key]);
      ObserveComplete(f.value, child.value, depth + 1, limits, b2);
      ObserveRecords(f.value, child.value, depth + 1, limits, b2);
      FieldAdvances(prior, v, n);
      CompleteUpdate(t1.children, prior, v, n - 1, n, f.key, [f.value],
                     Observe(f.value, child.value, depth + 1, limits, b2).0);
    }
  }

  lemma CompleteUpdate(children: map<string, Observed>, prior: seq<Json>, v: Json, n: nat, m: nat,
                       key: string, more: seq<Json>, after: Observed)
    requires n <= Width(v) && m <= Width(v) && CompleteUpTo(children, prior, v, n) && more != []
    requires Advances(prior, v, n, m, key, more)
    requires after.seen == (if key in children then children[key].seen else []) + more && Complete(after)
    ensures CompleteUpTo(children[key := after], prior, v, m)
  {
    hide Expected, Complete;
    var before := if key in children then children[key].seen else [];
    assert before == Expected(prior, v, n, key);
    var children' := children[key := after];
    forall k
      ensures k in children' <==> Expected(prior, v, m, k) != []
      ensures k in children' ==> children'[k].seen == Expected(prior, v, m, k) && Complete(children'[k])
    {
      if k != key { assert Expected(prior, v, m, k) == Expected(prior, v, n, k); }
    }
  }

  lemma {:induction false} ArrayComplete(v: Json, t: Observed, depth: int, limits: Limits, b: Budget)
    requires CompleteUpTo(t.children, t.seen, v, 0) && t.expanded == Containers(t.seen)
    requires v.Arr? && !ObserveArray(v, Note(v, t, limits), depth, limits, b).1.truncated
    ensures Complete(ObserveArray(v, Note(v, t, limits), depth, limits, b).0)
    decreases v, 0, |v.items| + 1
  {
    var keep := Kept(|v.items|, limits.maxArrayItems);
    var t2 := NoteArray(v, Note(v, t, limits), keep);
    ArrayNotCut(v, Note(v, t, limits), depth, limits, b);
    if keep == 0 {
      CompleteFinish(t2, t.seen, v);
    } else {
      var (child, b2) := Child(t2, ITEM, limits, b);
      FreshInvariants(ITEM, t2.tokens + [ITEM]);
      ItemsComplete(v, keep, child.value, depth, limits, b2);
      ItemsRecord(v, keep, child.value, depth, limits, b2);
      var c := ObserveItems(v, keep, child.value, depth, limits, b2).0;
      CompleteItems(t.children, t.seen, v, c);
      CompleteFinish(t2.(children := t2.children[ITEM := c]), t.seen, v);
    }
  }

  lemma ArrayNotCut(v: Json, t: Observed, depth: int, limits: Limits, b: Budget)
    requires v.Arr? && !ObserveArray(v, t, depth, limits, b).1.truncated
    ensures |v.items| <= limits.maxArrayItems
  {
    if |v.items| > limits.maxArrayItems {
      var keep := Kept(|v.items|, limits.maxArrayItems);
      var (child, b2) := Child(NoteArray(v, t, keep), ITEM, limits, Mark(b));
      if keep > 0 && child.Some? { ItemsTruncationSticks(v, keep, child.value, depth, limits, b2); }
    }
  }

  lemma CompleteItems(children: map<string, Observed>, prior: seq<Json>, v: Json, after: Observed)
    requires v.Arr? && v.items != [] && CompleteUpTo(children, prior, v, 0)
    requires after.seen == (if ITEM in children then children[ITEM].seen else []) + v.items[..|v.items|]
    requires Complete(after)
    ensures CompleteUpTo(children[ITEM := after], prior, v, |v.items|)
  {
    assert v.items[..|v.items|] == v.items;
    ItemsAdvance(prior, v, |v.items|);
    CompleteUpdate(children, prior, v, 0, |v.items|, ITEM, v.items, after);
  }

  lemma {:induction false} ItemsComplete(v: Json, n: nat, c: Observed, depth: int, limits: Limits, b: Budget)
    requires v.Arr? && n <= |v.items| && Complete(c)
    requires !ObserveItems(v, n, c, depth, limits, b).1.truncated
    ensures Complete(ObserveItems(v, n, c, depth, limits, b).0)
    decreases v, 0, n
  {
    hide Complete;
    if n > 0 {
      var (c1, b1) := ObserveItems(v, n - 1, c, depth, limits, b);
      if b1.truncated { TruncationSticks(v.items[n - 1], c1, depth + 1, limits, b1); }
      ItemsComplete(v, n - 1, c, depth, limits, b);
      ObserveComplete(v.items[n - 1], c1, depth + 1, limits, b1);
    }
  }

  /** The tree inferred for a document records only what the document holds, and all of it
      unless something was truncated. */
  lemma ObserveRootInvariants(v: Json, limits: Limits)
    ensures var (t, b) := ObserveRoot(v, limits);
      t.seen == [v] && Truthful(t) && (!b.truncated ==> Complete(t))
  {
    var b := Budget(1, false);
    FreshInvariants("$", []);
    ObserveRecords(v, Root(), 0, limits, b);
    ObserveTruthful(v, Root(), 0, limits, b);
    if !Observe(v, Root(), 0, limits, b).1.truncated {
      ObserveComplete(v, Root(), 0, limits, b);
    }
  }
}
