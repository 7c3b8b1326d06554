/** Inference stays within its limits: the node counter is the size of the tree, and neither
    the total nor the depth exceeds what was asked for (core/metadata/json_structure.py). */
module JsonBudget {
  import opened JsonObservation
  import opened JsonPath

  /** The number of nodes of a tree. */
  ghost function Size(t: Observed): nat
    decreases t, 1, 0
  {
    1 + SumSizes(t, t.children.Keys)
  }

  ghost function SumSizes(t: Observed, keys: set<string>): nat
    requires keys <= t.children.Keys
    decreases t, 0, |keys|
  {
    if keys == {} then 0
    else
      var k :| k in keys;
      Size(t.children[k]) + SumSizes(t, keys - {k})
  }

  lemma {:induction false} SumPull(t: Observed, keys: set<string>, k: string)
    requires keys <= t.children.Keys && k in keys
    ensures SumSizes(t, keys) == Size(t.children[k]) + SumSizes(t, keys - {k})
    decreases |keys|
  {
    var first :| first in keys && SumSizes(t, keys) == Size(t.children[first]) + SumSizes(t, keys - {first});
    if first != k {
      SumPull(t, keys - {first}, k);
      SumPull(t, keys - {k}, first);
      assert keys - {first} - {k} == keys - {k} - {first};
    }
  }

  lemma {:induction false} SumSame(t: Observed, t': Observed, keys: set<string>)
    requires keys <= t.children.Keys && keys <= t'.children.Keys
    requires forall k :: k in keys ==> t.children[k] == t'.children[k]
    ensures SumSizes(t, keys) == SumSizes(t', keys)
    decreases |keys|
  {
    if keys != {} {
      var k :| k in keys;
      SumPull(t, keys, k);
      SumPull(t', keys, k);
      SumSame(t, t', keys - {k});
    }
  }

  lemma FreshSize(name: string, tokens: seq<string>)
    ensures Size(Fresh(name, tokens)) == 1
  {
    assert SumSizes(Fresh(name, tokens), {}) == 0;
  }

  lemma SizeSame(t: Observed, t': Observed)
    requires t.children == t'.children
    ensures Size(t) == Size(t')
  {
    SumSame(t, t', t.children.Keys);
  }

  /** Replacing or adding one child changes the size by the difference. */
  lemma SizeUpdate(t: Observed, k: string, c: Observed)
    ensures Size(t.(children := t.children[k := c]))
         == Size(t) - (if k in t.children then Size(t.children[k]) else 0) + Size(c)
  {
    var t' := t.(children := t.children[k := c]);
    var others := t.children.Keys - {k};
    assert t'.children.Keys - {k} == others;
    SumPull(t', t'.children.Keys, k);
    SumSame(t, t', others);
    if k in t.children {
      SumPull(t, t.children.Keys, k);
    } else {
      assert others == t.children.Keys;
    }
  }

  /** The counter moved from `b` to `b'` while the tree grew from `before` to `after` nodes. */
  ghost predicate Accounted(before: nat, after: nat, limits: Limits, b: Budget, b': Budget) {
    && after - before == b'.created - b.created
    && b.created <= b'.created
    && (b'.created <= b.created || b'.created <= limits.maxTotalNodes)
  }

  lemma {:induction false} ObserveAccounted(v: Json, t: Observed, depth: int, limits: Limits, b: Budget)
    ensures var (t', b') := Observe(v, t, depth, limits, b);
      Accounted(Size(t), Size(t'), limits, b, b')
    decreases v, 1, 0
  {
    var t1 := Note(v, t, limits);
    SizeSame(t, t1);
    if IsContainer(v) && depth < limits.maxDepth {
      if v.Obj? {
        var keep := Kept(|v.fields|, limits.maxObjectChildren);
        var b1 := if |v.fields| > limits.maxObjectChildren then Mark(b) else b;
        SizeSame(t, NoteObject(v, t1));
        FieldsAccounted(v, keep, NoteObject(v, t1), depth, limits, b1);
      } else {
        ArrayAccounted(v, t1, depth, limits, b);
      }
    }
  }

  lemma {:induction false} FieldsAccounted(v: Json, n: nat, t: Observed, depth: int, limits: Limits, b: Budget)
    requires v.Obj? && n <= |v.fields|
    ensures var (t', b') := ObserveFields(v, n, t, depth, limits, b);
      Accounted(Size(t), Size(t'), limits, b, b')
    decreases v, 0, n
  {
    hide Size, ObserveField;
    if n > 0 {
      FieldsAccounted(v, n - 1, t, depth, limits, b);
      var (t1, b1) := ObserveFields(v, n - 1, t, depth, limits, b);
      FieldAccounted(v, n - 1, t1, depth, limits, b1);
    }
  }

  lemma {:induction false} FieldAccounted(v: Json, i: nat, t: Observed, depth: int, limits: Limits, b: Budget)
    requires v.Obj? && i < |v.fields|
    ensures var (t', b') := ObserveField(v, i, t, depth, limits, b);
      Accounted(Size(t), Size(t'), limits, b, b')
    decreases v, 0, 0
  {
    var f := v.fields[i];
    var (child, b1) := Child(t, f.key, limits, b);
    if child.Some? {
      var (c, b2) := Observe(f.value, child.value, depth + 1, limits, b1);
      FreshSize(f.key, t.tokens + [f.key]);
      ObserveAccounted(f.value, child.value, depth + 1, limits, b1);
      SizeUpdate(t, f.key, c);
    }
  }

  lemma {:induction false} ArrayAccounted(v: Json, t: Observed, depth: int, limits: Limits, b: Budget)
    requires v.Arr?
    ensures var (t', b') := ObserveArray(v, t, depth, limits, b);
      Accounted(Size(t), Size(t'), limits, b, b')
    decreases v, 0, |v.items| + 1
  {
    var keep := Kept(|v.items|, limits.maxArrayItems);
    var b1 := if |v.items| > limits.maxArrayItems then Mark(b) else b;
    var t2 := NoteArray(v, t, keep);
    SizeSame(t, t2);
    var (child, b2) := Child(t2, ITEM, limits, b1);
    if keep > 0 && child.Some? {
      var (c, b3) := ObserveItems(v, keep, child.value, depth, limits, b2);
      FreshSize(ITEM, t2.tokens + [ITEM]);
      ItemsAccounted(v, keep, child.value, depth, limits, b2);
      SizeUpdate(t2, ITEM, c);
    }
  }

  lemma {:induction false} ItemsAccounted(v: Json, n: nat, c: Observed, depth: int, limits: Limits, b: Budget)
    requires v.Arr? && n <= |v.items|
    ensures var (c', b') := ObserveItems(v, n, c, depth, limits, b);
      Accounted(Size(c), Size(c'), limits, b, b')
    decreases v, 0, n
  {
    hide Size, Observe;
    if n > 0 {
      ItemsAccounted(v, n - 1, c, depth, limits, b);
      var (c1, b1) := ObserveItems(v, n - 1, c, depth, limits, b);
      ObserveAccounted(v.items[n - 1], c1, depth + 1, limits, b1);
    }
  }

  /** The tree has at most `room` levels below its root. */
  ghost predicate Fits(t: Observed, room: int) {
    forall k :: k in t.children ==> room > 0 && Fits(t.children[k], room - 1)
  }

  lemma {:induction false} ObserveFits(v: Json, t: Observed, depth: int, limits: Limits, b: Budget)
    requires Fits(t, limits.maxDepth - depth)
    ensures Fits(Observe(v, t, depth, limits, b).0, limits.maxDepth - depth)
    decreases v, 1, 0
  {
    var t1 := Note(v, t, limits);
    if IsContainer(v) && depth < limits.maxDepth {
      if v.Obj? {
        var keep := Kept(|v.fields|, limits.maxObjectChildren);
        var b1 := if |v.fields| > limits.maxObjectChildren then Mark(b) else b;
        FieldsFit(v, keep, NoteObject(v, t1), depth, limits, b1);
      } else {
        var keep := Kept(|v.items|, limits.maxArrayItems);
        var b1 := if |v.items| > limits.maxArrayItems then Mark(b) else b;
        var t2 := NoteArray(v, t1, keep);
        var (child, b2) := Child(t2, ITEM, limits, b1);
        if keep > 0 && child.Some? { ItemsFit(v, keep, child.value, depth, limits, b2); }
      }
    }
  }

  lemma {:induction false} FieldsFit(v: Json, n: nat, t: Observed, depth: int, limits: Limits, b: Budget)
    requires v.Obj? && n <= |v.fields| && depth < limits.maxDepth && Fits(t, limits.maxDepth - depth)
    ensures Fits(ObserveFields(v, n, t, depth, limits, b).0, limits.maxDepth - depth)
    decreases v, 0, n
  {
    if n > 0 {
      FieldsFit(v, n - 1, t, depth, limits, b);
      var (t1, b1) := ObserveFields(v, n - 1, t, depth, limits, b);
      var f := v.fields[n - 1];
      var (child, b2) := Child(t1, f.key, limits, b1);
      if child.Some? { ObserveFits(f.value, child.value, depth + 1, limits, b2); }
    }
  }

  lemma {:induction false} ItemsFit(v: Json, n: nat, c: Observed, depth: int, limits: Limits, b: Budget)
    requires v.Arr? && n <= |v.items| && Fits(c, limits.maxDepth - (depth + 1))
    ensures Fits(ObserveItems(v, n, c, depth, limits, b).0, limits.maxDepth - (depth + 1))
    decreases v, 0, n
  {
    if n > 0 {
      ItemsFit(v, n - 1, c, depth, limits, b);
      var (c1, b1) := ObserveItems(v, n - 1, c, depth, limits, b);
      ObserveFits(v.items[n - 1], c1, depth + 1, limits, b1);
    }
  }

  /** For every document and all limits, however small or negative: the counter is exactly the
      number of nodes, which is one or within the total, and no node is deeper than allowed. */
  lemma WithinBudget(v: Json, limits: Limits)
    ensures var (t, b) := ObserveRoot(v, limits);
      && b.created == Size(t)
      && (b.created == 1 || b.created <= limits.maxTotalNodes)
      && Fits(t, limits.maxDepth)
  {
    FreshSize("$", []);
    ObserveAccounted(v, Root(), 0, limits, Budget(1, false));
    ObserveFits(v, Root(), 0, limits, Budget(1, false));
  }
}
