/** Restoring union-typed models from a cached pydantic dump (core/dump_engine/_pydantic.py:71-209). */
module UnionRestore {
  import opened Options

  type Path = seq<string>

  /** Field values. */
  datatype Value =
    | Null
    | Leaf(data: string)
    | List(items: seq<Value>)
    | Dict(fields: map<string, Value>)
    | Model(cls: string, fields: map<string, Value>)

  /** How a value is annotated: as one model class, as a union (named by its text), as a list or a
      dictionary of such, or otherwise. */
  datatype Kind = Plain | Declared(cls: string) | UnionOf(text: string) | ListOf(item: Kind) | DictOf(item: Kind)

  /** The fields of a class in order; `inherited` are those with a union annotation in a base class or
      in the type of a database column. */
  datatype ClassDef = ClassDef(order: seq<string>, kinds: map<string, Kind>, inherited: set<string>)

  /** The model classes; `guess` is the value pydantic picks when a union is given a dictionary or a list,
      and `absent` the value of a field that was not given. */
  datatype Env = Env(classes: map<string, ClassDef>, guess: (string, Value) -> Value, absent: (string, string) -> Value)

  datatype Entry = Entry(path: Path, cls: Option<string>)

  function KindOf(env: Env, cls: string, f: string): Kind {
    if cls in env.classes && f in env.classes[cls].kinds then env.classes[cls].kinds[f] else Plain
  }

  lemma DistinctConcat<T>(a: seq<T>, b: seq<T>)
    requires Distinct(a) && Distinct(b) && forall x :: x in a ==> x !in b
    ensures Distinct(a + b)
  {
    forall i, j | 0 <= i < j < |a + b| ensures (a + b)[i] != (a + b)[j] {
      if i < |a| <= j {
        assert a[i] in a && b[j - |a|] in b;
      }
    }
  }

  predicate Distinct<T(==)>(s: seq<T>) {
    forall i, j :: 0 <= i < j < |s| ==> s[i] != s[j]
  }

  /** `_get_union_annotation` finds a union for the field. */
  predicate Recorded(env: Env, cls: string, f: string) {
    KindOf(env, cls, f).UnionOf? || (cls in env.classes && f in env.classes[cls].inherited)
  }

  /** A model tree: every instance is of a known class and holds that class's fields. */
  ghost predicate Typed(env: Env, v: Value) {
    match v
    case Model(cls, fields) =>
      && cls in env.classes
      && fields.Keys == env.classes[cls].kinds.Keys
      && Distinct(env.classes[cls].order)
      && (forall f :: f in env.classes[cls].order <==> f in fields)
      && forall f :: f in fields ==> Typed(env, fields[f])
    case Dict(fields) => forall f :: f in fields ==> Typed(env, fields[f])
    case List(items) => forall i :: 0 <= i < |items| ==> Typed(env, items[i])
    case _ => true
  }

  // ---- pydantic ----------------------------------------------------------------------------------------

  /** `model_dump`: nested models become dictionaries. */
  function Dumped(v: Value): Value {
    match v
    case List(items) => List(seq(|items|, i requires 0 <= i < |items| => Dumped(items[i])))
    case Dict(fields) => Dict(map f | f in fields :: Dumped(fields[f]))
    case Model(_, fields) => Dict(map f | f in fields :: Dumped(fields[f]))
    case _ => v
  }

  /** Calling a model class with a dictionary. */
  function Construct(env: Env, cls: string, payload: Value): (v: Value)
    requires payload.Dict?
    ensures v.Model? && v.cls == cls
    decreases payload, 0
  {
    if cls !in env.classes then Model(cls, map[])
    else
      var def := env.classes[cls];
      Model(cls, map f | f in def.kinds ::
                   if f in payload.fields then Validated(env, def.kinds[f], payload.fields[f]) else env.absent(cls, f))
  }

  /** What a value becomes under its annotation: instances are kept as they are, a dictionary for a
      declared model is built into that model, lists and dictionaries are taken item by item. */
  function Validated(env: Env, kind: Kind, w: Value): Value
    decreases w, 1
  {
    match kind
    case Plain => w
    case Declared(d) => if w.Dict? then Construct(env, d, w) else w
    case UnionOf(text) => if w.Dict? || w.List? then env.guess(text, w) else w
    case ListOf(item) =>
      if w.List? then List(seq(|w.items|, i requires 0 <= i < |w.items| => Validated(env, item, w.items[i]))) else w
    case DictOf(item) =>
      if w.Dict? then Dict(map f | f in w.fields :: Validated(env, item, w.fields[f])) else w
  }

  // ---- collecting --------------------------------------------------------------------------------------

  ghost function Collect(env: Env, v: Value, path: Path): seq<Entry>
    requires v.Model?
    decreases v, 1, 0
  {
    if v.cls in env.classes then CollectFields(env, v, path, |env.classes[v.cls].order|) else []
  }

  /** The entries of the first `n` fields. */
  ghost function CollectFields(env: Env, v: Value, path: Path, n: nat): seq<Entry>
    requires v.Model? && v.cls in env.classes && n <= |env.classes[v.cls].order|
    decreases v, 0, n
  {
    if n == 0 then []
    else CollectFields(env, v, path, n - 1) + CollectField(env, v, path, env.classes[v.cls].order[n - 1])
  }

  ghost function CollectField(env: Env, v: Value, path: Path, f: string): seq<Entry>
    requires v.Model?
    decreases v, 0, 0
  {
    if f !in v.fields || !v.fields[f].Model? then []
    else
      var w := v.fields[f];
      (if Recorded(env, v.cls, f) then [Entry(path + [f], Some(w.cls))] else [])
      + Collect(env, w, path + [f])
  }

  /** `_collect_union_metadata`, on a tree without cycles. */
  method CollectUnionMetadata(env: Env, model: Value, path: Path) returns (entries: seq<Entry>)
    requires Typed(env, model) && model.Model?
    ensures entries == Collect(env, model, path)
    decreases model
  {
    entries := [];
    var order := env.classes[model.cls].order;
    for i := 0 to |order|
      invariant entries == CollectFields(env, model, path, i)
    {
      var name := order[i];
      var value := model.fields[name];
      if value == Null {
        continue;
      }
      var currentPath := path + [name];
      if Recorded(env, model.cls, name) && value.Model? {
        var inner := CollectUnionMetadata(env, value, currentPath);
        entries := entries + ([Entry(currentPath, Some(value.cls))] + inner);
      } else if value.Model? {
        var inner := CollectUnionMetadata(env, value, currentPath);
        entries := entries + ([] + inner);
      }
    }
  }

  // ---- restoring one entry -----------------------------------------------------------------------------

  /** The value that replaces `raw`, if any. */
  function Replacement(env: Env, raw: Value, cls: Option<string>): Value {
    var payload := if raw.Model? then Dumped(raw) else raw;
    if !payload.Dict? || cls.None? then raw else Construct(env, cls.value, payload)
  }

  /** Effect of one entry on the payload. */
  function RestoredAt(env: Env, payload: Value, path: Path, cls: Option<string>): (r: Value)
    ensures payload.Dict? ==> r.Dict?
  {
    if path == [] || !payload.Dict? || path[0] !in payload.fields || payload.fields[path[0]].Null? then payload
    else
      var child := payload.fields[path[0]];
      Dict(payload.fields[path[0] := if |path| == 1 then Replacement(env, child, cls)
                                     else RestoredAt(env, child, path[1..], cls)])
  }

  function RestoredAll(env: Env, payload: Value, entries: seq<Entry>): (r: Value)
    ensures payload.Dict? ==> r.Dict?
  {
    if entries == [] then payload
    else
      var last := entries[|entries| - 1];
      RestoredAt(env, RestoredAll(env, payload, entries[..|entries| - 1]), last.path, last.cls)
  }

  /** The payload after the value at the end of a walk is overwritten. */
  function Overwritten(payload: Value, path: Path, value: Value): Value {
    if path == [] then value
    else if !payload.Dict? || path[0] !in payload.fields then payload
    else Dict(payload.fields[path[0] := Overwritten(payload.fields[path[0]], path[1..], value)])
  }

  lemma {:induction false} OverwriteSame(payload: Value, path: Path)
    ensures Overwritten(payload, path, Walk(payload, path)) == payload
  {
    if path != [] && payload.Dict? && path[0] in payload.fields {
      OverwriteSame(payload.fields[path[0]], path[1..]);
    }
  }

  /** One step further down: the walk goes on through field `f` of the dictionary it has reached. */
  lemma {:induction false} WalkStep(payload: Value, path: Path, f: string, value: Value)
    requires var parent := Walk(payload, path); parent.Dict? && f in parent.fields
    ensures var parent := Walk(payload, path);
            && Walk(payload, path + [f]) == parent.fields[f]
            && Overwritten(payload, path + [f], value) == Overwritten(payload, path, Dict(parent.fields[f := value]))
  {
    if path != [] {
      WalkStep(payload.fields[path[0]], path[1..], f, value);
      assert (path + [f])[1..] == path[1..] + [f];
    } else {
      assert (path + [f])[1..] == [];
    }
  }

  /** One round of the loop of `_restore_union_models`. */
  method RestoreEntry(env: Env, payload: Value, entry: Entry) returns (r: Value)
    ensures r == RestoredAt(env, payload, entry.path, entry.cls)
  {
    var path := entry.path;
    if path == [] {
      return payload;
    }
    var parent := payload;
    var i := 0;
    assert path[0..] == path;
    while i < |path| - 1
      invariant 0 <= i < |path| && parent == Walk(payload, path[..i])
      invariant RestoredAt(env, payload, path, entry.cls)
                == Overwritten(payload, path[..i], RestoredAt(env, parent, path[i..], entry.cls))
    {
      OverwriteSame(payload, path[..i]);
      if !parent.Dict? {
        return payload;
      }
      if path[i] !in parent.fields || parent.fields[path[i]].Null? {
        return payload;
      }
      var child := parent.fields[path[i]];
      WalkStep(payload, path[..i], path[i], RestoredAt(env, child, path[i + 1..], entry.cls));
      assert path[..i + 1] == path[..i] + [path[i]] && path[i..][1..] == path[i + 1..];
      parent := child;
      i := i + 1;
    }
    OverwriteSame(payload, path[..i]);
    if !parent.Dict? {
      return payload;
    }
    var lastKey := path[|path| - 1];
    if lastKey !in parent.fields || parent.fields[lastKey].Null? {
      return payload;
    }
    var raw := parent.fields[lastKey];
    var valuePayload := if raw.Model? then Dumped(raw) else raw;
    if !valuePayload.Dict? || entry.cls.None? {
      assert parent.fields[lastKey := raw] == parent.fields;
      return payload;
    }
    r := Overwritten(payload, path[..i], Dict(parent.fields[lastKey := Construct(env, entry.cls.value, valuePayload)]));
  }

  // ---- the state of the payload while it is restored ---------------------------------------------------

  /** The payload of `v`, at `path`, once the entries with paths in `done` have had their turn. */
  ghost function Placed(env: Env, v: Value, path: Path, done: set<Path>): Value
    requires v.Model?
    ensures Placed(env, v, path, done).Dict?
    decreases v, 1
  {
    Dict(map f | f in v.fields :: PlacedField(env, v, path, done, f))
  }

  ghost function PlacedField(env: Env, v: Value, path: Path, done: set<Path>, f: string): Value
    requires v.Model? && f in v.fields
    decreases v, 0
  {
    var w := v.fields[f];
    if !w.Model? then Dumped(w)
    else if path + [f] in done then Construct(env, w.cls, Placed(env, w, path + [f], done))
    else Placed(env, w, path + [f], done)
  }

  /** `q` leads from `v` through models to a model held by a union field. */
  ghost predicate UnionAt(env: Env, v: Value, q: Path) {
    && q != [] && v.Model? && q[0] in v.fields && v.fields[q[0]].Model?
    && if |q| == 1 then Recorded(env, v.cls, q[0]) else UnionAt(env, v.fields[q[0]], q[1..])
  }

  ghost function ClassAt(env: Env, v: Value, q: Path): string
    requires UnionAt(env, v, q)
  {
    if |q| == 1 then v.fields[q[0]].cls else ClassAt(env, v.fields[q[0]], q[1..])
  }

  /** An entry that has its turn matters only below the position it names. */
  lemma {:induction false} PlacedFrame(env: Env, v: Value, path: Path, done: set<Path>, p: Path)
    requires v.Model? && !(path < p)
    ensures Placed(env, v, path, done + {p}) == Placed(env, v, path, done)
  {
    forall f | f in v.fields
      ensures PlacedField(env, v, path, done + {p}, f) == PlacedField(env, v, path, done, f)
    {
      var w := v.fields[f];
      if w.Model? {
        assert path < path + [f];
        PlacedFrame(env, w, path + [f], done, p);
      }
    }
  }

  lemma {:induction false} PlacedFresh(env: Env, v: Value, path: Path)
    requires v.Model?
    ensures Placed(env, v, path, {}) == Dumped(v)
  {
    forall f | f in v.fields ensures PlacedField(env, v, path, {}, f) == Dumped(v.fields[f]) {
      if v.fields[f].Model? {
        PlacedFresh(env, v.fields[f], path + [f]);
      }
    }
  }

  /** No proper ancestor of the position `q` below `path` has had its turn. */
  ghost predicate AncestorsWait(path: Path, q: Path, done: set<Path>) {
    forall k :: 0 < k < |q| ==> path + q[..k] !in done
  }

  lemma AncestorsWaitBelow(path: Path, q: Path, done: set<Path>)
    requires |q| > 1 && AncestorsWait(path, q, done)
    ensures path + [q[0]] !in done && AncestorsWait(path + [q[0]], q[1..], done)
    ensures path + [q[0]] + q[1..] == path + q
  {
    assert q[..1] == [q[0]];
    forall k | 0 < k < |q[1..]| ensures path + [q[0]] + q[1..][..k] !in done {
      assert path + [q[0]] + q[1..][..k] == path + q[..k + 1];
    }
  }

  /** The turn of one entry: the walk arrives, and exactly the position it names changes. */
  lemma {:induction false} Turn(env: Env, v: Value, path: Path, q: Path, done: set<Path>)
    requires UnionAt(env, v, q) && AncestorsWait(path, q, done) && path + q !in done
    ensures RestoredAt(env, Placed(env, v, path, done), q, Some(ClassAt(env, v, q)))
            == Placed(env, v, path, done + {path + q})
    decreases |q|
  {
    hide Construct, UnionAt, Dumped;
    var w := UnionStep(env, v, q);
    var p, f := path + q, q[0];
    var before, after := Placed(env, v, path, done), Placed(env, v, path, done + {p});
    OthersKeep(env, v, path, q, done);
    if |q| == 1 {
      assert q == [f];
      assert before.fields[f] == PlacedField(env, v, path, done, f) == Placed(env, w, p, done);
      PlacedFrame(env, w, p, done, p);
      assert after.fields[f] == PlacedField(env, v, path, done + {p}, f);
      assert path + [f] == p && p in done + {p};
      assert after.fields[f] == Construct(env, w.cls, before.fields[f]);
    } else {
      AncestorsWaitBelow(path, q, done);
      Turn(env, w, path + [f], q[1..], done);
    }
    assert after.fields == before.fields[f := after.fields[f]];
  }

  ghost function UnionStep(env: Env, v: Value, q: Path): (w: Value)
    requires UnionAt(env, v, q)
    ensures v.Model? && q != [] && q[0] in v.fields && w == v.fields[q[0]] && w.Model?
    ensures |q| == 1 ==> ClassAt(env, v, q) == w.cls
    ensures |q| > 1 ==> UnionAt(env, w, q[1..]) && ClassAt(env, w, q[1..]) == ClassAt(env, v, q)
  {
    v.fields[q[0]]
  }

  lemma OthersKeep(env: Env, v: Value, path: Path, q: Path, done: set<Path>)
    requires v.Model? && q != []
    ensures forall g :: g in v.fields && g != q[0] ==>
              PlacedField(env, v, path, done + {path + q}, g) == PlacedField(env, v, path, done, g)
    ensures |q| > 1 && q[0] in v.fields && v.fields[q[0]].Model? && path + [q[0]] !in done ==>
              PlacedField(env, v, path, done + {path + q}, q[0]) == Placed(env, v.fields[q[0]], path + [q[0]], done + {path + q})
  {
    var p := path + q;
    assert |q| > 1 ==> |path + [q[0]]| != |p|;
    forall g | g in v.fields && g != q[0]
      ensures PlacedField(env, v, path, done + {p}, g) == PlacedField(env, v, path, done, g)
    {
      assert p[|path|] == q[0] && (path + [g])[|path|] == g;
      if v.fields[g].Model? {
        PlacedFrame(env, v.fields[g], path + [g], done, p);
      }
    }
  }

  /** When an entry has its turn, every proper ancestor of its position is still a dictionary. */
  lemma {:induction false} AncestorsAreDicts(env: Env, v: Value, path: Path, q: Path, done: set<Path>, k: nat)
    requires UnionAt(env, v, q) && AncestorsWait(path, q, done) && k < |q|
    ensures Walk(Placed(env, v, path, done), q[..k]).Dict?
    decreases |q|
  {
    if k > 0 {
      var w := UnionStep(env, v, q);
      AncestorsWaitBelow(path, q, done);
      AncestorsAreDicts(env, w, path + [q[0]], q[1..], done, k - 1);
      assert q[..k][1..] == q[1..][..k - 1];
    }
  }

  /** Where a walk through dictionaries arrives; `Null` when it cannot go on. */
  function Walk(payload: Value, path: Path): Value {
    if path == [] then payload
    else if !payload.Dict? || path[0] !in payload.fields then Null
    else Walk(payload.fields[path[0]], path[1..])
  }

  // ---- what is recorded ----------------------------------------------------------------------------------

  ghost function Paths(entries: seq<Entry>): set<Path> {
    set e | e in entries :: e.path
  }

  /** The entries below `path` are exactly the union positions of `v`, each with its class. */
  ghost predicate Records(env: Env, v: Value, path: Path, entries: seq<Entry>) {
    && (forall e :: e in entries ==> path < e.path && UnionAt(env, v, e.path[|path|..])
                                     && e.cls == Some(ClassAt(env, v, e.path[|path|..])))
    && (forall q :: UnionAt(env, v, q) ==> Entry(path + q, Some(ClassAt(env, v, q))) in entries)
  }

  lemma {:induction false} CollectRecords(env: Env, v: Value, path: Path)
    requires v.Model? && Typed(env, v)
    ensures Records(env, v, path, Collect(env, v, path))
    ensures Distinct(Collect(env, v, path))
    decreases v
  {
    hide UnionAt, ClassAt, CollectField, CollectFields;
    var order := env.classes[v.cls].order;
    forall f | f in v.fields ensures FieldRecords(env, v, path, f, CollectField(env, v, path, f)) {
      CollectFieldRecords(env, v, path, f);
    }
    FieldsRecord(env, v, path, |order|);
    forall q | UnionAt(env, v, q) ensures Entry(path + q, Some(ClassAt(env, v, q))) in Collect(env, v, path) {
      var w := UnionStep(env, v, q);
      assert q[0] in order;
    }
  }

  /** The same for one field. */
  ghost predicate FieldRecords(env: Env, v: Value, path: Path, f: string, entries: seq<Entry>) {
    && (forall e :: e in entries ==> path + [f] <= e.path && UnionAt(env, v, e.path[|path|..])
                                     && e.cls == Some(ClassAt(env, v, e.path[|path|..])))
    && (forall q :: UnionAt(env, v, q) && q[0] == f ==> Entry(path + q, Some(ClassAt(env, v, q))) in entries)
    && Distinct(entries)
  }

  lemma {:induction false} CollectFieldRecords(env: Env, v: Value, path: Path, f: string)
    requires v.Model? && Typed(env, v) && f in v.fields
    ensures FieldRecords(env, v, path, f, CollectField(env, v, path, f))
    decreases v, 0
  {
    var w := v.fields[f];
    if w.Model? {
      CollectRecords(env, w, path + [f]);
      var inner := Collect(env, w, path + [f]);
      var entries := CollectField(env, v, path, f);
      forall e | e in entries
        ensures path + [f] <= e.path && UnionAt(env, v, e.path[|path|..]) && e.cls == Some(ClassAt(env, v, e.path[|path|..]))
      {
        EntryLifts(env, v, path, f, e);
      }
      forall q | UnionAt(env, v, q) && q[0] == f
        ensures Entry(path + q, Some(ClassAt(env, v, q))) in entries
      {
        if |q| == 1 {
          assert q == [f];
        } else {
          assert path + [f] + q[1..] == path + q;
        }
      }
    }
  }

  lemma EntryLifts(env: Env, v: Value, path: Path, f: string, e: Entry)
    requires v.Model? && f in v.fields && v.fields[f].Model? && e in CollectField(env, v, path, f)
    requires Records(env, v.fields[f], path + [f], Collect(env, v.fields[f], path + [f]))
    ensures path + [f] <= e.path && UnionAt(env, v, e.path[|path|..]) && e.cls == Some(ClassAt(env, v, e.path[|path|..]))
  {
    var q := e.path[|path|..];
    if e.path == path + [f] {
      assert q == [f];
    } else {
      assert path + [f] < e.path;
      assert q[0] == f && q[1..] == e.path[|path| + 1..];
    }
  }

  ghost predicate Headed(path: Path, f: string, entries: seq<Entry>) {
    Distinct(entries) && forall e :: e in entries ==> path + [f] <= e.path
  }

  lemma OneHead(path: Path, f: string, g: string, p: Path)
    requires f != g
    ensures !(path + [f] <= p && path + [g] <= p)
  {
    assert (path + [f])[|path|] == f && (path + [g])[|path|] == g;
  }

  lemma {:induction false} FieldsRecord(env: Env, v: Value, path: Path, n: nat)
    requires v.Model? && Typed(env, v) && n <= |env.classes[v.cls].order|
    requires forall f :: f in v.fields ==> Headed(path, f, CollectField(env, v, path, f))
    ensures var entries := CollectFields(env, v, path, n);
            && Distinct(entries)
            && (forall e :: e in entries ==> exists i :: 0 <= i < n && e in CollectField(env, v, path, env.classes[v.cls].order[i]))
            && (forall i, e :: 0 <= i < n && e in CollectField(env, v, path, env.classes[v.cls].order[i]) ==> e in entries)
  {
    hide CollectField;
    if n > 0 {
      FieldsRecord(env, v, path, n - 1);
      var order := env.classes[v.cls].order;
      var a, b := CollectFields(env, v, path, n - 1), CollectField(env, v, path, order[n - 1]);
      assert order[n - 1] in order;
      forall e | e in a ensures e !in b {
        var i :| 0 <= i < n - 1 && e in CollectField(env, v, path, order[i]);
        assert order[i] in order;
        OneHead(path, order[i], order[n - 1], e.path);
      }
      DistinctConcat(a, b);
    }
  }

  // ---- deepest first ---------------------------------------------------------------------------------------

  /** Stable insertion behind every entry that is at least as deep. */
  function Insert(sorted: seq<Entry>, e: Entry): seq<Entry> {
    if sorted == [] || |e.path| <= |sorted[|sorted| - 1].path| then sorted + [e]
    else Insert(sorted[..|sorted| - 1], e) + [sorted[|sorted| - 1]]
  }

  function LongestFirst(entries: seq<Entry>): seq<Entry> {
    if entries == [] then [] else Insert(LongestFirst(entries[..|entries| - 1]), entries[|entries| - 1])
  }

  ghost predicate Descending(entries: seq<Entry>) {
    forall i, j :: 0 <= i < j < |entries| ==> |entries[j].path| <= |entries[i].path|
  }

  lemma {:induction false} InsertPermutes(sorted: seq<Entry>, e: Entry)
    ensures multiset(Insert(sorted, e)) == multiset(sorted) + multiset{e}
  {
    if sorted != [] && |e.path| > |sorted[|sorted| - 1].path| {
      InsertPermutes(sorted[..|sorted| - 1], e);
      assert sorted == sorted[..|sorted| - 1] + [sorted[|sorted| - 1]];
    }
  }

  lemma {:induction false} InsertSorts(sorted: seq<Entry>, e: Entry)
    requires Descending(sorted)
    ensures Descending(Insert(sorted, e))
  {
    if sorted != [] && |e.path| > |sorted[|sorted| - 1].path| {
      var init, last := sorted[..|sorted| - 1], sorted[|sorted| - 1];
      InsertSorts(init, e);
      InsertedAbove(init, e, |last.path|);
      AppendDescends(Insert(init, e), last);
    } else {
      AppendDescends(sorted, e);
    }
  }

  lemma AppendDescends(sorted: seq<Entry>, e: Entry)
    requires Descending(sorted) && (sorted == [] || forall i :: 0 <= i < |sorted| ==> |e.path| <= |sorted[i].path|)
    ensures Descending(sorted + [e])
  {
  }

  lemma {:induction false} InsertedAbove(sorted: seq<Entry>, e: Entry, least: nat)
    requires least <= |e.path| && forall i :: 0 <= i < |sorted| ==> least <= |sorted[i].path|
    ensures forall i :: 0 <= i < |Insert(sorted, e)| ==> least <= |Insert(sorted, e)[i].path|
  {
    if sorted != [] && |e.path| > |sorted[|sorted| - 1].path| {
      InsertedAbove(sorted[..|sorted| - 1], e, least);
    }
  }

  lemma {:induction false} InsertDistinct(sorted: seq<Entry>, e: Entry)
    requires Distinct(sorted) && e !in sorted
    ensures Distinct(Insert(sorted, e)) && forall x :: x in Insert(sorted, e) <==> x in sorted || x == e
  {
    if sorted != [] && |e.path| > |sorted[|sorted| - 1].path| {
      var init, last := sorted[..|sorted| - 1], sorted[|sorted| - 1];
      InsertDistinct(init, e);
      assert sorted == init + [last] && last !in init;
      DistinctConcat(Insert(init, e), [last]);
    } else {
      DistinctConcat(sorted, [e]);
    }
  }

  lemma {:induction false} SortSorts(entries: seq<Entry>)
    ensures Descending(LongestFirst(entries)) && multiset(LongestFirst(entries)) == multiset(entries)
  {
    if entries != [] {
      SortSorts(entries[..|entries| - 1]);
      InsertSorts(LongestFirst(entries[..|entries| - 1]), entries[|entries| - 1]);
      InsertPermutes(LongestFirst(entries[..|entries| - 1]), entries[|entries| - 1]);
      assert entries == entries[..|entries| - 1] + [entries[|entries| - 1]];
    }
  }

  lemma {:induction false} SortDistinct(entries: seq<Entry>)
    requires Distinct(entries)
    ensures Distinct(LongestFirst(entries)) && forall x :: x in LongestFirst(entries) <==> x in entries
  {
    if entries != [] {
      SortDistinct(entries[..|entries| - 1]);
      assert entries == entries[..|entries| - 1] + [entries[|entries| - 1]];
      InsertDistinct(LongestFirst(entries[..|entries| - 1]), entries[|entries| - 1]);
    }
  }

  /** After any number of turns the payload is as `Placed` says. */
  lemma {:induction false} RestoreRun(env: Env, m: Value, sorted: seq<Entry>, n: nat)
    requires m.Model? && Records(env, m, [], sorted) && Distinct(sorted) && Descending(sorted) && n <= |sorted|
    ensures RestoredAll(env, Dumped(m), sorted[..n]) == Placed(env, m, [], Paths(sorted[..n]))
    ensures n < |sorted| ==> AncestorsWait([], sorted[n].path, Paths(sorted[..n])) && sorted[n].path !in Paths(sorted[..n])
  {
    hide UnionAt, ClassAt, Dumped, Placed, RestoredAt;
    if n > 0 {
      RestoreRun(env, m, sorted, n - 1);
      var e := sorted[n - 1];
      assert sorted[..n][..n - 1] == sorted[..n - 1] && e in sorted;
      assert e.path[0..] == e.path && [] + e.path == e.path;
      Turn(env, m, [], e.path, Paths(sorted[..n - 1]));
      PathsGrow(sorted, n);
    } else {
      PlacedFresh(env, m, []);
      assert Paths(sorted[..0]) == {};
    }
    if n < |sorted| {
      TurnIsReady(env, m, sorted, n);
    }
  }

  lemma PathsGrow(sorted: seq<Entry>, n: nat)
    requires 0 < n <= |sorted|
    ensures Paths(sorted[..n]) == Paths(sorted[..n - 1]) + {sorted[n - 1].path}
  {
    assert sorted[..n] == sorted[..n - 1] + [sorted[n - 1]];
  }

  lemma TurnIsReady(env: Env, m: Value, sorted: seq<Entry>, n: nat)
    requires m.Model? && Records(env, m, [], sorted) && Distinct(sorted) && Descending(sorted) && n < |sorted|
    ensures AncestorsWait([], sorted[n].path, Paths(sorted[..n])) && sorted[n].path !in Paths(sorted[..n])
  {
    hide UnionAt, ClassAt;
    var q := sorted[n].path;
    forall p | p in Paths(sorted[..n]) ensures |q| <= |p| && p != q {
      var i :| 0 <= i < n && sorted[i].path == p;
      assert sorted[i] in sorted && sorted[n] in sorted && p[0..] == p && q[0..] == q;
    }
    forall k | 0 < k < |q| ensures [] + q[..k] !in Paths(sorted[..n]) {
      assert |[] + q[..k]| == k;
    }
  }

  // ---- the outcome -----------------------------------------------------------------------------------------

  /** The payload with every union model in place and every other model still a dictionary. */
  ghost function Final(env: Env, v: Value): Value
    requires v.Model?
    ensures Final(env, v).Dict?
    decreases v, 1
  {
    Dict(map f | f in v.fields :: FinalField(env, v, f))
  }

  ghost function FinalField(env: Env, v: Value, f: string): Value
    requires v.Model? && f in v.fields
    decreases v, 0
  {
    var w := v.fields[f];
    if !w.Model? then Dumped(w)
    else if Recorded(env, v.cls, f) then Construct(env, w.cls, Final(env, w))
    else Final(env, w)
  }

  lemma {:induction false} PlacedAll(env: Env, v: Value, path: Path, done: set<Path>)
    requires v.Model? && forall q :: q != [] ==> (UnionAt(env, v, q) <==> path + q in done)
    ensures Placed(env, v, path, done) == Final(env, v)
  {
    hide Construct, Dumped;
    forall f | f in v.fields ensures PlacedField(env, v, path, done, f) == FinalField(env, v, f) {
      var w := v.fields[f];
      if w.Model? {
        assert UnionAt(env, v, [f]) <==> Recorded(env, v.cls, f);
        forall q | q != [] ensures UnionAt(env, w, q) <==> path + [f] + q in done {
          assert path + [f] + q == path + ([f] + q);
          assert ([f] + q)[1..] == q;
          assert UnionAt(env, v, [f] + q) <==> UnionAt(env, w, q);
        }
        PlacedAll(env, w, path + [f], done);
      }
    }
  }

  /** Deepest-first restoration is complete: every union model is rebuilt with its own class around the
      union models below it, and no other position changes. */
  lemma RestoreComplete(env: Env, m: Value)
    requires m.Model? && Typed(env, m)
    ensures RestoredAll(env, Dumped(m), LongestFirst(Collect(env, m, []))) == Final(env, m)
  {
    hide Dumped, RestoredAll, Collect, LongestFirst, UnionAt, ClassAt, Placed, Final, Typed;
    var entries := Collect(env, m, []);
    var sorted := LongestFirst(entries);
    CollectRecords(env, m, []);
    SortSorts(entries);
    SortDistinct(entries);
    assert sorted[..|sorted|] == sorted;
    RestoreRun(env, m, sorted, |sorted|);
    forall q | q != [] ensures UnionAt(env, m, q) <==> [] + q in Paths(sorted) {
      assert [] + q == q && q[0..] == q;
      if UnionAt(env, m, q) {
        assert Entry([] + q, Some(ClassAt(env, m, q))) in sorted;
      }
    }
    PlacedAll(env, m, [], Paths(sorted));
  }

  // ---- load after dump --------------------------------------------------------------------------------------

  ghost predicate NoModels(v: Value) {
    match v
    case Model(_, _) => false
    case Dict(fields) => forall f :: f in fields ==> NoModels(fields[f])
    case List(items) => forall i :: 0 <= i < |items| ==> NoModels(items[i])
    case _ => true
  }

  /** The value comes back from its dump alone, without a recorded class: models are of their declared
      classes, and a union gives back what it is given the dump of. */
  ghost predicate Stays(env: Env, kind: Kind, w: Value)
    decreases w
  {
    match w
    case Null => true
    case Leaf(_) => true
    case Model(cls, fields) =>
      (match kind
       case Declared(d) => cls == d && forall f :: f in fields ==> Stays(env, KindOf(env, cls, f), fields[f])
       case UnionOf(text) => env.guess(text, Dumped(w)) == w
       case _ => false)
    case List(items) =>
      (match kind
       case UnionOf(text) => env.guess(text, Dumped(w)) == w
       case ListOf(item) => forall i :: 0 <= i < |items| ==> Stays(env, item, items[i])
       case _ => NoModels(w))
    case Dict(fields) =>
      (match kind
       case Declared(_) => false
       case UnionOf(text) => env.guess(text, Dumped(w)) == w
       case DictOf(item) => forall f :: f in fields ==> Stays(env, item, fields[f])
       case _ => NoModels(w))
  }

  /** A model that comes back: below it, a model held by a union field is itself faithful, whatever the
      union would pick; one held by another field is of the declared class and faithful; any other value
      comes back from its dump alone. */
  ghost predicate Faithful(env: Env, v: Value)
    decreases v, 1
  {
    v.Model? ==> forall f :: f in v.fields ==> FaithfulField(env, v, f)
  }

  ghost predicate FaithfulField(env: Env, v: Value, f: string)
    requires v.Model? && f in v.fields
    decreases v, 0
  {
    var kind, w := KindOf(env, v.cls, f), v.fields[f];
    if !w.Model? then Stays(env, kind, w)
    else (Recorded(env, v.cls, f) || kind == Declared(w.cls)) && Faithful(env, w)
  }

  lemma {:induction false} DumpedIsPlain(v: Value)
    ensures Dumped(v) == v <==> NoModels(v)
  {
    match v
    case Dict(fields) =>
      forall f | f in fields ensures Dumped(fields[f]) == fields[f] <==> NoModels(fields[f]) {
        DumpedIsPlain(fields[f]);
      }
      if NoModels(v) {
        assert Dumped(v).fields == fields;
      }
    case List(items) =>
      forall i | 0 <= i < |items| ensures Dumped(items[i]) == items[i] <==> NoModels(items[i]) {
        DumpedIsPlain(items[i]);
      }
      if NoModels(v) {
        assert Dumped(v).items == items;
      }
    case _ =>
  }

  /** When a value comes back from its dump alone. */
  lemma {:induction false} StaysExactly(env: Env, kind: Kind, w: Value)
    requires Typed(env, w)
    ensures Validated(env, kind, Dumped(w)) == w <==> Stays(env, kind, w)
    decreases w
  {
    DumpedIsPlain(w);
    match w
    case Model(cls, fields) =>
      if kind.Declared? && kind.cls == cls {
        ModelStays(env, w);
      }
    case List(items) =>
      if kind.ListOf? {
        forall i | 0 <= i < |items|
          ensures Validated(env, kind.item, Dumped(items[i])) == items[i] <==> Stays(env, kind.item, items[i])
        {
          StaysExactly(env, kind.item, items[i]);
        }
        ItemsStay(env, kind.item, w);
      }
    case Dict(fields) =>
      if kind.DictOf? {
        forall f | f in fields
          ensures Validated(env, kind.item, Dumped(fields[f])) == fields[f] <==> Stays(env, kind.item, fields[f])
        {
          StaysExactly(env, kind.item, fields[f]);
        }
        EntriesStay(env, kind.item, w);
      }
    case _ =>
  }

  lemma ItemsStay(env: Env, item: Kind, w: Value)
    requires w.List?
    requires forall i :: 0 <= i < |w.items| ==>
      (Validated(env, item, Dumped(w.items[i])) == w.items[i] <==> Stays(env, item, w.items[i]))
    ensures Validated(env, ListOf(item), Dumped(w)) == w <==> forall i :: 0 <= i < |w.items| ==> Stays(env, item, w.items[i])
  {
    hide Stays;
    var back := Validated(env, ListOf(item), Dumped(w));
    assert |back.items| == |w.items|;
    assert forall i :: 0 <= i < |w.items| ==> back.items[i] == Validated(env, item, Dumped(w.items[i]));
    if forall i :: 0 <= i < |w.items| ==> Stays(env, item, w.items[i]) {
      assert back.items == w.items;
    }
  }

  lemma EntriesStay(env: Env, item: Kind, w: Value)
    requires w.Dict?
    requires forall f :: f in w.fields ==>
      (Validated(env, item, Dumped(w.fields[f])) == w.fields[f] <==> Stays(env, item, w.fields[f]))
    ensures Validated(env, DictOf(item), Dumped(w)) == w <==> forall f :: f in w.fields ==> Stays(env, item, w.fields[f])
  {
    hide Stays;
    var back := Validated(env, DictOf(item), Dumped(w));
    assert forall f :: f in w.fields ==> f in back.fields && back.fields[f] == Validated(env, item, Dumped(w.fields[f]));
    if forall f :: f in w.fields ==> Stays(env, item, w.fields[f]) {
      assert back.fields == w.fields;
    }
  }

  lemma {:induction false} ModelStays(env: Env, w: Value)
    requires w.Model? && Typed(env, w)
    ensures Construct(env, w.cls, Dumped(w)) == w
       <==> forall f :: f in w.fields ==> Stays(env, KindOf(env, w.cls, f), w.fields[f])
    decreases w, 0
  {
    hide Stays, Validated;
    var back := Construct(env, w.cls, Dumped(w));
    forall f | f in w.fields
      ensures back.fields[f] == w.fields[f] <==> Stays(env, KindOf(env, w.cls, f), w.fields[f])
    {
      StaysExactly(env, KindOf(env, w.cls, f), w.fields[f]);
    }
    if forall f :: f in w.fields ==> Stays(env, KindOf(env, w.cls, f), w.fields[f]) {
      assert back.fields == w.fields;
    }
  }

  lemma {:induction false} RebuiltExactly(env: Env, v: Value)
    requires v.Model? && Typed(env, v)
    ensures Construct(env, v.cls, Final(env, v)) == v <==> Faithful(env, v)
    decreases v, 1
  {
    hide FinalField, FaithfulField, Validated;
    var built := Construct(env, v.cls, Final(env, v));
    forall f | f in v.fields ensures built.fields[f] == v.fields[f] <==> FaithfulField(env, v, f) {
      FieldRebuilt(env, v, f);
    }
    if Faithful(env, v) {
      assert built.fields == v.fields;
    }
  }

  lemma {:induction false} ModelFieldRebuilt(env: Env, v: Value, f: string)
    requires v.Model? && Typed(env, v) && f in v.fields && v.fields[f].Model?
    ensures Validated(env, KindOf(env, v.cls, f), FinalField(env, v, f)) == v.fields[f] <==> FaithfulField(env, v, f)
    decreases v, 0, 0
  {
    hide Faithful, Final, Stays;
    RebuiltExactly(env, v.fields[f]);
  }

  lemma {:induction false} FieldRebuilt(env: Env, v: Value, f: string)
    requires v.Model? && Typed(env, v) && f in v.fields
    ensures Validated(env, KindOf(env, v.cls, f), FinalField(env, v, f)) == v.fields[f] <==> FaithfulField(env, v, f)
    decreases v, 0
  {
    var w := v.fields[f];
    if w.Model? {
      ModelFieldRebuilt(env, v, f);
    } else {
      hide Validated, Stays, Dumped;
      StaysExactly(env, KindOf(env, v.cls, f), w);
    }
  }

  /** `load` of what `dump` wrote. */
  ghost function LoadDumped(env: Env, m: Value): Value
    requires m.Model? && Typed(env, m)
  {
    RestoreComplete(env, m);
    Construct(env, m.cls, RestoredAll(env, Dumped(m), LongestFirst(Collect(env, m, []))))
  }

  /** A model comes back from the cache unchanged exactly when it is faithful to its declarations. */
  lemma RoundTripExactly(env: Env, m: Value)
    requires m.Model? && Typed(env, m)
    ensures LoadDumped(env, m) == m <==> Faithful(env, m)
  {
    hide Construct, RestoredAll, LongestFirst, Collect, Dumped, Final, Faithful, Typed;
    RestoreComplete(env, m);
    RebuiltExactly(env, m);
  }

  /** In every run, at every turn, the walk to the recorded position meets dictionaries only. */
  lemma EveryWalkArrives(env: Env, m: Value, n: nat, k: nat)
    requires m.Model? && Typed(env, m)
    requires n < |LongestFirst(Collect(env, m, []))| && k < |LongestFirst(Collect(env, m, []))[n].path|
    ensures var sorted := LongestFirst(Collect(env, m, []));
            Walk(RestoredAll(env, Dumped(m), sorted[..n]), sorted[n].path[..k]).Dict?
  {
    hide Collect, LongestFirst, RestoredAll, Dumped, Placed, Walk, UnionAt, ClassAt, Typed;
    var sorted := LongestFirst(Collect(env, m, []));
    CollectRecords(env, m, []);
    SortSorts(Collect(env, m, []));
    SortDistinct(Collect(env, m, []));
    RestoreRun(env, m, sorted, n);
    assert sorted[n] in sorted && sorted[n].path[0..] == sorted[n].path;
    AncestorsAreDicts(env, m, [], sorted[n].path, Paths(sorted[..n]), k);
  }

  /** An instance of a subclass in a field declared as the base class comes back as the base class. */
  lemma SubclassIsLost(guess: (string, Value) -> Value, absent: (string, string) -> Value)
    ensures var none := ClassDef([], map[], {});
            var env := Env(map["A" := ClassDef(["x"], map["x" := Declared("B")], {}), "B" := none, "C" := none], guess, absent);
            var m := Model("A", map["x" := Model("C", map[])]);
            Typed(env, m) && LoadDumped(env, m) != m
  {
    var none := ClassDef([], map[], {});
    var env := Env(map["A" := ClassDef(["x"], map["x" := Declared("B")], {}), "B" := none, "C" := none], guess, absent);
    var m := Model("A", map["x" := Model("C", map[])]);
    assert "A"[0] != "B"[0] && "B"[0] != "C"[0] && "A"[0] != "C"[0];
    assert env.classes["C"] == none && "x" in env.classes["A"].order;
    assert Typed(env, m.fields["x"]);
    assert Typed(env, m);
    assert !FaithfulField(env, m, "x");
    RoundTripExactly(env, m);
  }

  /** A list of unions is not recorded: where the union picks another class for the dump of an item, the
      item comes back as that class. */
  lemma ListItemIsLost(absent: (string, string) -> Value)
    ensures var none := ClassDef([], map[], {});
            var env := Env(map["T" := ClassDef(["x"], map["x" := ListOf(UnionOf("A | B"))], {}), "A" := none, "B" := none],
                           (text, w) => Model("A", map[]), absent);
            var m := Model("T", map["x" := List([Model("B", map[])])]);
            Typed(env, m) && LoadDumped(env, m) != m
  {
    var none := ClassDef([], map[], {});
    var env := Env(map["T" := ClassDef(["x"], map["x" := ListOf(UnionOf("A | B"))], {}), "A" := none, "B" := none],
                   (text, w) => Model("A", map[]), absent);
    var item := Model("B", map[]);
    var m := Model("T", map["x" := List([item])]);
    assert "A"[0] != "B"[0] && "B"[0] != "T"[0] && "A"[0] != "T"[0];
    assert env.classes["B"] == none && "x" in env.classes["T"].order;
    assert Typed(env, item);
    assert Typed(env, m.fields["x"]);
    assert Typed(env, m);
    assert !Stays(env, UnionOf("A | B"), item);
    assert m.fields["x"].items[0] == item;
    assert !Stays(env, ListOf(UnionOf("A | B")), m.fields["x"]);
    assert !FaithfulField(env, m, "x");
    RoundTripExactly(env, m);
  }
}
