/** What `_observe_value` records about a JSON document, as a function of the values it
    is shown (core/metadata/json_structure.py). The mutating observer that computes this
    function is in JsonObserver.dfy. */
module JsonObservation {
  import opened JsonPath
  import opened Options

  /** A value as `json_safe` returns it. Objects keep Python's insertion order. */
  datatype Json =
    | Null
    | Bool(b: bool)
    | Int(n: int)
    | Float(x: real)
    | Str(s: string)
    | Arr(items: seq<Json>)
    | Obj(fields: seq<Field>)

  datatype Field = Field(key: string, value: Json)

  datatype Kind = OBJECT | ARRAY | STRING | INTEGER | NUMBER | BOOLEAN | NULL | UNKNOWN | UNION

  datatype Limits = Limits(maxDepth: int, maxObjectChildren: int, maxArrayItems: int,
                           maxExamples: int, maxTotalNodes: int)

  /** `_InferenceState` without its limits. */
  datatype Budget = Budget(created: int, truncated: bool)

  /** An `_ObservedNode`. The last two fields are history: every value shown to the node, and
      the containers among them whose contents were visited. No decision reads them. */
  datatype Observed = Observed(
    name: string,
    tokens: seq<string>,
    occurrences: nat,
    nulls: nat,
    kinds: set<Kind>,
    examples: seq<Json>,
    children: map<string, Observed>,
    objects: nat,
    arrays: nat,
    minItems: Option<nat>,
    maxItems: Option<nat>,
    sampled: nat,
    seen: seq<Json>,
    expanded: seq<Json>)

  function Fresh(name: string, tokens: seq<string>): Observed {
    Observed(name, tokens, 0, 0, {}, [], map[], 0, 0, None, None, 0, [], [])
  }

  function KindOf(v: Json): Kind {
    match v
    case Null => NULL
    case Bool(_) => BOOLEAN
    case Int(_) => INTEGER
    case Float(_) => NUMBER
    case Str(_) => STRING
    case Obj(_) => OBJECT
    case Arr(_) => ARRAY
  }

  predicate IsContainer(v: Json) {
    v.Obj? || v.Arr?
  }

  /** `json_safe` builds dicts, so keys are distinct at every level. */
  predicate WellFormed(v: Json) {
    match v
    case Obj(fields) =>
      && (forall i, j :: 0 <= i < j < |fields| ==> fields[i].key != fields[j].key)
      && forall i :: 0 <= i < |fields| ==> WellFormed(fields[i].value)
    case Arr(items) => forall i :: 0 <= i < |items| ==> WellFormed(items[i])
    case _ => true
  }

  // ---- Python details --------------------------------------------------------

  /** How many elements `s[:limit]` keeps of a list of length `n`. */
  function Kept(n: nat, limit: int): (k: nat)
    ensures k <= n
    ensures n <= limit ==> k == n
  {
    if limit >= 0 then (if n <= limit then n else limit)
    else (if n + limit >= 0 then n + limit else 0)
  }

  /** The number a scalar stands for: Python's `==` identifies True with 1 and 1 with 1.0. */
  function Numeric(v: Json): Option<real> {
    match v
    case Bool(b) => Some(if b then 1.0 else 0.0)
    case Int(n) => Some(n as real)
    case Float(x) => Some(x)
    case _ => None
  }

  predicate PyEquals(a: Json, b: Json) {
    if Numeric(a).Some? && Numeric(b).Some? then Numeric(a) == Numeric(b) else a == b
  }

  function AddExample(examples: seq<Json>, v: Json, limit: int): seq<Json> {
    if (exists i :: 0 <= i < |examples| && PyEquals(examples[i], v)) || |examples| >= limit
    then examples
    else examples + [v]
  }

  // ---- observation -------------------------------------------------------------

  function Mark(b: Budget): Budget {
    b.(truncated := true)
  }

  /** The bookkeeping done before a value's contents are visited. */
  function Note(v: Json, t: Observed, limits: Limits): Observed {
    t.(occurrences := t.occurrences + 1,
       nulls := t.nulls + (if v.Null? then 1 else 0),
       kinds := t.kinds + {KindOf(v)},
       examples := if IsContainer(v) then t.examples else AddExample(t.examples, v, limits.maxExamples),
       seen := t.seen + [v])
  }

  function NoteObject(v: Json, t: Observed): Observed
    requires v.Obj?
  {
    t.(objects := t.objects + 1, expanded := t.expanded + [v])
  }

  function LeastItems(m: Option<nat>, n: nat): nat {
    if m.None? || n < m.value then n else m.value
  }

  function MostItems(m: Option<nat>, n: nat): nat {
    if m.None? || n > m.value then n else m.value
  }

  function NoteArray(v: Json, t: Observed, sample: nat): Observed
    requires v.Arr?
  {
    var n := |v.items|;
    t.(arrays := t.arrays + 1,
       minItems := Some(LeastItems(t.minItems, n)),
       maxItems := Some(MostItems(t.maxItems, n)),
       sampled := t.sampled + sample,
       expanded := t.expanded + [v])
  }

  /** `create_child`: the existing child, a fresh one if the budget allows it, or none. */
  function Child(t: Observed, token: string, limits: Limits, b: Budget): (Option<Observed>, Budget) {
    if token in t.children then (Some(t.children[token]), b)
    else if b.created >= limits.maxTotalNodes then (None, Mark(b))
    else (Some(Fresh(token, t.tokens + [token])), b.(created := b.created + 1))
  }

  function Observe(v: Json, t: Observed, depth: int, limits: Limits, b: Budget): (Observed, Budget)
    decreases v, 1, 0
  {
    var t1 := Note(v, t, limits);
    if !IsContainer(v) then (t1, b)
    else if depth >= limits.maxDepth then (t1, Mark(b))
    else if v.Obj? then ObserveObject(v, t1, depth, limits, b)
    else ObserveArray(v, t1, depth, limits, b)
  }

  function ObserveObject(v: Json, t: Observed, depth: int, limits: Limits, b: Budget): (Observed, Budget)
    requires v.Obj?
    decreases v, 0, |v.fields| + 2
  {
    var keep := Kept(|v.fields|, limits.maxObjectChildren);
    var b1 := if |v.fields| > limits.maxObjectChildren then Mark(b) else b;
    ObserveFields(v, keep, NoteObject(v, t), depth, limits, b1)
  }

  function ObserveArray(v: Json, t: Observed, depth: int, limits: Limits, b: Budget): (Observed, Budget)
    requires v.Arr?
    decreases v, 0, |v.items| + 2
  {
    var keep := Kept(|v.items|, limits.maxArrayItems);
    var b1 := if |v.items| > limits.maxArrayItems then Mark(b) else b;
    var t2 := NoteArray(v, t, keep);
    if keep == 0 then (t2, b1)
    else
      var (child, b2) := Child(t2, ITEM, limits, b1);
      if child.None? then (t2, b2)
      else
        var (c, b3) := ObserveItems(v, keep, child.value, depth, limits, b2);
        (t2.(children := t2.children[ITEM := c]), b3)
  }

  /** One round of the loop over an object's keys. */
  function ObserveField(v: Json, i: nat, t: Observed, depth: int, limits: Limits, b: Budget): (Observed, Budget)
    requires v.Obj? && i < |v.fields|
    decreases v, 0, 0
  {
    var (child, b1) := Child(t, v.fields[i].key, limits, b);
    if child.None? then (t, b1)
    else
      var (c, b2) := Observe(v.fields[i].value, child.value, depth + 1, limits, b1);
      (t.(children := t.children[v.fields[i].key := c]), b2)
  }

  /** The loop over the first `n` keys of an object. */
  function ObserveFields(v: Json, n: nat, t: Observed, depth: int, limits: Limits, b: Budget): (Observed, Budget)
    requires v.Obj? && n <= |v.fields|
    decreases v, 0, n + 1
  {
    if n == 0 then (t, b)
    else
      var (t1, b1) := ObserveFields(v, n - 1, t, depth, limits, b);
      ObserveField(v, n - 1, t1, depth, limits, b1)
  }

  /** The loop over the first `n` items of an array, all shown to the same child `c`. */
  function ObserveItems(v: Json, n: nat, c: Observed, depth: int, limits: Limits, b: Budget): (Observed, Budget)
    requires v.Arr? && n <= |v.items|
    decreases v, 0, n
  {
    if n == 0 then (c, b)
    else
      var (c1, b1) := ObserveItems(v, n - 1, c, depth, limits, b);
      Observe(v.items[n - 1], c1, depth + 1, limits, b1)
  }

  function Root(): Observed {
    Fresh("$", [])
  }

  function ObserveRoot(v: Json, limits: Limits): (Observed, Budget) {
    Observe(v, Root(), 0, limits, Budget(1, false))
  }
}
