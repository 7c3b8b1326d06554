/** From the observed tree to the structure model and its schema, and what the schema says
    about the document (core/metadata/json_structure.py). */
module JsonSchema {
  import opened JsonInvariants
  import opened JsonObservation
  import opened JsonPath
  import opened Options
  import opened Text

  // ---- structure nodes -----------------------------------------------------------

  datatype StructureNode = StructureNode(
    name: string,
    path: string,
    displayPath: string,
    kind: Kind,
    required: bool,
    nullable: bool,
    occurrences: nat,
    kinds: seq<Kind>,
    objectKeys: seq<string>,
    children: seq<StructureNode>,
    itemKind: Option<Kind>,
    minItems: Option<nat>,
    maxItems: Option<nat>,
    sampled: Option<nat>,
    examples: seq<Json>)

  /** All kinds in the alphabetical order of their names. */
  const ALPHABETICAL := [ARRAY, BOOLEAN, INTEGER, NULL, NUMBER, OBJECT, STRING, UNION, UNKNOWN]

  function FilterKinds(order: seq<Kind>, kinds: set<Kind>): seq<Kind> {
    if order == [] then []
    else (if order[0] in kinds then [order[0]] else []) + FilterKinds(order[1..], kinds)
  }

  function SortedKinds(kinds: set<Kind>): seq<Kind> {
    FilterKinds(ALPHABETICAL, kinds)
  }

  predicate IsScalar(kind: Kind) {
    kind !in {OBJECT, ARRAY, UNION}
  }

  function EffectiveKind(t: Observed): Kind {
    var sorted := SortedKinds(t.kinds - {NULL});
    if sorted == [] then NULL else if |sorted| == 1 then sorted[0] else UNION
  }

  ghost function Build(t: Observed, required: bool): StructureNode
    decreases t, 1, 0
  {
    var kind := EffectiveKind(t);
    var keys := if kind == OBJECT then Sorted(t.children.Keys - {ITEM}) else [];
    var hasItem := kind == ARRAY && ITEM in t.children;
    StructureNode(
      t.name,
      Machine(t.tokens),
      Display(t.tokens),
      kind,
      required,
      t.nulls > 0 || kind == NULL,
      t.occurrences,
      if kind == UNION then SortedKinds(t.kinds - {NULL}) else [],
      keys,
      if kind == OBJECT then BuildChildren(t, keys)
      else if hasItem then
        var item := t.children[ITEM];
        [Build(item, t.sampled > 0 && item.occurrences == t.sampled)]
      else [],
      if hasItem then Some(EffectiveKind(t.children[ITEM])) else if kind == ARRAY then Some(UNKNOWN) else None,
      if kind == ARRAY then t.minItems else None,
      if kind == ARRAY then t.maxItems else None,
      if kind == ARRAY then Some(t.sampled) else None,
      if kind == OBJECT || kind == ARRAY then [] else t.examples)
  }

  ghost function BuildChildren(t: Observed, keys: seq<string>): (nodes: seq<StructureNode>)
    requires forall k :: k in keys ==> k in t.children
    ensures |nodes| == |keys|
    decreases t, 0, |keys|
  {
    if keys == [] then []
    else
      var child := t.children[keys[|keys| - 1]];
      BuildChildren(t, keys[..|keys| - 1]) + [Build(child, t.objects > 0 && child.occurrences == t.objects)]
  }

  // ---- schemas ---------------------------------------------------------------------

  datatype Schema =
    | ObjectSchema(properties: map<string, Schema>, required: seq<string>, nullable: bool)
    | ArraySchema(items: Schema, minItems: Option<nat>, maxItems: Option<nat>, nullable: bool)
    | AnyOf(kinds: seq<Kind>, nullable: bool, examples: seq<Json>)
    | Type(kind: Kind, nullable: bool, examples: seq<Json>)

  function SchemaOf(node: StructureNode): Schema
    decreases node, 1, 0
  {
    match node.kind
    case OBJECT => ObjectSchema(Properties(node, |node.children|), RequiredNames(node.children), node.nullable)
    case ARRAY =>
      ArraySchema(if node.children != [] then SchemaOf(node.children[0]) else Type(UNKNOWN, false, []),
                  node.minItems, node.maxItems, node.nullable)
    case UNION => AnyOf(node.kinds, node.nullable, node.examples)
    case _ => Type(node.kind, node.nullable && node.kind != NULL, node.examples)
  }

  /** The `properties` comprehension over the first `n` children. */
  function Properties(node: StructureNode, n: nat): map<string, Schema>
    requires n <= |node.children|
    decreases node, 0, n
  {
    if n == 0 then map[]
    else
      var child := node.children[n - 1];
      var rest := Properties(node, n - 1);
      if child.name == ITEM then rest else rest[child.name := SchemaOf(child)]
  }

  function RequiredNames(children: seq<StructureNode>): seq<string> {
    if children == [] then []
    else
      var last := children[|children| - 1];
      RequiredNames(children[..|children| - 1])
      + if last.name != ITEM && last.required then [last.name] else []
  }

  ghost function SchemaFor(t: Observed, required: bool): Schema {
    SchemaOf(Build(t, required))
  }

  // ---- meaning -----------------------------------------------------------------------

  predicate HasKey(v: Json, k: string)
    requires v.Obj?
  {
    exists i :: 0 <= i < |v.fields| && v.fields[i].key == k
  }

  /** A document meets a schema. A key spelled `[]` is never listed in `properties`. */
  ghost predicate Conforms(v: Json, s: Schema)
    decreases s
  {
    match s
    case ObjectSchema(properties, required, nullable) =>
      || (v.Null? && nullable)
      || (&& v.Obj?
          && (forall i :: 0 <= i < |v.fields| && v.fields[i].key != ITEM ==>
                && v.fields[i].key in properties
                && Conforms(v.fields[i].value, properties[v.fields[i].key]))
          && forall k :: k in required ==> HasKey(v, k))
    case ArraySchema(items, minItems, maxItems, nullable) =>
      || (v.Null? && nullable)
      || (&& v.Arr?
          && (minItems.Some? ==> minItems.value <= |v.items|)
          && (maxItems.Some? ==> |v.items| <= maxItems.value)
          && forall i :: 0 <= i < |v.items| ==> Conforms(v.items[i], items))
    case AnyOf(kinds, nullable, _) => (v.Null? && nullable) || KindOf(v) in kinds
    case Type(kind, nullable, _) => (v.Null? && nullable) || KindOf(v) == kind
  }

  ghost predicate AllHave(vs: seq<Json>, k: string) {
    forall v :: v in vs && v.Obj? ==> HasKey(v, k)
  }

  ghost predicate OnlyKind(vs: seq<Json>, kind: Kind) {
    && (forall v :: v in vs ==> KindOf(v) == kind || v.Null?)
    && exists v :: v in vs && KindOf(v) == kind
  }

  /** The schema is the exact summary of the values `vs`: every listed key, bound, kind and
      null was there, and whatever was there is listed. */
  ghost predicate Describes(s: Schema, vs: seq<Json>)
    decreases s
  {
    match s
    case ObjectSchema(properties, required, nullable) =>
      && OnlyKind(vs, OBJECT)
      && (nullable <==> Null in vs)
      && (forall k :: k in properties <==> k != ITEM && Gathered(vs, k) != [])
      && (forall k :: k in required <==> k in properties && AllHave(vs, k))
      && forall k :: k in properties ==> Describes(properties[k], Gathered(vs, k))
    case ArraySchema(items, minItems, maxItems, nullable) =>
      && OnlyKind(vs, ARRAY)
      && (nullable <==> Null in vs)
      && IsMinItems(vs, minItems)
      && IsMaxItems(vs, maxItems)
      && if Gathered(vs, ITEM) == [] then items == Type(UNKNOWN, false, [])
         else Describes(items, Gathered(vs, ITEM))
    case AnyOf(kinds, nullable, examples) =>
      && |kinds| >= 2
      && (forall kind :: kind in kinds <==> kind != NULL && exists v :: v in vs && KindOf(v) == kind)
      && (nullable <==> Null in vs)
      && forall e :: e in examples ==> e in vs
    case Type(kind, nullable, examples) =>
      && IsScalar(kind)
      && OnlyKind(vs, kind)
      && (nullable <==> kind != NULL && Null in vs)
      && forall e :: e in examples ==> e in vs
  }

  // ---- an exact summary is met by every value it summarises ------------------------------

  lemma {:induction false} FieldValuesHold(v: Json, n: nat, i: nat)
    requires v.Obj? && i < n <= |v.fields|
    ensures v.fields[i].value in FieldValues(v, n, v.fields[i].key)
  {
    if i < n - 1 { FieldValuesHold(v, n - 1, i); }
  }

  lemma {:induction false} GatheredHold(vs: seq<Json>, v: Json, k: string, x: Json)
    requires v in vs && x in Below(v, k)
    ensures x in Gathered(vs, k)
  {
    if vs[|vs| - 1] != v { GatheredHold(vs[..|vs| - 1], v, k, x); }
  }

  lemma {:induction false} DescribedConforms(s: Schema, vs: seq<Json>, v: Json)
    requires Describes(s, vs) && v in vs
    ensures Conforms(v, s)
    decreases s
  {
    if s.ObjectSchema? && v.Obj? {
      forall i | 0 <= i < |v.fields| && v.fields[i].key != ITEM
        ensures v.fields[i].key in s.properties
             && Conforms(v.fields[i].value, s.properties[v.fields[i].key])
      {
        var k := v.fields[i].key;
        FieldValuesHold(v, |v.fields|, i);
        GatheredHold(vs, v, k, v.fields[i].value);
        DescribedConforms(s.properties[k], Gathered(vs, k), v.fields[i].value);
      }
    } else if s.ArraySchema? && v.Arr? {
      forall i | 0 <= i < |v.items| ensures Conforms(v.items[i], s.items) {
        assert v.items[i] in Below(v, ITEM);
        GatheredHold(vs, v, ITEM, v.items[i]);
        DescribedConforms(s.items, Gathered(vs, ITEM), v.items[i]);
      }
    }
  }

  // ---- counting decides "required" ---------------------------------------------------------

  lemma {:induction false} FieldCount(v: Json, n: nat, k: string)
    requires v.Obj? && n <= |v.fields| && WellFormed(v)
    ensures |FieldValues(v, n, k)| == if exists i :: 0 <= i < n && v.fields[i].key == k then 1 else 0
  {
    if n > 0 { FieldCount(v, n - 1, k); }
  }

  /** Over well-formed objects a key is counted once per object that has it, so it is counted
      as often as there are objects exactly when all of them have it. */
  lemma {:induction false} CountsDecide(vs: seq<Json>, k: string)
    requires k != ITEM && forall v :: v in vs ==> WellFormed(v)
    ensures |Gathered(vs, k)| <= Count(vs, OBJECT)
    ensures |Gathered(vs, k)| == Count(vs, OBJECT) <==> AllHave(vs, k)
  {
    if vs != [] {
      var init, last := vs[..|vs| - 1], vs[|vs| - 1];
      assert vs == init + [last];
      CountsDecide(init, k);
      if last.Obj? { FieldCount(last, |last.fields|, k); }
      assert AllHave(vs, k) <==> AllHave(init, k) && (last.Obj? ==> HasKey(last, k)) by {
        assert last in vs && forall v :: v in init ==> v in vs;
      }
    }
  }

  lemma {:induction false} ContainersCount(vs: seq<Json>)
    ensures Count(Containers(vs), OBJECT) == Count(vs, OBJECT)
  {
    if vs != [] {
      var init, last := vs[..|vs| - 1], vs[|vs| - 1];
      ContainersCount(init);
      if IsContainer(last) {
        CountSnoc(Containers(init), last, OBJECT);
      } else {
        assert Containers(vs) == Containers(init);
      }
    }
  }

  lemma {:induction false} ContainersMembers(vs: seq<Json>, v: Json)
    ensures v in Containers(vs) <==> v in vs && IsContainer(v)
  {
    if vs != [] {
      var init, last := vs[..|vs| - 1], vs[|vs| - 1];
      assert v in vs <==> v in init || v == last;
      ContainersMembers(init, v);
    }
  }

  lemma {:induction false} CountPositive(vs: seq<Json>, kind: Kind)
    ensures Count(vs, kind) > 0 <==> exists v :: v in vs && KindOf(v) == kind
  {
    if vs != [] {
      var init, last := vs[..|vs| - 1], vs[|vs| - 1];
      assert vs == init + [last];
      CountPositive(init, kind);
    }
  }

  lemma {:induction false} GatheredWellFormed(vs: seq<Json>, k: string)
    requires forall v :: v in vs ==> WellFormed(v)
    ensures forall v :: v in Gathered(vs, k) ==> WellFormed(v)
  {
    if vs != [] {
      GatheredWellFormed(vs[..|vs| - 1], k);
      var last := vs[|vs| - 1];
      assert last in vs;
      if last.Obj? { FieldsWellFormed(last, |last.fields|, k); }
    }
  }

  lemma {:induction false} FieldsWellFormed(v: Json, n: nat, k: string)
    requires v.Obj? && n <= |v.fields| && WellFormed(v)
    ensures forall x :: x in FieldValues(v, n, k) ==> WellFormed(x)
  {
    if n > 0 { FieldsWellFormed(v, n - 1, k); }
  }

  // ---- the built node ------------------------------------------------------------------

  lemma {:induction false} FilterKindsMembers(order: seq<Kind>, kinds: set<Kind>)
    ensures forall kind :: kind in FilterKinds(order, kinds) <==> kind in order && kind in kinds
  {
    if order != [] { FilterKindsMembers(order[1..], kinds); }
  }

  lemma SortedKindsMembers(kinds: set<Kind>)
    ensures forall kind :: kind in SortedKinds(kinds) <==> kind in kinds
  {
    FilterKindsMembers(ALPHABETICAL, kinds);
    forall kind: Kind ensures kind in ALPHABETICAL {
      match kind
      case ARRAY => assert ALPHABETICAL[0] == kind;
      case BOOLEAN => assert ALPHABETICAL[1] == kind;
      case INTEGER => assert ALPHABETICAL[2] == kind;
      case NULL => assert ALPHABETICAL[3] == kind;
      case NUMBER => assert ALPHABETICAL[4] == kind;
      case OBJECT => assert ALPHABETICAL[5] == kind;
      case STRING => assert ALPHABETICAL[6] == kind;
      case UNION => assert ALPHABETICAL[7] == kind;
      case UNKNOWN => assert ALPHABETICAL[8] == kind;
    }
  }

  lemma EffectiveKindMeaning(t: Observed)
    requires Tallied(t) && t.seen != []
    ensures EffectiveKind(t) != UNION ==> OnlyKind(t.seen, EffectiveKind(t))
    ensures EffectiveKind(t) == UNION ==>
      && |SortedKinds(t.kinds - {NULL})| >= 2
      && forall kind :: kind in SortedKinds(t.kinds - {NULL}) <==>
           kind != NULL && exists v :: v in t.seen && KindOf(v) == kind
    ensures EffectiveKind(t) != UNKNOWN
  {
    hide SortedKinds, Count, IsMinItems, IsMaxItems;
    var sorted := SortedKinds(t.kinds - {NULL});
    SortedKindsMembers(t.kinds - {NULL});
    if sorted == [] {
      forall v | v in t.seen ensures KindOf(v) == NULL {
        assert KindOf(v) !in sorted;
      }
      assert t.seen[0] in t.seen;
    } else if |sorted| == 1 {
      assert sorted[0] in sorted;
      forall v | v in t.seen ensures KindOf(v) == sorted[0] || v.Null? {
        if KindOf(v) != NULL { assert KindOf(v) in sorted; }
      }
    }
  }

  lemma {:induction false} BuildChildrenAt(t: Observed, keys: seq<string>, i: nat)
    requires (forall k :: k in keys ==> k in t.children) && i < |keys|
    ensures var child := t.children[keys[i]];
      BuildChildren(t, keys)[i] == Build(child, t.objects > 0 && child.occurrences == t.objects)
  {
    if i < |keys| - 1 { BuildChildrenAt(t, keys[..|keys| - 1], i); }
  }

  lemma {:induction false} PropertiesAre(node: StructureNode, n: nat)
    requires n <= |node.children|
    requires forall i, j :: 0 <= i < j < n ==> node.children[i].name != node.children[j].name
    ensures forall k :: k in Properties(node, n) <==>
      k != ITEM && exists i :: 0 <= i < n && node.children[i].name == k
    ensures forall i :: 0 <= i < n && node.children[i].name != ITEM ==>
      && node.children[i].name in Properties(node, n)
      && Properties(node, n)[node.children[i].name] == SchemaOf(node.children[i])
  {
    if n > 0 {
      PropertiesAre(node, n - 1);
      var name := node.children[n - 1].name;
      forall i | 0 <= i < n && node.children[i].name != ITEM
        ensures node.children[i].name in Properties(node, n)
             && Properties(node, n)[node.children[i].name] == SchemaOf(node.children[i])
      {
        if i < n - 1 { assert node.children[i].name != name; }
      }
    }
  }

  lemma {:induction false} RequiredNamesAre(children: seq<StructureNode>)
    ensures forall k :: k in RequiredNames(children) <==>
      exists i :: 0 <= i < |children| && children[i].name == k && k != ITEM && children[i].required
  {
    if children != [] {
      var init := children[..|children| - 1];
      RequiredNamesAre(init);
      forall k ensures k in RequiredNames(children) <==>
        exists i :: 0 <= i < |children| && children[i].name == k && k != ITEM && children[i].required
      {
        if k in RequiredNames(init) {
          var i :| 0 <= i < |init| && init[i].name == k && k != ITEM && init[i].required;
          assert children[i] == init[i];
        }
        if i :| 0 <= i < |children| && children[i].name == k && k != ITEM && children[i].required {
          if i < |init| { assert init[i] == children[i]; }
        }
      }
    }
  }

  ghost function BuiltChild(t: Observed, k: string): StructureNode
    requires k in t.children
  {
    Build(t.children[k], t.objects > 0 && t.children[k].occurrences == t.objects)
  }

  /** The children of an object node, in key order. */
  lemma BuiltChildren(t: Observed, required: bool)
    requires EffectiveKind(t) == OBJECT && Truthful(t)
    ensures var node := Build(t, required);
      && node.kind == OBJECT
      && node.nullable == (t.nulls > 0)
      && |node.objectKeys| == |node.children|
      && Ascending(node.objectKeys)
      && (forall k :: k in node.objectKeys <==> k != ITEM && k in t.children)
      && forall i :: 0 <= i < |node.children| ==>
           && node.children[i].name == node.objectKeys[i]
           && node.children[i] == BuiltChild(t, node.objectKeys[i])
  {
    hide Truthful, EffectiveKind, BuildChildren, Machine, Display, SortedKinds;
    var keys := Sorted(t.children.Keys - {ITEM});
    forall i | 0 <= i < |keys|
      ensures keys[i] in t.children
      ensures BuildChildren(t, keys)[i] == BuiltChild(t, keys[i]) && BuiltChild(t, keys[i]).name == keys[i]
    {
      assert keys[i] in keys;
      BuildChildrenAt(t, keys, i);
      BuiltName(t, keys[i]);
    }
  }

  lemma BuiltName(t: Observed, k: string)
    requires Truthful(t) && k in t.children
    ensures BuiltChild(t, k).name == k
  {
    hide Tallied;
    assert Named(t.children[k], t.tokens, k);
  }

  /** The object schema of a tree, key by key. */
  lemma ObjectSchemaOf(t: Observed, required: bool)
    requires EffectiveKind(t) == OBJECT && Truthful(t)
    ensures var s := SchemaFor(t, required);
      && s.ObjectSchema?
      && s.nullable == (t.nulls > 0)
      && (forall k :: k in s.properties <==> k != ITEM && k in t.children)
      && (forall k :: k in s.properties ==> s.properties[k] == SchemaOf(BuiltChild(t, k)))
      && (forall k :: k in s.required <==> k != ITEM && k in t.children && BuiltChild(t, k).required)
  {
    BuiltChildren(t, required);
    hide Truthful, Build, EffectiveKind, Ascending;
    KeyedChildren(t, Build(t, required));
  }

  lemma KeyedChildren(t: Observed, node: StructureNode)
    requires node.kind == OBJECT && |node.objectKeys| == |node.children|
    requires forall i, j :: 0 <= i < j < |node.objectKeys| ==> node.objectKeys[i] != node.objectKeys[j]
    requires forall k :: k in node.objectKeys <==> k != ITEM && k in t.children
    requires forall i :: 0 <= i < |node.children| ==>
      && node.children[i].name == node.objectKeys[i]
      && node.children[i] == BuiltChild(t, node.objectKeys[i])
    ensures var s := SchemaOf(node);
      && (forall k :: k in s.properties <==> k != ITEM && k in t.children)
      && (forall k :: k in s.properties ==> s.properties[k] == SchemaOf(BuiltChild(t, k)))
      && (forall k :: k in s.required <==> k != ITEM && k in t.children && BuiltChild(t, k).required)
  {
    hide Build;
    PropertiesAre(node, |node.children|);
    RequiredNamesAre(node.children);
    forall k | k != ITEM && k in t.children
      ensures exists i :: 0 <= i < |node.children| && node.objectKeys[i] == k
                       && node.children[i].name == k && node.children[i] == BuiltChild(t, k)
    {
      assert k in node.objectKeys;
    }
  }

  // ---- the theorem ----------------------------------------------------------------------

  lemma NullsMeaning(t: Observed)
    requires Tallied(t)
    ensures t.nulls > 0 <==> Null in t.seen
  {
    CountPositive(t.seen, NULL);
  }

  /** Without truncation the schema of a tree is the exact summary of what the tree was shown. */
  lemma {:induction false} SchemaDescribes(t: Observed, required: bool)
    requires Truthful(t) && Complete(t) && t.seen != []
    requires forall v :: v in t.seen ==> WellFormed(v)
    ensures Describes(SchemaFor(t, required), t.seen)
    decreases t
  {
    EffectiveKindMeaning(t);
    NullsMeaning(t);
    match EffectiveKind(t)
    case OBJECT => ObjectDescribes(t, required);
    case ARRAY => ArrayDescribes(t, required);
    case _ =>
  }

  lemma {:induction false} ObjectDescribes(t: Observed, required: bool)
    requires Truthful(t) && Complete(t) && t.seen != []
    requires forall v :: v in t.seen ==> WellFormed(v)
    requires EffectiveKind(t) == OBJECT && OnlyKind(t.seen, OBJECT) && (t.nulls > 0 <==> Null in t.seen)
    ensures Describes(SchemaFor(t, required), t.seen)
    decreases t, 0
  {
    ObjectSchemaOf(t, required);
    var s := SchemaFor(t, required);
    ContainersCount(t.seen);
    CountPositive(t.seen, OBJECT);
    forall k | k in s.properties
      ensures Describes(s.properties[k], Gathered(t.seen, k))
      ensures k in s.required <==> AllHave(t.seen, k)
    {
      var child := t.children[k];
      assert SchemaFor(child, t.objects > 0 && child.occurrences == t.objects) == s.properties[k];
      GatheredWellFormed(t.seen, k);
      SchemaDescribes(child, t.objects > 0 && child.occurrences == t.objects);
      CountsDecide(t.seen, k);
    }
  }

  lemma {:induction false} ArrayDescribes(t: Observed, required: bool)
    requires Truthful(t) && Complete(t) && t.seen != []
    requires forall v :: v in t.seen ==> WellFormed(v)
    requires EffectiveKind(t) == ARRAY && OnlyKind(t.seen, ARRAY) && (t.nulls > 0 <==> Null in t.seen)
    ensures Describes(SchemaFor(t, required), t.seen)
    decreases t, 0
  {
    hide SchemaFor, EffectiveKind;
    ArrayBounds(t);
    ArraySchemaOf(t, required);
    if ITEM in t.children {
      GatheredWellFormed(t.seen, ITEM);
      SchemaDescribes(t.children[ITEM], ItemRequired(t));
    }
  }

  ghost predicate ItemRequired(t: Observed) {
    ITEM in t.children && t.sampled > 0 && t.children[ITEM].occurrences == t.sampled
  }

  lemma ArraySchemaOf(t: Observed, required: bool)
    requires EffectiveKind(t) == ARRAY
    ensures SchemaFor(t, required) == ArraySchema(
      if ITEM in t.children then SchemaFor(t.children[ITEM], ItemRequired(t)) else Type(UNKNOWN, false, []),
      t.minItems, t.maxItems, t.nulls > 0)
  {
  }

  lemma ArrayBounds(t: Observed)
    requires Tallied(t) && t.expanded == Containers(t.seen)
    ensures IsMinItems(t.seen, t.minItems) && IsMaxItems(t.seen, t.maxItems)
  {
    forall v ensures v in t.expanded <==> v in t.seen && IsContainer(v) {
      ContainersMembers(t.seen, v);
    }
  }

  /** Soundness of inference: unless it reports truncation, the inferred schema is the exact
      summary of the document, and the document meets it at every depth. */
  lemma InferenceSound(v: Json, limits: Limits)
    requires WellFormed(v)
    ensures var (t, b) := ObserveRoot(v, limits);
      !b.truncated ==> Describes(SchemaFor(t, true), [v]) && Conforms(v, SchemaFor(t, true))
  {
    ObserveRootInvariants(v, limits);
    var (t, b) := ObserveRoot(v, limits);
    if !b.truncated {
      SchemaDescribes(t, true);
      DescribedConforms(SchemaFor(t, true), [v], v);
    }
  }

  // ---- what holds even when truncated -----------------------------------------------------

  /** At every object node, a child flagged as required is present in every expanded object. */
  ghost predicate RequiredHolds(t: Observed)
  {
    && (EffectiveKind(t) == OBJECT ==>
          forall k :: k in SchemaFor(t, true).required ==> AllHave(t.expanded, k))
    && forall k :: k in t.children ==> RequiredHolds(t.children[k])
  }

  lemma {:induction false} RequiredAlwaysHolds(t: Observed)
    requires Truthful(t)
    requires forall v :: v in t.seen ==> WellFormed(v)
    ensures RequiredHolds(t)
  {
    if EffectiveKind(t) == OBJECT {
      ObjectSchemaOf(t, true);
      forall k | k in SchemaFor(t, true).required ensures AllHave(t.expanded, k) {
        CountsDecide(t.expanded, k);
        SubBag(t.children[k].seen, Gathered(t.expanded, k));
      }
    }
    forall k | k in t.children ensures RequiredHolds(t.children[k]) {
      GatheredWellFormed(t.expanded, k);
      forall v | v in t.children[k].seen ensures WellFormed(v) {
        assert v in multiset(t.children[k].seen);
      }
      RequiredAlwaysHolds(t.children[k]);
    }
  }

  lemma {:induction false} SubBag(a: seq<Json>, b: seq<Json>)
    requires multiset(a) <= multiset(b)
    ensures |a| <= |b|
  {
    assert |multiset(a)| <= |multiset(b)| by {
      assert multiset(b) == multiset(a) + (multiset(b) - multiset(a));
    }
  }

  /** Even under truncation, every property marked required at any path is present in every
      object whose contents were visited there. */
  lemma TruncatedRequiredHolds(v: Json, limits: Limits)
    requires WellFormed(v)
    ensures RequiredHolds(ObserveRoot(v, limits).0)
  {
    ObserveRootInvariants(v, limits);
    RequiredAlwaysHolds(ObserveRoot(v, limits).0);
  }
}
