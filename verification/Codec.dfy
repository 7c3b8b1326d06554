/** The tagged tree codec of the dump engine (core/dump_engine/codec.py:45-197). */
module Codec {
  import opened Options
  import opened Text

  datatype ClassRef = ClassRef(moduleName: string, qualname: string)

  /** The Python values the codec handles itself. */
  datatype Py =
    | PNone
    | PBool(b: bool)
    | PInt(n: int)
    | PFloat(x: real)
    | PStr(s: string)
    | PBytes(bytes: seq<int>)
    | PEnum(cls: ClassRef, member: string)
    | PData(cls: ClassRef, fields: map<string, Py>)
    | PList(items: seq<Py>)
    | PTuple(items: seq<Py>)
    | PSet(elems: set<Py>)
    | PFrozenSet(elems: set<Py>)
    | PDict(entries: seq<PEntry>)

  datatype PEntry = PEntry(key: Py, value: Py)

  /** The msgpack domain the codec writes into. */
  datatype Payload =
    | Nil
    | Bool(b: bool)
    | Int(n: int)
    | Float(x: real)
    | Str(s: string)
    | Bin(bytes: seq<int>)
    | Arr(items: seq<Payload>)
    | Map(fields: map<string, Payload>)

  /** A dataclass has fields, some of which its constructor takes as arguments (`init`) and some of
      which have a default. */
  datatype ClassDef =
    | EnumClass(members: set<string>)
    | DataClass(fieldNames: set<string>, init: set<string>, defaults: map<string, Py>)

  /** The classes that an import by module and qualified name finds, the dataclasses that are frozen, and
      the order in which Python happens to list a set. */
  datatype Env = Env(classes: map<ClassRef, ClassDef>, frozen: set<ClassRef>, order: set<Py> -> seq<Py>)

  // ---- Python equality and hashing -----------------------------------------------------------------

  function Numeric(v: Py): Option<real> {
    match v
    case PBool(b) => Some(if b then 1.0 else 0.0)
    case PInt(n) => Some(n as real)
    case PFloat(x) => Some(x)
    case _ => None
  }

  /** `==` as set members and dictionary keys use it. */
  ghost predicate KeyEq(a: Py, b: Py)
    decreases a
  {
    match (a, b)
    case (PTuple(x), PTuple(y)) => |x| == |y| && forall i :: 0 <= i < |x| ==> KeyEq(x[i], y[i])
    case (PFrozenSet(x), PFrozenSet(y)) =>
      && |x| == |y|
      && (forall e :: e in x ==> exists f :: f in y && KeyEq(e, f))
    case (PData(c, x), PData(d, y)) =>
      && c == d && x.Keys == y.Keys
      && (forall f :: f in x ==> KeyEq(x[f], y[f]))
    case _ => if Numeric(a).Some? && Numeric(b).Some? then Numeric(a) == Numeric(b) else a == b
  }

  predicate Hashable(env: Env, v: Py) {
    match v
    case PTuple(items) => forall i :: 0 <= i < |items| ==> Hashable(env, items[i])
    case PData(cls, fields) => cls in env.frozen && forall f :: f in fields ==> Hashable(env, fields[f])
    case PList(_) => false
    case PSet(_) => false
    case PDict(_) => false
    case _ => true
  }

  ghost predicate KeysApart(env: Env, keys: seq<Py>) {
    && (forall i :: 0 <= i < |keys| ==> Hashable(env, keys[i]))
    && forall i, j :: 0 <= i < j < |keys| ==> !KeyEq(keys[i], keys[j])
  }

  ghost predicate ElemsApart(env: Env, elems: set<Py>) {
    && (forall x :: x in elems ==> Hashable(env, x))
    && forall x, y :: x in elems && y in elems && x != y ==> !KeyEq(x, y)
  }

  function Keys(entries: seq<PEntry>): (keys: seq<Py>)
    ensures |keys| == |entries| && forall i :: 0 <= i < |keys| ==> keys[i] == entries[i].key
  {
    seq(|entries|, i requires 0 <= i < |entries| => entries[i].key)
  }

  /** A value that can exist: set members and dictionary keys are hashable and pairwise unequal, and
      an instance of an importable class is shaped as the class says. The name of an enum value need
      not be a member's: a combination of flags is named by its parts, as in `R|W`. */
  ghost predicate Exists(env: Env, v: Py) {
    match v
    case PEnum(cls, _) => cls in env.classes ==> env.classes[cls].EnumClass?
    case PData(cls, fields) =>
      && (cls in env.classes ==> env.classes[cls].DataClass? && env.classes[cls].fieldNames == fields.Keys)
      && forall f :: f in fields ==> Exists(env, fields[f])
    case PList(items) => forall i :: 0 <= i < |items| ==> Exists(env, items[i])
    case PTuple(items) => forall i :: 0 <= i < |items| ==> Exists(env, items[i])
    case PSet(elems) => ElemsApart(env, elems) && forall x :: x in elems ==> Exists(env, x)
    case PFrozenSet(elems) => ElemsApart(env, elems) && forall x :: x in elems ==> Exists(env, x)
    case PDict(entries) =>
      && KeysApart(env, Keys(entries))
      && forall i :: 0 <= i < |entries| ==> Exists(env, entries[i].key) && Exists(env, entries[i].value)
    case _ => true
  }

  /** A dataclass whose constructor takes every field, and needs no argument besides. */
  predicate AcceptsFields(def: ClassDef) {
    def.DataClass? && def.fieldNames <= def.init && def.init <= def.fieldNames + def.defaults.Keys
  }

  /** What the round trip asks of a value: every class in it can be imported by its name, every enum value
      has the name of a member, and every dataclass can be called with its fields. */
  ghost predicate Restorable(env: Env, v: Py) {
    match v
    case PEnum(cls, member) => cls in env.classes && env.classes[cls].EnumClass? && member in env.classes[cls].members
    case PData(cls, fields) =>
      && cls in env.classes && AcceptsFields(env.classes[cls])
      && forall f :: f in fields ==> Restorable(env, fields[f])
    case PList(items) => forall i :: 0 <= i < |items| ==> Restorable(env, items[i])
    case PTuple(items) => forall i :: 0 <= i < |items| ==> Restorable(env, items[i])
    case PSet(elems) => forall x :: x in elems ==> Restorable(env, x)
    case PFrozenSet(elems) => forall x :: x in elems ==> Restorable(env, x)
    case PDict(entries) =>
      forall i :: 0 <= i < |entries| ==> Restorable(env, entries[i].key) && Restorable(env, entries[i].value)
    case _ => true
  }

  // ---- listing a set ------------------------------------------------------------------------------------

  ghost predicate Lists(xs: seq<Py>, s: set<Py>) {
    (forall x :: x in xs <==> x in s) && forall i, j :: 0 <= i < j < |xs| ==> xs[i] != xs[j]
  }

  ghost function SomeListing(s: set<Py>): (xs: seq<Py>)
    ensures Lists(xs, s)
    decreases |s|
  {
    if s == {} then []
    else
      var x :| x in s;
      SomeListing(s - {x}) + [x]
  }

  ghost function Listing(env: Env, s: set<Py>): (xs: seq<Py>)
    ensures Lists(xs, s)
  {
    if Lists(env.order(s), s) then env.order(s) else SomeListing(s)
  }

  // ---- encoding --------------------------------------------------------------------------------------------

  function Tagged(kind: string, items: seq<Payload>): Payload {
    Map(map["__kind__" := Str(kind), "items" := Arr(items)])
  }

  function ClassPayload(kind: string, cls: ClassRef, key: string, value: Payload): Payload {
    Map(map["__kind__" := Str(kind), "module" := Str(cls.moduleName), "qualname" := Str(cls.qualname), key := value])
  }

  ghost function Encode(env: Env, v: Py): Payload
  {
    match v
    case PNone => Nil
    case PBool(b) => Bool(b)
    case PInt(n) => Int(n)
    case PFloat(x) => Float(x)
    case PStr(s) => Str(s)
    case PBytes(bytes) => Bin(bytes)
    case PEnum(cls, member) => ClassPayload("enum", cls, "name", Str(member))
    case PData(cls, fields) =>
      ClassPayload("dataclass", cls, "fields", Map(map f | f in fields :: Encode(env, fields[f])))
    case PList(items) => Tagged("list", seq(|items|, i requires 0 <= i < |items| => Encode(env, items[i])))
    case PTuple(items) => Tagged("tuple", seq(|items|, i requires 0 <= i < |items| => Encode(env, items[i])))
    case PSet(elems) =>
      var xs := Listing(env, elems);
      Tagged("set", seq(|xs|, i requires 0 <= i < |xs| => assert xs[i] in elems; Encode(env, xs[i])))
    case PFrozenSet(elems) =>
      var xs := Listing(env, elems);
      Tagged("frozenset", seq(|xs|, i requires 0 <= i < |xs| => assert xs[i] in elems; Encode(env, xs[i])))
    case PDict(entries) =>
      Tagged("dict", seq(|entries|, i requires 0 <= i < |entries| =>
        Arr([Encode(env, entries[i].key), Encode(env, entries[i].value)])))
  }

  // ---- decoding --------------------------------------------------------------------------------------------------

  datatype Error = MissingKey | NotAList | MalformedPair | Unsupported | Unhashable | NoSuchClass | BadField | BadArguments | Untagged | IntTooWide

  datatype Result<T> = Ok(value: T) | Err(error: Error)

  /** The `items` of a tagged payload. */
  function Items(d: map<string, Payload>): Result<seq<Payload>> {
    if "items" !in d then Err(MissingKey)
    else if !d["items"].Arr? then Err(NotAList)
    else Ok(d["items"].items)
  }

  function ClassOf(env: Env, d: map<string, Payload>): Result<(ClassRef, ClassDef)> {
    if "module" !in d || "qualname" !in d || !d["module"].Str? || !d["qualname"].Str? then Err(MissingKey)
    else
      var cls := ClassRef(d["module"].s, d["qualname"].s);
      if cls in env.classes then Ok((cls, env.classes[cls])) else Err(NoSuchClass)
  }

  /** Adding to a set: an equal member stays. */
  ghost function AddElem(s: set<Py>, x: Py): set<Py> {
    if exists y :: y in s && KeyEq(y, x) then s else s + {x}
  }

  ghost function BuildSet(env: Env, xs: seq<Py>): Result<set<Py>> {
    if xs == [] then Ok({})
    else
      var rest := BuildSet(env, xs[..|xs| - 1]);
      if rest.Err? then rest
      else if !Hashable(env, xs[|xs| - 1]) then Err(Unhashable)
      else Ok(AddElem(rest.value, xs[|xs| - 1]))
  }

  /** Assigning a dictionary item: an equal key keeps its place and takes the new value. */
  ghost function Assign(entries: seq<PEntry>, e: PEntry): seq<PEntry> {
    if i :| 0 <= i < |entries| && KeyEq(entries[i].key, e.key)
    then entries[i := PEntry(entries[i].key, e.value)]
    else entries + [e]
  }

  ghost function BuildDict(env: Env, pairs: seq<PEntry>): Result<seq<PEntry>> {
    if pairs == [] then Ok([])
    else
      var rest := BuildDict(env, pairs[..|pairs| - 1]);
      if rest.Err? then rest
      else if !Hashable(env, pairs[|pairs| - 1].key) then Err(Unhashable)
      else Ok(Assign(rest.value, pairs[|pairs| - 1]))
  }

  /** Calling a dataclass with keyword arguments. */
  function Construct(cls: ClassRef, def: ClassDef, given: map<string, Py>): Result<Py> {
    if !def.DataClass? || !(given.Keys <= def.init) || !(def.init <= given.Keys + def.defaults.Keys) then Err(BadArguments)
    else Ok(PData(cls, map f | f in def.fieldNames && f in given.Keys + def.defaults.Keys ::
                    if f in given then given[f] else def.defaults[f]))
  }

  /** `_decode`. With `strict`, the two branches for untagged lists and dictionaries are errors:
      they exist for payloads that the encoder does not write. */
  ghost function Decode(env: Env, m: Payload, strict: bool): Result<Py>
    decreases m, 2, 0
  {
    match m
    case Nil => Ok(PNone)
    case Bool(b) => Ok(PBool(b))
    case Int(n) => Ok(PInt(n))
    case Float(x) => Ok(PFloat(x))
    case Str(s) => Ok(PStr(s))
    case Bin(bytes) => Ok(PBytes(bytes))
    case Arr(items) =>
      if strict then Err(Untagged)
      else
        var xs := DecodeAll(env, items, strict);
        if xs.Err? then Err(xs.error) else Ok(PList(xs.value))
    case Map(d) =>
      if "__kind__" !in d || d["__kind__"].Nil? then
        if strict then Err(Untagged) else DecodeUntagged(env, m, Sorted(d.Keys), strict)
      else if !d["__kind__"].Str? then Err(Unsupported)
      else DecodeTagged(env, m, d["__kind__"].s, strict)
  }

  ghost function DecodeAll(env: Env, items: seq<Payload>, strict: bool): Result<seq<Py>>
    decreases items, 0
  {
    if items == [] then Ok([])
    else
      var rest := DecodeAll(env, items[..|items| - 1], strict);
      var last := Decode(env, items[|items| - 1], strict);
      if rest.Err? then rest else if last.Err? then Err(last.error) else Ok(rest.value + [last.value])
  }

  /** `_decode_pairs`. */
  ghost function DecodePairs(env: Env, items: seq<Payload>, strict: bool): Result<seq<PEntry>>
    decreases items, 0
  {
    if items == [] then Ok([])
    else
      var rest := DecodePairs(env, items[..|items| - 1], strict);
      var pair := items[|items| - 1];
      if rest.Err? then rest
      else if !pair.Arr? || |pair.items| != 2 then Err(MalformedPair)
      else
        var key := Decode(env, pair.items[0], strict);
        var value := Decode(env, pair.items[1], strict);
        if key.Err? then Err(key.error) else if value.Err? then Err(value.error)
        else Ok(rest.value + [PEntry(key.value, value.value)])
  }

  ghost function DecodeUntagged(env: Env, m: Payload, keys: seq<string>, strict: bool): Result<Py>
    requires m.Map? && forall k :: k in keys ==> k in m.fields
    decreases m, 0, |keys|
  {
    if keys == [] then Ok(PDict([]))
    else
      var rest := DecodeUntagged(env, m, keys[..|keys| - 1], strict);
      var last := Decode(env, m.fields[keys[|keys| - 1]], strict);
      if rest.Err? then rest else if last.Err? then Err(last.error)
      else if !rest.value.PDict? then rest
      else Ok(PDict(rest.value.entries + [PEntry(PStr(keys[|keys| - 1]), last.value)]))
  }

  ghost function DecodeTagged(env: Env, m: Payload, kind: string, strict: bool): Result<Py>
    requires m.Map?
    decreases m, 1, 0
  {
    var d := m.fields;
    if kind in {"list", "tuple", "set", "frozenset"} then
      var items := Items(d);
      if items.Err? then Err(items.error)
      else
        var xs := DecodeAll(env, items.value, strict);
        if xs.Err? then Err(xs.error)
        else if kind == "list" then Ok(PList(xs.value))
        else if kind == "tuple" then Ok(PTuple(xs.value))
        else
          var built := BuildSet(env, xs.value);
          if built.Err? then Err(built.error)
          else if kind == "set" then Ok(PSet(built.value)) else Ok(PFrozenSet(built.value))
    else if kind == "dict" then
      var items := Items(d);
      if items.Err? then Err(items.error)
      else
        var pairs := DecodePairs(env, items.value, strict);
        if pairs.Err? then Err(pairs.error)
        else
          var built := BuildDict(env, pairs.value);
          if built.Err? then Err(built.error) else Ok(PDict(built.value))
    else if kind == "dataclass" then
      var cls := ClassOf(env, d);
      if cls.Err? then Err(cls.error)
      else if "fields" !in d || !d["fields"].Map? then Err(MissingKey)
      else
        var fields := d["fields"].fields;
        if exists f :: f in fields && Decode(env, fields[f], strict).Err? then Err(BadField)
        else Construct(cls.value.0, cls.value.1, map f | f in fields :: Decode(env, fields[f], strict).value)
    else if kind == "enum" then
      var cls := ClassOf(env, d);
      if cls.Err? then Err(cls.error)
      else if "name" !in d || !d["name"].Str? then Err(MissingKey)
      else if !cls.value.1.EnumClass? || d["name"].s !in cls.value.1.members then Err(MissingKey)
      else Ok(PEnum(cls.value.0, d["name"].s))
    else Err(Unsupported)
  }

  // ---- the round trip ----------------------------------------------------------------------------------------------

  lemma {:induction false} BuildSetBack(env: Env, elems: set<Py>, xs: seq<Py>)
    requires ElemsApart(env, elems) && forall x :: x in xs ==> x in elems
    requires forall i, j :: 0 <= i < j < |xs| ==> xs[i] != xs[j]
    ensures BuildSet(env, xs) == Ok(set x | x in xs)
  {
    hide KeyEq, Hashable;
    if xs != [] {
      var init, last := xs[..|xs| - 1], xs[|xs| - 1];
      BuildSetBack(env, elems, init);
      var got: set<Py> := set x | x in init;
      assert last in xs;
      forall y | y in got ensures !KeyEq(y, last) {
        var k :| 0 <= k < |init| && init[k] == y;
        assert xs[k] in elems && xs[k] != last;
      }
      assert (set x | x in xs) == got + {last};
    } else {
      assert (set x | x in xs) == {};
    }
  }

  lemma KeysApartInit(env: Env, entries: seq<PEntry>)
    requires entries != [] && KeysApart(env, Keys(entries))
    ensures var init, last := entries[..|entries| - 1], entries[|entries| - 1];
      && KeysApart(env, Keys(init)) && Hashable(env, last.key)
      && forall i :: 0 <= i < |init| ==> !KeyEq(init[i].key, last.key)
  {
    hide Hashable, KeyEq;
    var init, keys := entries[..|entries| - 1], Keys(entries);
    assert forall i :: 0 <= i < |init| ==> Keys(init)[i] == keys[i];
    assert keys[|init|] == entries[|init|].key;
  }

  lemma {:induction false} BuildDictBack(env: Env, entries: seq<PEntry>)
    requires KeysApart(env, Keys(entries))
    ensures BuildDict(env, entries) == Ok(entries)
  {
    hide Hashable, KeyEq, KeysApart;
    if entries != [] {
      var init, last := entries[..|entries| - 1], entries[|entries| - 1];
      KeysApartInit(env, entries);
      BuildDictBack(env, init);
      assert init + [last] == entries;
    }
  }

  /** The outcome of decoding what was written for `v`. */
  ghost predicate Back(env: Env, v: Py, strict: bool) {
    if Restorable(env, v) then Decode(env, Encode(env, v), strict) == Ok(v)
    else Decode(env, Encode(env, v), strict).Err?
  }

  lemma {:induction false} AllDecode(env: Env, items: seq<Payload>, xs: seq<Py>, strict: bool)
    requires |items| == |xs| && forall i :: 0 <= i < |xs| ==> Decode(env, items[i], strict) == Ok(xs[i])
    ensures DecodeAll(env, items, strict) == Ok(xs)
  {
    hide Decode;
    if xs != [] {
      AllDecode(env, items[..|items| - 1], xs[..|xs| - 1], strict);
      assert xs == xs[..|xs| - 1] + [xs[|xs| - 1]];
    }
  }

  lemma {:induction false} OneFails(env: Env, items: seq<Payload>, i: nat, strict: bool)
    requires i < |items| && Decode(env, items[i], strict).Err?
    ensures DecodeAll(env, items, strict).Err?
  {
    hide Decode;
    if i < |items| - 1 {
      OneFails(env, items[..|items| - 1], i, strict);
    }
  }

  ghost predicate PairGives(env: Env, pair: Payload, e: PEntry, strict: bool) {
    && pair.Arr? && |pair.items| == 2
    && Decode(env, pair.items[0], strict) == Ok(e.key) && Decode(env, pair.items[1], strict) == Ok(e.value)
  }

  lemma {:induction false} PairsDecode(env: Env, items: seq<Payload>, entries: seq<PEntry>, strict: bool)
    requires |items| == |entries| && forall i :: 0 <= i < |entries| ==> PairGives(env, items[i], entries[i], strict)
    ensures DecodePairs(env, items, strict) == Ok(entries)
  {
    hide Decode;
    if entries != [] {
      PairsDecode(env, items[..|items| - 1], entries[..|entries| - 1], strict);
      assert entries == entries[..|entries| - 1] + [entries[|entries| - 1]];
    }
  }

  lemma {:induction false} OnePairFails(env: Env, items: seq<Payload>, i: nat, strict: bool)
    requires i < |items| && items[i].Arr? && |items[i].items| == 2
    requires Decode(env, items[i].items[0], strict).Err? || Decode(env, items[i].items[1], strict).Err?
    ensures DecodePairs(env, items, strict).Err?
  {
    hide Decode;
    if i < |items| - 1 {
      OnePairFails(env, items[..|items| - 1], i, strict);
    }
  }

  lemma TaggedOpens(env: Env, kind: string, items: seq<Payload>, strict: bool)
    ensures Decode(env, Tagged(kind, items), strict) == DecodeTagged(env, Tagged(kind, items), kind, strict)
    ensures Items(Tagged(kind, items).fields) == Ok(items)
  {
    hide DecodeTagged, DecodeUntagged;
    assert |"__kind__"| != |"items"|;
  }

  /** The members of a list, tuple, set or frozenset written as `items`. */
  lemma {:induction false} MembersBack(env: Env, xs: seq<Py>, items: seq<Payload>, strict: bool)
    requires |items| == |xs| && forall i :: 0 <= i < |xs| ==> items[i] == Encode(env, xs[i])
    requires forall i :: 0 <= i < |xs| ==> Back(env, xs[i], strict)
    ensures (forall i :: 0 <= i < |xs| ==> Restorable(env, xs[i])) ==> DecodeAll(env, items, strict) == Ok(xs)
    ensures (exists i :: 0 <= i < |xs| && !Restorable(env, xs[i])) ==> DecodeAll(env, items, strict).Err?
  {
    hide Restorable, Encode, Decode, DecodeAll;
    if i :| 0 <= i < |xs| && !Restorable(env, xs[i]) {
      OneFails(env, items, i, strict);
    } else {
      AllDecode(env, items, xs, strict);
    }
  }

  lemma {:induction false} SequenceBack(env: Env, v: Py, strict: bool)
    requires v.PList? || v.PTuple?
    requires forall i :: 0 <= i < |v.items| ==> Back(env, v.items[i], strict)
    ensures Back(env, v, strict)
  {
    hide Decode, DecodeAll;
    var kind := if v.PList? then "list" else "tuple";
    var items := Encode(env, v).fields["items"].items;
    TaggedOpens(env, kind, items, strict);
    MembersBack(env, v.items, items, strict);
  }

  /** What decoding a set payload comes down to. */
  lemma SetOpens(env: Env, frozen: bool, items: seq<Payload>, strict: bool)
    ensures var r := Decode(env, Tagged(if frozen then "frozenset" else "set", items), strict);
      var xs := DecodeAll(env, items, strict);
      && (xs.Err? ==> r.Err?)
      && (xs.Ok? && BuildSet(env, xs.value).Ok? ==>
            r == Ok(if frozen then PFrozenSet(BuildSet(env, xs.value).value) else PSet(BuildSet(env, xs.value).value)))
  {
    hide Decode, DecodeAll, BuildSet, DecodePairs, BuildDict, ClassOf, Construct, Tagged, Items;
    var kind := if frozen then "frozenset" else "set";
    TaggedOpens(env, kind, items, strict);
    assert |"frozenset"| == 9 && |"set"| == 3;
  }

  lemma {:induction false} SetBack(env: Env, v: Py, strict: bool)
    requires (v.PSet? || v.PFrozenSet?) && ElemsApart(env, v.elems)
    requires forall x :: x in v.elems ==> Back(env, x, strict)
    ensures Back(env, v, strict)
  {
    hide Decode, DecodeTagged, DecodeAll, BuildSet, ElemsApart, KeyEq, Hashable;
    var items := Encode(env, v).fields["items"].items;
    var xs := Listing(env, v.elems);
    assert forall i :: 0 <= i < |xs| ==> xs[i] in v.elems;
    SetOpens(env, v.PFrozenSet?, items, strict);
    MembersBack(env, xs, items, strict);
    BuildSetBack(env, v.elems, xs);
    assert (set x | x in xs) == v.elems;
  }

  lemma {:induction false} DictBack(env: Env, v: Py, strict: bool)
    requires v.PDict? && KeysApart(env, Keys(v.entries))
    requires forall i :: 0 <= i < |v.entries| ==> Back(env, v.entries[i].key, strict) && Back(env, v.entries[i].value, strict)
    ensures Back(env, v, strict)
  {
    hide Decode, DecodePairs, BuildDict, KeysApart;
    var items := Encode(env, v).fields["items"].items;
    TaggedOpens(env, "dict", items, strict);
    BuildDictBack(env, v.entries);
    if i :| 0 <= i < |v.entries| && !(Restorable(env, v.entries[i].key) && Restorable(env, v.entries[i].value)) {
      OnePairFails(env, items, i, strict);
    } else {
      PairsDecode(env, items, v.entries, strict);
    }
  }

  lemma ClassOpens(env: Env, kind: string, cls: ClassRef, key: string, value: Payload, strict: bool)
    requires key == "name" || key == "fields"
    ensures var m := ClassPayload(kind, cls, key, value);
            && Decode(env, m, strict) == DecodeTagged(env, m, kind, strict)
            && ClassOf(env, m.fields) == (if cls in env.classes then Ok((cls, env.classes[cls])) else Err(NoSuchClass))
            && key in m.fields && m.fields[key] == value
  {
    hide DecodeTagged, DecodeUntagged;
    NamesDiffer();
  }

  lemma NamesDiffer()
    ensures "__kind__" != "module" && "__kind__" != "qualname" && "__kind__" != "name" && "__kind__" != "fields"
    ensures "module" != "qualname" && "module" != "name" && "module" != "fields"
    ensures "qualname" != "name" && "qualname" != "fields"
  {
    assert |"__kind__"| == 8 && |"module"| == 6 && |"qualname"| == 8 && |"name"| == 4 && |"fields"| == 6;
    assert "__kind__"[0] != "qualname"[0] && "module"[0] != "fields"[0];
  }

  lemma ConstructBack(env: Env, v: Py)
    requires v.PData? && Exists(env, v) && v.cls in env.classes
    ensures var def := env.classes[v.cls];
            if AcceptsFields(def)
            then Construct(v.cls, def, v.fields) == Ok(v)
            else Construct(v.cls, def, v.fields).Err?
  {
    var def := env.classes[v.cls];
    if Construct(v.cls, def, v.fields).Ok? {
      assert Construct(v.cls, def, v.fields).value.fields == v.fields;
    }
  }

  /** What decoding a dataclass payload comes down to. */
  lemma DataOpens(env: Env, cls: ClassRef, fields: map<string, Payload>, strict: bool, got: map<string, Py>)
    ensures var r := Decode(env, ClassPayload("dataclass", cls, "fields", Map(fields)), strict);
      && (cls !in env.classes || (exists f :: f in fields && Decode(env, fields[f], strict).Err?) ==> r.Err?)
      && (cls in env.classes && got.Keys == fields.Keys && (forall f :: f in fields ==> Decode(env, fields[f], strict) == Ok(got[f]))
          ==> r == Construct(cls, env.classes[cls], got))
  {
    hide Decode, DecodeAll, DecodePairs, DecodeUntagged, Construct, ClassOf, BuildSet, BuildDict, ClassPayload;
    ClassOpens(env, "dataclass", cls, "fields", Map(fields), strict);
    if got.Keys == fields.Keys && forall f :: f in fields ==> Decode(env, fields[f], strict) == Ok(got[f]) {
      assert (map f | f in fields :: Decode(env, fields[f], strict).value) == got;
    }
  }

  lemma {:induction false} DataBack(env: Env, v: Py, strict: bool)
    requires v.PData? && Exists(env, v)
    requires forall f :: f in v.fields ==> Back(env, v.fields[f], strict)
    ensures Back(env, v, strict)
  {
    hide Decode, DecodeTagged, ClassPayload, Exists, Construct, AcceptsFields;
    var fields := map f | f in v.fields :: Encode(env, v.fields[f]);
    assert Encode(env, v) == ClassPayload("dataclass", v.cls, "fields", Map(fields));
    DataOpens(env, v.cls, fields, strict, v.fields);
    if f :| f in v.fields && !Restorable(env, v.fields[f]) {
      assert f in fields && Decode(env, fields[f], strict).Err?;
    } else if v.cls in env.classes {
      ConstructBack(env, v);
    }
  }

  lemma EnumBack(env: Env, v: Py, strict: bool)
    requires v.PEnum? && Exists(env, v)
    ensures Back(env, v, strict)
  {
    hide Decode;
    ClassOpens(env, "enum", v.cls, "name", Str(v.member), strict);
  }

  /** Every value that can exist comes back from its payload when it is restorable, and otherwise
      decoding fails: it never yields another value. With `strict`, this says that the branches of the
      decoder for untagged lists and dictionaries are not reached, whatever keys a dictionary has. */
  lemma {:induction false} DecodeExactly(env: Env, v: Py, strict: bool)
    requires Exists(env, v)
    ensures Restorable(env, v) ==> Decode(env, Encode(env, v), strict) == Ok(v)
    ensures !Restorable(env, v) ==> Decode(env, Encode(env, v), strict).Err?
  {
    hide Encode, Decode;
    match v
    case PEnum(_, _) => EnumBack(env, v, strict);
    case PData(_, fields) =>
      forall f | f in fields ensures Back(env, fields[f], strict) { DecodeExactly(env, fields[f], strict); }
      DataBack(env, v, strict);
    case PList(items) =>
      forall i | 0 <= i < |items| ensures Back(env, items[i], strict) { DecodeExactly(env, items[i], strict); }
      SequenceBack(env, v, strict);
    case PTuple(items) =>
      forall i | 0 <= i < |items| ensures Back(env, items[i], strict) { DecodeExactly(env, items[i], strict); }
      SequenceBack(env, v, strict);
    case PSet(elems) =>
      forall x | x in elems ensures Back(env, x, strict) { DecodeExactly(env, x, strict); }
      SetBack(env, v, strict);
    case PFrozenSet(elems) =>
      forall x | x in elems ensures Back(env, x, strict) { DecodeExactly(env, x, strict); }
      SetBack(env, v, strict);
    case PDict(entries) =>
      forall i | 0 <= i < |entries|
        ensures Back(env, entries[i].key, strict) && Back(env, entries[i].value, strict)
      {
        DecodeExactly(env, entries[i].key, strict);
        DecodeExactly(env, entries[i].value, strict);
      }
      DictBack(env, v, strict);
    case _ => LeafBack(env, v, strict);
  }

  predicate IsLeaf(v: Py) {
    v.PNone? || v.PBool? || v.PInt? || v.PFloat? || v.PStr? || v.PBytes?
  }

  lemma LeafBack(env: Env, v: Py, strict: bool)
    requires IsLeaf(v)
    ensures Back(env, v, strict)
  {
  }

  // ---- msgpack ---------------------------------------------------------------------------------------------------

  predicate FitsInt(n: int) {
    -0x8000_0000_0000_0000 <= n < 0x1_0000_0000_0000_0000
  }

  /** What msgpack can write: its integers are 64 bits wide. */
  predicate Packable(m: Payload) {
    match m
    case Int(n) => FitsInt(n)
    case Arr(items) => forall i :: 0 <= i < |items| ==> Packable(items[i])
    case Map(fields) => forall k :: k in fields ==> Packable(fields[k])
    case _ => true
  }

  ghost predicate IntsFit(v: Py) {
    match v
    case PInt(n) => FitsInt(n)
    case PData(_, fields) => forall f :: f in fields ==> IntsFit(fields[f])
    case PList(items) => forall i :: 0 <= i < |items| ==> IntsFit(items[i])
    case PTuple(items) => forall i :: 0 <= i < |items| ==> IntsFit(items[i])
    case PSet(elems) => forall x :: x in elems ==> IntsFit(x)
    case PFrozenSet(elems) => forall x :: x in elems ==> IntsFit(x)
    case PDict(entries) => forall i :: 0 <= i < |entries| ==> IntsFit(entries[i].key) && IntsFit(entries[i].value)
    case _ => true
  }

  lemma TaggedPackable(kind: string, items: seq<Payload>)
    ensures Packable(Tagged(kind, items)) <==> forall i :: 0 <= i < |items| ==> Packable(items[i])
  {
    var m := Tagged(kind, items);
    assert |"__kind__"| != |"items"|;
    assert m.fields["items"] == Arr(items);
  }

  lemma PairPackable(a: Payload, b: Payload)
    ensures Packable(Arr([a, b])) <==> Packable(a) && Packable(b)
  {
    var items := Arr([a, b]).items;
    assert items[0] == a && items[1] == b;
  }

  ghost predicate Packs(env: Env, v: Py) {
    Packable(Encode(env, v)) <==> IntsFit(v)
  }

  lemma MembersPackable(env: Env, kind: string, xs: seq<Py>, items: seq<Payload>)
    requires |items| == |xs| && forall i :: 0 <= i < |xs| ==> items[i] == Encode(env, xs[i]) && Packs(env, xs[i])
    ensures Packable(Tagged(kind, items)) <==> forall i :: 0 <= i < |xs| ==> IntsFit(xs[i])
  {
    hide Packable, IntsFit, Encode;
    TaggedPackable(kind, items);
    if i :| 0 <= i < |xs| && !IntsFit(xs[i]) {
      assert !Packable(items[i]);
    } else {
      assert forall i :: 0 <= i < |xs| ==> Packable(items[i]);
    }
  }

  lemma SetPackable(env: Env, v: Py)
    requires v.PSet? || v.PFrozenSet?
    requires forall x :: x in v.elems ==> Packs(env, x)
    ensures Packs(env, v)
  {
    hide Packable;
    var xs := Listing(env, v.elems);
    assert forall i :: 0 <= i < |xs| ==> xs[i] in v.elems;
    MembersPackable(env, if v.PSet? then "set" else "frozenset", xs, Encode(env, v).fields["items"].items);
  }

  lemma EntriesPackable(env: Env, v: Py)
    requires v.PDict?
    requires forall i :: 0 <= i < |v.entries| ==> Packs(env, v.entries[i].key) && Packs(env, v.entries[i].value)
    ensures Packs(env, v)
  {
    hide Packable;
    var items := Encode(env, v).fields["items"].items;
    TaggedPackable("dict", items);
    forall i | 0 <= i < |items|
      ensures Packable(items[i]) <==> IntsFit(v.entries[i].key) && IntsFit(v.entries[i].value)
    {
      PairPackable(Encode(env, v.entries[i].key), Encode(env, v.entries[i].value));
    }
  }

  lemma ClassPackable(kind: string, cls: ClassRef, value: Payload)
    ensures Packable(ClassPayload(kind, cls, "fields", value)) <==> Packable(value)
  {
    var m := ClassPayload(kind, cls, "fields", value);
    assert m.fields["fields"] == value;
    assert forall k :: k in m.fields && k != "fields" ==> m.fields[k].Str?;
  }

  lemma DataPackable(env: Env, v: Py)
    requires v.PData? && forall f :: f in v.fields ==> Packs(env, v.fields[f])
    ensures Packs(env, v)
  {
    var fields := map f | f in v.fields :: Encode(env, v.fields[f]);
    ClassPackable("dataclass", v.cls, Map(fields));
    if f :| f in v.fields && !IntsFit(v.fields[f]) {
      assert f in fields && !Packable(fields[f]);
    }
  }

  lemma {:induction false} PackableExactly(env: Env, v: Py)
    ensures Packable(Encode(env, v)) <==> IntsFit(v)
  {
    hide Packable;
    match v
    case PData(_, fields) =>
      forall f | f in fields ensures Packs(env, fields[f]) { PackableExactly(env, fields[f]); }
      DataPackable(env, v);
    case PList(items) =>
      forall i | 0 <= i < |items| ensures Packs(env, items[i]) { PackableExactly(env, items[i]); }
      MembersPackable(env, "list", items, Encode(env, v).fields["items"].items);
    case PTuple(items) =>
      forall i | 0 <= i < |items| ensures Packs(env, items[i]) { PackableExactly(env, items[i]); }
      MembersPackable(env, "tuple", items, Encode(env, v).fields["items"].items);
    case PSet(elems) =>
      forall x | x in elems ensures Packs(env, x) { PackableExactly(env, x); }
      SetPackable(env, v);
    case PFrozenSet(elems) =>
      forall x | x in elems ensures Packs(env, x) { PackableExactly(env, x); }
      SetPackable(env, v);
    case PDict(entries) =>
      forall i | 0 <= i < |entries| ensures Packs(env, entries[i].key) && Packs(env, entries[i].value) {
        PackableExactly(env, entries[i].key);
        PackableExactly(env, entries[i].value);
      }
      EntriesPackable(env, v);
    case _ => LeafPackable(env, v);
  }

  lemma LeafPackable(env: Env, v: Py)
    requires IsLeaf(v) || v.PEnum?
    ensures Packs(env, v)
  {
  }

  /** `dump`, up to the bytes: the payload, or the error with which packing ends. */
  ghost function Dump(env: Env, v: Py): Result<Payload> {
    if Packable(Encode(env, v)) then Ok(Encode(env, v)) else Err(IntTooWide)
  }

  /** `load` of what `dump` wrote. */
  ghost function LoadDumped(env: Env, v: Py): Result<Py> {
    match Dump(env, v)
    case Ok(m) => Decode(env, m, false)
    case Err(e) => Err(e)
  }

  /** A value survives the cache exactly when its integers fit in 64 bits, its classes can be imported,
      its enum values are named members and its dataclasses can be called with their fields; otherwise writing or reading it fails. */
  lemma RoundTripExactly(env: Env, v: Py)
    requires Exists(env, v)
    ensures LoadDumped(env, v).Ok? ==> LoadDumped(env, v).value == v
    ensures LoadDumped(env, v).Ok? <==> Restorable(env, v) && IntsFit(v)
  {
    hide Exists, Restorable, Encode, Decode, Packable, IntsFit;
    DecodeExactly(env, v, false);
    PackableExactly(env, v);
  }

  /** A dataclass with a field that its constructor does not take is written and cannot be read back. */
  lemma HiddenFieldIsLost(order: set<Py> -> seq<Py>)
    ensures var cls := ClassRef("m", "C");
            var env := Env(map[cls := DataClass({"a", "b"}, {"a"}, map["b" := PNone])], {}, order);
            var v := PData(cls, map["a" := PBool(true), "b" := PNone]);
            Exists(env, v) && IntsFit(v) && LoadDumped(env, v).Err?
  {
    var cls := ClassRef("m", "C");
    var env := Env(map[cls := DataClass({"a", "b"}, {"a"}, map["b" := PNone])], {}, order);
    var v := PData(cls, map["a" := PBool(true), "b" := PNone]);
    assert "a"[0] != "b"[0];
    assert "b" in env.classes[cls].fieldNames && "b" !in env.classes[cls].init;
    assert !AcceptsFields(env.classes[cls]);
    RoundTripExactly(env, v);
  }

  /** A combination of flags is written under its combined name, which no member has. */
  lemma FlagCombinationIsLost(order: set<Py> -> seq<Py>)
    ensures var cls := ClassRef("m", "P");
            var env := Env(map[cls := EnumClass({"R", "W"})], {}, order);
            var v := PEnum(cls, "R|W");
            Exists(env, v) && IntsFit(v) && LoadDumped(env, v).Err?
  {
    var cls := ClassRef("m", "P");
    var env := Env(map[cls := EnumClass({"R", "W"})], {}, order);
    assert |"R|W"| != |"R"| && |"R|W"| != |"W"|;
    assert "R|W" !in env.classes[cls].members;
    RoundTripExactly(env, PEnum(cls, "R|W"));
  }
}
