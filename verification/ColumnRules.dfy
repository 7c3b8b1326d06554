/** The column-rule conversion of migration 0063 and its edit-preserving inverse
    (migrations/versions/0063_column_rules_contract.py:69-201). */
module ColumnRules {
  import opened Options
  import opened Text

  /** The keys the migration tells apart by name, and all others. */
  datatype Key =
    | DvtType
    | ValueKey
    | Marker
    | Generated
    | Previous
    | OriginalRaw
    | ColumnRulesKey
    | CalculatedColumns
    | ColumnBindings
    | OverwriteExisting
    | Other(text: string)

  datatype Value =
    | Null
    | Bool(b: bool)
    | Number(x: real)
    | Text(s: string)
    | List(items: seq<Value>)
    | Dict(entries: map<Key, Value>)

  type Entries = map<Key, Value>

  /** `json.loads` of a stored string, and the order in which a dictionary's items are listed. */
  datatype Env = Env(loads: string -> Option<Value>, order: Entries -> seq<Key>)

  // ---- Python's == on such values ----------------------------------------------------------------

  function Numeric(v: Value): Option<real> {
    match v
    case Bool(b) => Some(if b then 1.0 else 0.0)
    case Number(x) => Some(x)
    case _ => None
  }

  predicate PyEquals(a: Value, b: Value)
    decreases a
  {
    match (a, b)
    case (List(x), List(y)) => |x| == |y| && forall i :: 0 <= i < |x| ==> PyEquals(x[i], y[i])
    case (Dict(x), Dict(y)) => x.Keys == y.Keys && forall k :: k in x ==> PyEquals(x[k], y[k])
    case _ => if Numeric(a).Some? && Numeric(b).Some? then Numeric(a) == Numeric(b) else a == b
  }

  lemma {:induction false} PyEqualsReflexive(a: Value)
    ensures PyEquals(a, a)
  {
    match a
    case List(x) => forall i | 0 <= i < |x| { PyEqualsReflexive(x[i]); }
    case Dict(x) => forall k | k in x { PyEqualsReflexive(x[k]); }
    case _ =>
  }

  // ---- small helpers --------------------------------------------------------------------------------

  function Get(d: Entries, key: Key): Value {
    if key in d then d[key] else Null
  }

  predicate HasType(v: Value, name: string) {
    v.Dict? && DvtType in v.entries && v.entries[DvtType] == Text(name)
  }

  function Const(v: Value): Value {
    Dict(map[DvtType := Text("const"), ValueKey := v])
  }

  function Unwrap(v: Value): Value {
    if HasType(v, "const") then Get(v.entries, ValueKey) else v
  }

  function Deserialize(env: Env, raw: Value): Entries {
    match raw
    case Dict(d) => d
    case Text(s) =>
      var parsed := env.loads(s);
      if parsed.Some? && parsed.value.Dict? then parsed.value.entries else map[]
    case _ => map[]
  }

  // ---- the node table --------------------------------------------------------------------------------

  datatype Param = Param(key: string, field: string, default: Value)

  datatype Node =
    | AddColumnByExpression
    | SetColumn
    | ReplaceValues
    | RegexReplace
    | SetTimezone
    | PeriodStart
    | AddTimedelta
    | SplitColumn

  /** `NODES`, looked up by lower-cased name. */
  function Lookup(lowerName: string): Option<Node> {
    if lowerName == "dataframereplacevalues" then Some(ReplaceValues)
    else if lowerName == "dataframeregexreplace" then Some(RegexReplace)
    else if lowerName == "dataframesettimezone" then Some(SetTimezone)
    else if lowerName == "dataframeconverttoperiodstart" then Some(PeriodStart)
    else if lowerName == "addtimedeltatodataframe" then Some(AddTimedelta)
    else if lowerName == "dataframesplitcolumn" then Some(SplitColumn)
    else if lowerName == "dataframeaddcolumnbyexpression" then Some(AddColumnByExpression)
    else if lowerName == "setcolumntodataframe" then Some(SetColumn)
    else None
  }

  function SourceField(node: Node): string {
    match node
    case ReplaceValues => "column_to_replace"
    case RegexReplace => "column_to_replace"
    case AddTimedelta => "column_with_time"
    case _ => "column"
  }

  function Params(node: Node): seq<Param> {
    match node
    case ReplaceValues => [Param("legacy_dictionary", "dictionary", Null)]
    case RegexReplace => [Param("pattern", "pattern", Null), Param("replacement", "replacement", Text(""))]
    case SetTimezone => [Param("timezone", "timezone", Text("Europe/Moscow"))]
    case PeriodStart => [Param("period", "period", Text("month"))]
    case AddTimedelta =>
      [Param("years", "years", Number(0.0)), Param("months", "months", Number(0.0)),
       Param("days", "days", Number(0.0)), Param("hours", "hours", Number(0.0)),
       Param("minutes", "minutes", Number(0.0)), Param("seconds", "seconds", Number(0.0))]
    case SplitColumn =>
      [Param("delimiter", "delimiter", Null), Param("max_splits", "max_splits", Number(1.0)),
       Param("drop_source", "drop_source", Bool(false))]
    case _ => []
  }

  function TargetField(node: Node): Option<string> {
    match node
    case PeriodStart => Some("new_column")
    case AddTimedelta => Some("new_column_with_time")
    case _ => None
  }

  /** The key spelled `s`. */
  function K(s: string): Key {
    if s == "__dvt_type" then DvtType
    else if s == "value" then ValueKey
    else if s == "generated" then Generated
    else if s == "previous" then Previous
    else if s == "original_raw" then OriginalRaw
    else if s == "column_rules" then ColumnRulesKey
    else if s == "calculated_columns" then CalculatedColumns
    else if s == "column_bindings" then ColumnBindings
    else if s == "overwrite_existing" then OverwriteExisting
    else if s == "__column_rules_migration_0063" then Marker
    else Other(s)
  }

  // ---- reading one field ---------------------------------------------------------------------------------

  /** A field fed by a link or an expression cannot be copied: it is bound to its port instead. */
  predicate Bound(values: Entries, field: string, connected: set<string>) {
    || field in connected
    || HasType(Get(values, K(field)), "expr")
    || HasType(Get(values, K(field)), "link")
  }

  /** A stored `__dvt_type` that is a list or a dictionary cannot be looked up among the two: `read` raises,
      unless the field is connected, which is asked first. */
  predicate Unreadable(values: Entries, field: string, connected: set<string>) {
    && field !in connected
    && var original := Get(values, K(field));
    && original.Dict?
    && var kind := Get(original.entries, DvtType);
    kind.List? || kind.Dict?
  }

  /** The value `read` returns for a field. */
  function Read(values: Entries, field: string, default: Value, connected: set<string>): Value {
    if Bound(values, field, connected) || K(field) !in values then default else Unwrap(values[K(field)])
  }

  /** One call of `read`: the field, its default, and the rule path it fills. */
  datatype Port = Port(field: string, default: Value, path: string)

  /** What the calls of `read` leave in `bindings`. */
  function Bindings(values: Entries, ports: seq<Port>, connected: set<string>): Entries {
    if ports == [] then map[]
    else
      var last := ports[|ports| - 1];
      var earlier := Bindings(values, ports[..|ports| - 1], connected);
      if Bound(values, last.field, connected) then earlier[K(last.path) := Text(last.field)] else earlier
  }

  function Record(fields: seq<(string, Value)>): Entries {
    if fields == [] then map[]
    else Record(fields[..|fields| - 1])[K(fields[|fields| - 1].0) := fields[|fields| - 1].1]
  }

  // ---- the generated contract --------------------------------------------------------------------------------

  function Ports(node: Node): seq<Port> {
    match node
    case AddColumnByExpression => [Port("column_name", Null, "name"), Port("expression", Null, "expression")]
    case SetColumn => [Port("column_name", Null, "target")]
    case _ =>
      var params := Params(node);
      [Port(SourceField(node), Null, "selector.tokens.0.value")]
      + seq(|params|, i requires 0 <= i < |params| =>
              Port(params[i].field, params[i].default, "params." + params[i].key))
      + if TargetField(node).Some? then [Port(TargetField(node).value, Null, "output.target")] else []
  }

  function Pairs(env: Env, dictionary: Value): Value {
    if !dictionary.Dict? then List([])
    else
      var keys := env.order(dictionary.entries);
      List(seq(|keys|, i requires 0 <= i < |keys| =>
             Dict(Record([("old", KeyText(keys[i])), ("new", Get(dictionary.entries, keys[i]))]))))
  }

  function KeyText(key: Key): Value {
    match key
    case Other(text) => Text(text)
    case DvtType => Text("__dvt_type")
    case ValueKey => Text("value")
    case Marker => Text("__column_rules_migration_0063")
    case Generated => Text("generated")
    case Previous => Text("previous")
    case OriginalRaw => Text("original_raw")
    case ColumnRulesKey => Text("column_rules")
    case CalculatedColumns => Text("calculated_columns")
    case ColumnBindings => Text("column_bindings")
    case OverwriteExisting => Text("overwrite_existing")
  }

  /** The parameters of a rule. */
  function RuleParams(env: Env, node: Node, values: Entries, connected: set<string>): Entries {
    var params := Params(node);
    var copied := Record(seq(|params|, i requires 0 <= i < |params| =>
      (params[i].key, Read(values, params[i].field, params[i].default, connected))));
    if node == ReplaceValues
    then copied[K("pairs") := Pairs(env, Read(values, "dictionary", Null, connected))] else copied
  }

  function RuleOutput(node: Node, values: Entries, connected: set<string>): Entries {
    if TargetField(node).None? then Record([("mode", Text("replace"))])
    else Record([("mode", Text("new")),
                 ("target", Read(values, TargetField(node).value, Null, connected)),
                 ("fallback_to_source", Bool(node == PeriodStart)),
                 ("require_target", Bool(node == AddTimedelta))])
  }

  /** The one entry of the generated contract. */
  function Rule(env: Env, node: Node, values: Entries, connected: set<string>): Value {
    var bindings := Dict(Bindings(values, Ports(node), connected));
    match node
    case AddColumnByExpression =>
      Dict(Record([
        ("name", Read(values, "column_name", Null, connected)),
        ("expression", Read(values, "expression", Null, connected)),
        ("overwrite_existing", Bool(true)),
        ("input_bindings", bindings)]))
    case SetColumn =>
      Dict(Record([
        ("source", Null),
        ("target", Read(values, "column_name", Null, connected)),
        ("input_bindings", bindings)]))
    case _ =>
      var source := Read(values, SourceField(node), Null, connected);
      Dict(Record([
        ("id", Text("migrated-v1")),
        ("enabled", Bool(true)),
        ("selector", Selector(source)),
        ("params", Dict(RuleParams(env, node, values, connected))),
        ("output", Dict(RuleOutput(node, values, connected))),
        ("compatibility", Text("v1")),
        ("input_bindings", bindings)]))
  }

  function Selector(source: Value): Value {
    Dict(Record([("tokens", List([Dict(Record([("kind", Text("name")), ("value", source)]))]))]))
  }

  function Contract(env: Env, node: Node, values: Entries, connected: set<string>): Entries {
    var rules := Const(List([Rule(env, node, values, connected)]));
    match node
    case AddColumnByExpression => map[CalculatedColumns := rules]
    case SetColumn => map[ColumnBindings := rules, OverwriteExisting := Const(Bool(true))]
    case _ => map[ColumnRulesKey := rules]
  }

  lemma ContractKeys(env: Env, node: Node, values: Entries, connected: set<string>)
    ensures Contract(env, node, values, connected).Keys
         <= {CalculatedColumns, ColumnBindings, OverwriteExisting, ColumnRulesKey}
    ensures Contract(env, node, values, connected) != map[]
  {
    hide Rule, Record, Read, Bindings, Ports;
    match node
    case AddColumnByExpression => assert CalculatedColumns in Contract(env, node, values, connected);
    case SetColumn => assert ColumnBindings in Contract(env, node, values, connected);
    case _ => assert ColumnRulesKey in Contract(env, node, values, connected);
  }

  // ---- the two directions ----------------------------------------------------------------------------------------

  /** The marker is absent and no field of the new contract is set yet. */
  predicate Fresh(values: Entries) {
    && Marker !in values
    && forall field :: field in {ColumnRulesKey, CalculatedColumns, ColumnBindings} && field in values ==>
         Unwrap(values[field]) == Null
  }

  function Backup(raw: Value, values: Entries, contract: Entries): Entries {
    var backup := map[
      Generated := Dict(contract),
      Previous := Dict(Shadowed(values, contract))];
    if raw.Dict? then backup else backup[OriginalRaw := raw]
  }

  datatype Result = Result(raw: Value, changed: bool)

  datatype Outcome = Done(result: Result) | Raises

  predicate Changed(o: Outcome) {
    o.Done? && o.result.changed
  }

  /** `upgrade_inputs`. It raises when it reads a field that is unreadable. */
  function Upgrade(env: Env, lowerName: string, raw: Value, connected: set<string>): Outcome {
    var node := Lookup(lowerName);
    var values := Deserialize(env, raw);
    if node.None? || !Fresh(values) then Done(Result(raw, false))
    else if exists port :: port in Ports(node.value) && Unreadable(values, port.field, connected) then Raises
    else
      Done(Result(Dict(Attach(raw, values, Contract(env, node.value, values, connected))), true))
  }

  /** The payload with the contract added and a backup under the marker. */
  function Attach(raw: Value, values: Entries, contract: Entries): Entries {
    (values + contract)[Marker := Const(Dict(Backup(raw, values, contract)))]
  }

  /** The backup a payload carries, when it has the shape an upgrade writes. */
  function Carried(values: Entries): Option<Entries> {
    var backup := Unwrap(Get(values, Marker));
    if backup.Dict? && Generated in backup.entries && backup.entries[Generated].Dict?
    then Some(backup.entries) else None
  }

  /** Some generated field no longer has its generated value. */
  predicate Edited(values: Entries, contract: Entries) {
    exists field :: field in contract && !PyEquals(Get(values, field), contract[field])
  }

  /** What iterating over a value yields, if it can be iterated. */
  function Iterated(env: Env, v: Value): Option<seq<Value>> {
    match v
    case List(items) => Some(items)
    case Text(s) => Some(seq(|s|, i requires 0 <= i < |s| => Text([s[i]])))
    case Dict(d) =>
      var keys := env.order(d);
      Some(seq(|keys|, i requires 0 <= i < |keys| => KeyText(keys[i])))
    case _ => None
  }

  /** The first `n` pairs that `dict.update` takes from a sequence; none if one of them is no pair with a text key. */
  function Paired(env: Env, pairs: seq<Value>, n: nat): Option<Entries>
    requires n <= |pairs|
  {
    if n == 0 then Some(map[])
    else
      var earlier, pair := Paired(env, pairs, n - 1), Iterated(env, pairs[n - 1]);
      if earlier.None? || pair.None? || |pair.value| != 2 || !pair.value[0].Text? then None
      else Some(earlier.value[K(pair.value[0].s) := pair.value[1]])
  }

  /** What `dict.update` takes from its argument: a dictionary, or anything that yields pairs. */
  function Additions(env: Env, v: Value): Option<Entries> {
    if v.Dict? then Some(v.entries)
    else
      var pairs := Iterated(env, v);
      if pairs.None? then None else Paired(env, pairs.value, |pairs.value|)
  }

  /** `downgrade_inputs`. A backup whose `previous` yields no pairs makes `update` raise. */
  function Downgrade(env: Env, lowerName: string, raw: Value): Outcome {
    var values := Deserialize(env, raw);
    var carried := Carried(values);
    if Lookup(lowerName).None? || carried.None? then Done(Result(raw, false))
    else
      var backup := carried.value;
      var contract := backup[Generated].entries;
      var previous := if Previous in backup then Additions(env, backup[Previous]) else Some(map[]);
      if Edited(values, contract) then Done(Result(raw, false))
      else if previous.None? then Raises
      else
        var updated := (values - contract.Keys + previous.value) - {Marker};
        if OriginalRaw in backup && PyEquals(Dict(updated), Dict(Deserialize(env, backup[OriginalRaw])))
        then Done(Result(backup[OriginalRaw], true))
        else Done(Result(Dict(updated), true))
  }

  // ---- theorems ---------------------------------------------------------------------------------------------------------

  lemma ConstUnwraps(v: Value)
    ensures Unwrap(Const(v)) == v
  {
  }

  /** A payload with an intact marker carries the backup, whatever its other fields are. */
  lemma MarkedCarries(raw: Value, values: Entries, contract: Entries, marked: Entries)
    requires Marker in marked && marked[Marker] == Const(Dict(Backup(raw, values, contract)))
    ensures Carried(marked) == Some(Backup(raw, values, contract))
  {
    hide Const, Unwrap;
    ConstUnwraps(Dict(Backup(raw, values, contract)));
  }

  lemma NotEdited(marked: Entries, contract: Entries)
    requires forall field :: field in contract ==> field in marked && marked[field] == contract[field]
    ensures !Edited(marked, contract)
  {
    hide PyEquals;
    forall field | field in contract ensures PyEquals(contract[field], contract[field]) {
      PyEqualsReflexive(contract[field]);
    }
  }

  function Shadowed(values: Entries, contract: Entries): Entries {
    map field | field in contract && field in values :: values[field]
  }

  lemma RestoresValues(values: Entries, contract: Entries, marker: Value)
    requires Marker !in contract && Marker !in values
    ensures ((values + contract)[Marker := marker] - contract.Keys + Shadowed(values, contract)) - {Marker} == values
  {
  }

  /** Downgrading a payload with an unedited contract: the contract goes, what it had replaced
      comes back, and the stored text is returned if it still says the same. */
  lemma DowngradeMarked(env: Env, lowerName: string, raw: Value, was: Entries, values: Entries, contract: Entries)
    requires Lookup(lowerName).Some? && Marker !in contract && Marker !in values
    requires Shadowed(was, contract) == Shadowed(values, contract)
    ensures var marked := (values + contract)[Marker := Const(Dict(Backup(raw, was, contract)))];
      Downgrade(env, lowerName, Dict(marked)) == Done(Result(
        if !raw.Dict? && PyEquals(Dict(values), Dict(Deserialize(env, raw))) then raw else Dict(values), true))
  {
    hide Lookup, PyEquals, Const, Unwrap;
    var marker := Const(Dict(Backup(raw, was, contract)));
    var marked := (values + contract)[Marker := marker];
    MarkedCarries(raw, was, contract, marked);
    NotEdited(marked, contract);
    hide Carried, Edited;
    RestoresValues(values, contract, marker);
  }

  /** Whatever the node, the stored payload (a dictionary, JSON text, malformed text, null or
      anything else) and the connected inputs: if an upgrade changes it, a downgrade gives back
      exactly what was stored. */
  lemma DowngradeUndoesUpgrade(env: Env, lowerName: string, raw: Value, connected: set<string>)
    requires Changed(Upgrade(env, lowerName, raw, connected))
    ensures Downgrade(env, lowerName, Upgrade(env, lowerName, raw, connected).result.raw) == Done(Result(raw, true))
  {
    hide Contract, Lookup, Const, PyEquals, Downgrade, Backup;
    var values := Deserialize(env, raw);
    ContractKeys(env, Lookup(lowerName).value, values, connected);
    DowngradeMarked(env, lowerName, raw, values, values, Contract(env, Lookup(lowerName).value, values, connected));
    PyEqualsReflexive(Dict(values));
  }

  /** Such an upgrade raises: the stored `__dvt_type` of an unconnected input is a list. */
  lemma UnhashableTypeRaises(env: Env)
    ensures var raw := Dict(map[K("column_name") := Dict(map[DvtType := List([])])]);
      Upgrade(env, "setcolumntodataframe", raw, {}) == Raises
  {
    var raw := Dict(map[K("column_name") := Dict(map[DvtType := List([])])]);
    assert Lookup("setcolumntodataframe") == Some(SetColumn) by { NameOfSetColumn(); }
    assert Ports(SetColumn)[0] in Ports(SetColumn) && Ports(SetColumn)[0].field == "column_name";
    assert Unreadable(raw.entries, "column_name", {});
  }

  lemma NameOfSetColumn()
    ensures Lookup("setcolumntodataframe") == Some(SetColumn)
  {
    assert |"setcolumntodataframe"| == 20;
    assert "setcolumntodataframe"[0] == 's';
  }

  /** The stored type of a value, if it is a dictionary that has one, is a list or a dictionary. */
  predicate HasUnhashableType(v: Value) {
    v.Dict? && DvtType in v.entries && (v.entries[DvtType].List? || v.entries[DvtType].Dict?)
  }

  /** No marker is there, and none of the three fields of the new contract holds anything but null. */
  predicate IsOpen(values: Entries) {
    && Marker !in values
    && Unwrap(Get(values, ColumnRulesKey)) == Null
    && Unwrap(Get(values, CalculatedColumns)) == Null
    && Unwrap(Get(values, ColumnBindings)) == Null
  }

  /** An upgrade touches a payload exactly if the node is one of the eight and the payload is open; it then raises exactly
      if an input that is not connected has an unhashable type. */
  lemma UpgradeExactly(env: Env, lowerName: string, raw: Value, connected: set<string>)
    ensures var o, values := Upgrade(env, lowerName, raw, connected), Deserialize(env, raw);
      if Lookup(lowerName).None? || !IsOpen(values) then o == Done(Result(raw, false))
      else
        var raising := exists port ::
          port in Ports(Lookup(lowerName).value) && port.field !in connected && HasUnhashableType(Get(values, K(port.field)));
        (o.Raises? <==> raising) && (Changed(o) <==> !raising)
  {
    hide Contract, Lookup, Ports, K, Attach, Fresh, IsOpen;
    var values := Deserialize(env, raw);
    FreshExactly(values);
    forall port: Port
      ensures Unreadable(values, port.field, connected) <==> port.field !in connected && HasUnhashableType(Get(values, K(port.field)))
    {
    }
  }

  lemma FreshExactly(values: Entries)
    ensures Fresh(values) <==> IsOpen(values)
  {
  }

  /** A payload with the marker whose generated fields were changed by a user. */
  ghost predicate EditedByUser(env: Env, raw: Value) {
    var values := Deserialize(env, raw);
    && Marker in values
    && Carried(values).Some?
    && Edited(values, Carried(values).value[Generated].entries)
  }

  datatype Migration = Up(connected: set<string>) | Down

  ghost function Apply(env: Env, lowerName: string, raw: Value, m: Migration): Outcome {
    match m
    case Up(connected) => Upgrade(env, lowerName, raw, connected)
    case Down => Downgrade(env, lowerName, raw)
  }

  ghost function ApplyAll(env: Env, lowerName: string, raw: Value, ms: seq<Migration>): Outcome {
    if ms == [] then Done(Result(raw, false))
    else
      var before := ApplyAll(env, lowerName, raw, ms[..|ms| - 1]);
      if before.Raises? then Raises else Apply(env, lowerName, before.result.raw, ms[|ms| - 1])
  }

  /** No sequence of upgrades and downgrades, with any connections, ever touches an edited payload. */
  lemma {:induction false} EditsSurvive(env: Env, lowerName: string, raw: Value, ms: seq<Migration>)
    requires EditedByUser(env, raw)
    ensures ApplyAll(env, lowerName, raw, ms) == Done(Result(raw, false))
  {
    if ms != [] { EditsSurvive(env, lowerName, raw, ms[..|ms| - 1]); }
  }

  /** Changing a generated field of an upgraded payload makes it such a payload. */
  lemma EditingGeneratedField(env: Env, lowerName: string, raw: Value, connected: set<string>, field: Key, v: Value)
    requires Changed(Upgrade(env, lowerName, raw, connected))
    requires var values := Deserialize(env, raw);
      var contract := Contract(env, Lookup(lowerName).value, values, connected);
      field in contract && !PyEquals(v, contract[field])
    ensures var upgraded := Upgrade(env, lowerName, raw, connected).result.raw;
      upgraded.Dict? && EditedByUser(env, Dict(upgraded.entries[field := v]))
  {
    hide Contract, Lookup, Const, PyEquals, Carried, Unwrap;
    var values := Deserialize(env, raw);
    var contract := Contract(env, Lookup(lowerName).value, values, connected);
    ContractKeys(env, Lookup(lowerName).value, values, connected);
    MarkedCarries(raw, values, contract, Upgrade(env, lowerName, raw, connected).result.raw.entries[field := v]);
  }

  lemma EditIsSeen(values: Entries, field: Key, v: Value)
    ensures PyEquals(Dict(values[field := v]), Dict(values)) <==> field in values && PyEquals(v, values[field])
  {
    var edited := values[field := v];
    forall k | k in values ensures PyEquals(values[k], values[k]) {
      PyEqualsReflexive(values[k]);
    }
    assert field in edited && edited[field] == v;
  }

  /** An edit of any other field survives a downgrade too, whatever was stored, while the generated ones are
      undone; text and other stored forms come back as they were only if the edit changed nothing. */
  lemma OtherEditsAreKept(env: Env, lowerName: string, raw: Value, connected: set<string>, field: Key, v: Value)
    requires Changed(Upgrade(env, lowerName, raw, connected)) && field != Marker
    requires field !in Contract(env, Lookup(lowerName).value, Deserialize(env, raw), connected)
    ensures var upgraded := Upgrade(env, lowerName, raw, connected).result.raw;
      var values := Deserialize(env, raw);
      upgraded.Dict?
      && Downgrade(env, lowerName, Dict(upgraded.entries[field := v])) == Done(Result(
           if !raw.Dict? && field in values && PyEquals(v, values[field]) then raw else Dict(values[field := v]), true))
  {
    hide Contract, Lookup, Const, PyEquals, Downgrade, Backup;
    var values := Deserialize(env, raw);
    var contract := Contract(env, Lookup(lowerName).value, values, connected);
    ContractKeys(env, Lookup(lowerName).value, values, connected);
    var marker := Const(Dict(Backup(raw, values, contract)));
    assert Attach(raw, values, contract)[field := v] == (values[field := v] + contract)[Marker := marker];
    assert Shadowed(values, contract) == Shadowed(values[field := v], contract);
    DowngradeMarked(env, lowerName, raw, values, values[field := v], contract);
    EditIsSeen(values, field, v);
  }

  lemma {:induction false} DistinctPortsBind(values: Entries, ports: seq<Port>, connected: set<string>, i: nat)
    requires i < |ports| && forall a, b :: 0 <= a < b < |ports| ==> K(ports[a].path) != K(ports[b].path)
    ensures K(ports[i].path) in Bindings(values, ports, connected) <==> Bound(values, ports[i].field, connected)
    ensures Bound(values, ports[i].field, connected) ==>
      && Bindings(values, ports, connected)[K(ports[i].path)] == Text(ports[i].field)
      && Read(values, ports[i].field, ports[i].default, connected) == ports[i].default
  {
    hide K, Bound;
    var n := |ports| - 1;
    if i < n {
      DistinctPortsBind(values, ports[..n], connected, i);
    } else {
      OnlyItsPorts(values, ports[..n], connected, K(ports[n].path));
    }
  }

  lemma {:induction false} OnlyItsPorts(values: Entries, ports: seq<Port>, connected: set<string>, key: Key)
    requires forall i :: 0 <= i < |ports| ==> K(ports[i].path) != key
    ensures key !in Bindings(values, ports, connected)
  {
    if ports != [] { OnlyItsPorts(values, ports[..|ports| - 1], connected, key); }
  }

  lemma KeyIsItsText(s: string)
    ensures KeyText(K(s)) == Text(s)
  {
  }

  lemma ParamKeysDiffer(node: Node, a: nat, b: nat)
    requires a < b < |Params(node)|
    ensures Params(node)[a].key != Params(node)[b].key
  {
    var x, y := Params(node)[a].key, Params(node)[b].key;
    assert |x| != |y| || x[0] != y[0];
  }

  lemma PortAt(node: Node, i: nat)
    requires i < |Ports(node)|
    ensures var path := Ports(node)[i].path;
      if node == AddColumnByExpression then i <= 1 && path == (if i == 0 then "name" else "expression")
      else if node == SetColumn then i == 0 && path == "target"
      else if i == 0 then path == "selector.tokens.0.value"
      else if i <= |Params(node)| then path == "params." + Params(node)[i - 1].key
      else i == |Params(node)| + 1 && path == "output.target"
  {
  }

  lemma ParamPathsDiffer(node: Node, a: nat, b: nat)
    requires a < b < |Params(node)|
    ensures "params." + Params(node)[a].key != "params." + Params(node)[b].key
  {
    var x, y := Params(node)[a].key, Params(node)[b].key;
    ParamKeysDiffer(node, a, b);
    assert ("params." + x)[7..] == x && ("params." + y)[7..] == y;
  }

  lemma PortPathsDiffer(node: Node, a: nat, b: nat)
    requires a < b < |Ports(node)|
    ensures Ports(node)[a].path != Ports(node)[b].path
  {
    hide Ports, Params;
    var x, y := Ports(node)[a].path, Ports(node)[b].path;
    PortAt(node, a);
    PortAt(node, b);
    if node != AddColumnByExpression && 0 < a && b <= |Params(node)| {
      ParamPathsDiffer(node, a - 1, b - 1);
    } else {
      assert x[0] != y[0];
    }
  }

  /** No two reads of a node fill the same place of its rule. */
  lemma PortsDiffer(node: Node, a: nat, b: nat)
    requires a < b < |Ports(node)|
    ensures K(Ports(node)[a].path) != K(Ports(node)[b].path)
  {
    hide Ports, K, KeyText;
    PortPathsDiffer(node, a, b);
    KeyIsItsText(Ports(node)[a].path);
    KeyIsItsText(Ports(node)[b].path);
  }

  // ---- where a rule holds what was read ---------------------------------------------------------------------------------

  /** The value at the end of a dotted path; a list is entered at its first item. */
  function Follow(v: Value, steps: seq<string>): Option<Value> {
    if steps == [] then Some(v)
    else
      match v
      case Dict(d) => if K(steps[0]) in d then Follow(d[K(steps[0])], steps[1..]) else None
      case List(items) => if steps[0] == "0" && items != [] then Follow(items[0], steps[1..]) else None
      case _ => None
  }

  lemma KeysDiffer(a: string, b: string)
    requires a != b
    ensures K(a) != K(b)
  {
    hide K, KeyText;
    KeyIsItsText(a);
    KeyIsItsText(b);
  }

  /** A record holds at each key the last value listed for it. */
  lemma {:induction false} RecordHolds(fields: seq<(string, Value)>, i: nat)
    requires i < |fields| && forall j :: i < j < |fields| ==> fields[j].0 != fields[i].0
    ensures K(fields[i].0) in Record(fields) && Record(fields)[K(fields[i].0)] == fields[i].1
  {
    hide K;
    if i < |fields| - 1 {
      RecordHolds(fields[..|fields| - 1], i);
      KeysDiffer(fields[i].0, fields[|fields| - 1].0);
    }
  }

  lemma FollowStep(d: Entries, steps: seq<string>)
    requires steps != [] && K(steps[0]) in d
    ensures Follow(Dict(d), steps) == Follow(d[K(steps[0])], steps[1..])
  {
  }

  lemma SelectorHolds(source: Value)
    ensures Follow(Selector(source), ["tokens", "0", "value"]) == Some(source)
  {
    hide K, Record;
    var token := [("kind", Text("name")), ("value", source)];
    var selector := [("tokens", List([Dict(Record(token))]))];
    RecordHolds(token, 1);
    RecordHolds(selector, 0);
    var steps := ["tokens", "0", "value"];
    assert steps[1..] == ["0", "value"] && steps[1..][1..] == ["value"] && steps[1..][1..][1..] == [];
    assert Follow(Dict(Record(token)), ["value"]) == Some(source) by { FollowStep(Record(token), ["value"]); }
    FollowStep(Record(selector), steps);
  }

  lemma ParamsHold(env: Env, node: Node, values: Entries, connected: set<string>, i: nat)
    requires i < |Params(node)|
    ensures var param := Params(node)[i];
      Follow(Dict(RuleParams(env, node, values, connected)), [param.key])
      == Some(Read(values, param.field, param.default, connected))
  {
    hide K, Record, Read, Pairs;
    var params := Params(node);
    var fields := seq(|params|, j requires 0 <= j < |params| =>
      (params[j].key, Read(values, params[j].field, params[j].default, connected)));
    forall j | i < j < |fields| ensures fields[j].0 != fields[i].0 {
      ParamKeysDiffer(node, i, j);
    }
    RecordHolds(fields, i);
    if node == ReplaceValues {
      assert |"pairs"| != |params[i].key|;
      KeysDiffer("pairs", params[i].key);
    }
    FollowStep(RuleParams(env, node, values, connected), [params[i].key]);
  }

  lemma OutputHolds(node: Node, values: Entries, connected: set<string>)
    requires TargetField(node).Some?
    ensures Follow(Dict(RuleOutput(node, values, connected)), ["target"])
         == Some(Read(values, TargetField(node).value, Null, connected))
  {
    hide K, Record, Read;
    var fields := [("mode", Text("new")),
                   ("target", Read(values, TargetField(node).value, Null, connected)),
                   ("fallback_to_source", Bool(node == PeriodStart)),
                   ("require_target", Bool(node == AddTimedelta))];
    assert |fields[2].0| == 18 && |fields[3].0| == 14 && |fields[1].0| == 6;
    RecordHolds(fields, 1);
    FollowStep(RuleOutput(node, values, connected), ["target"]);
  }

  /** The steps of a port's path. */
  function Steps(node: Node, i: nat): seq<string>
    requires i < |Ports(node)|
  {
    match node
    case AddColumnByExpression => [Ports(node)[i].path]
    case SetColumn => [Ports(node)[i].path]
    case _ =>
      if i == 0 then ["selector", "tokens", "0", "value"]
      else if i <= |Params(node)| then ["params", Params(node)[i - 1].key]
      else ["output", "target"]
  }

  lemma SelectorPath()
    ensures Join(["selector", "tokens", "0", "value"], '.') == "selector.tokens.0.value"
  {
    var steps := ["selector", "tokens", "0", "value"];
    assert steps[2..] == ["0", "value"] && steps[3..] == ["value"];
    assert Join(steps[2..], '.') == "0" + "." + Join(steps[3..], '.') by { assert steps[2..][1..] == steps[3..]; }
    assert Join(steps[1..], '.') == "tokens" + "." + Join(steps[2..], '.') by { assert steps[1..][1..] == steps[2..]; }
    assert Join(steps, '.') == "selector" + "." + Join(steps[1..], '.');
  }

  lemma Dotted()
    ensures "params" + "." == "params." && "output" + "." + "target" == "output.target"
  {
  }

  lemma JoinOne(a: string)
    ensures Join([a], '.') == a
  {
  }

  lemma JoinTwo(a: string, b: string)
    ensures Join([a, b], '.') == a + "." + b
  {
    assert [a, b][1..] == [b];
    JoinOne(b);
  }

  lemma StepsArePath(node: Node, i: nat)
    requires i < |Ports(node)|
    ensures Join(Steps(node, i), '.') == Ports(node)[i].path
  {
    PortAt(node, i);
    hide Params, Ports, Join;
    var steps := Steps(node, i);
    if node == AddColumnByExpression || node == SetColumn {
      JoinOne(steps[0]);
    } else if i == 0 {
      SelectorPath();
    } else {
      JoinTwo(steps[0], steps[1]);
      Dotted();
    }
  }

  /** The rule holds at each port's path what was read for it. */
  lemma RuleHolds(env: Env, node: Node, values: Entries, connected: set<string>, i: nat)
    requires i < |Ports(node)|
    ensures var port := Ports(node)[i];
      Follow(Rule(env, node, values, connected), Steps(node, i)) == Some(Read(values, port.field, port.default, connected))
  {
    hide K, Record, Read, RuleParams, RuleOutput, Selector, Bindings, Follow;
    var bindings := Dict(Bindings(values, Ports(node), connected));
    var steps := Steps(node, i);
    match node
    case AddColumnByExpression =>
      var fields := [("name", Read(values, "column_name", Null, connected)),
                     ("expression", Read(values, "expression", Null, connected)),
                     ("overwrite_existing", Bool(true)),
                     ("input_bindings", bindings)];
      assert |"name"| == 4 && |"expression"| == 10 && |"overwrite_existing"| == 18 && |"input_bindings"| == 14;
      RecordHolds(fields, i);
      TopHolds(Record(fields), steps);
    case SetColumn =>
      var fields := [("source", Null), ("target", Read(values, "column_name", Null, connected)), ("input_bindings", bindings)];
      assert |"target"| == 6 && |"input_bindings"| == 14;
      RecordHolds(fields, 1);
      TopHolds(Record(fields), steps);
    case _ => ColumnRuleHolds(env, node, values, connected, i);
  }

  lemma TopHolds(d: Entries, steps: seq<string>)
    requires |steps| == 1 && K(steps[0]) in d
    ensures Follow(Dict(d), steps) == Some(d[K(steps[0])])
  {
    assert steps[1..] == [];
  }

  /** Where a column rule holds its three parts. */
  lemma RulePartsHold(env: Env, node: Node, values: Entries, connected: set<string>)
    requires node != AddColumnByExpression && node != SetColumn
    ensures var rule := Rule(env, node, values, connected);
      && rule.Dict? && K("selector") in rule.entries && K("params") in rule.entries && K("output") in rule.entries
      && rule.entries[K("selector")] == Selector(Read(values, SourceField(node), Null, connected))
      && rule.entries[K("params")] == Dict(RuleParams(env, node, values, connected))
      && rule.entries[K("output")] == Dict(RuleOutput(node, values, connected))
  {
    hide K, Record, Read, RuleParams, RuleOutput, Selector, Bindings, Ports, SourceField;
    var fields := [
      ("id", Text("migrated-v1")),
      ("enabled", Bool(true)),
      ("selector", Selector(Read(values, SourceField(node), Null, connected))),
      ("params", Dict(RuleParams(env, node, values, connected))),
      ("output", Dict(RuleOutput(node, values, connected))),
      ("compatibility", Text("v1")),
      ("input_bindings", Dict(Bindings(values, Ports(node), connected)))];
    assert |"selector"| == 8 && |"params"| == 6 && |"output"| == 6 && |"compatibility"| == 13 && |"input_bindings"| == 14;
    assert "params"[0] != "output"[0];
    RecordHolds(fields, 2);
    RecordHolds(fields, 3);
    RecordHolds(fields, 4);
  }

  lemma ColumnRuleHolds(env: Env, node: Node, values: Entries, connected: set<string>, i: nat)
    requires node != AddColumnByExpression && node != SetColumn && i < |Ports(node)|
    ensures var port := Ports(node)[i];
      Follow(Rule(env, node, values, connected), Steps(node, i)) == Some(Read(values, port.field, port.default, connected))
  {
    hide K, Rule, Read, RuleParams, RuleOutput, Selector, Follow, Params, SourceField, TargetField, Ports, Steps;
    StepsSplit(node, i);
    RulePartsHold(env, node, values, connected);
    FollowStep(Rule(env, node, values, connected).entries, Steps(node, i));
    if i == 0 {
      SelectorHolds(Read(values, SourceField(node), Null, connected));
    } else if i <= |Params(node)| {
      ParamsHold(env, node, values, connected, i - 1);
    } else {
      OutputHolds(node, values, connected);
    }
  }

  /** Each port of a column rule, and where its path leads. */
  lemma StepsSplit(node: Node, i: nat)
    requires node != AddColumnByExpression && node != SetColumn && i < |Ports(node)|
    ensures var port, steps := Ports(node)[i], Steps(node, i);
      && steps != []
      && (i == 0 ==>
            && port.field == SourceField(node) && port.default == Null
            && steps[0] == "selector" && steps[1..] == ["tokens", "0", "value"])
      && (0 < i <= |Params(node)| ==>
            && port.field == Params(node)[i - 1].field && port.default == Params(node)[i - 1].default
            && steps[0] == "params" && steps[1..] == [Params(node)[i - 1].key])
      && (i > |Params(node)| ==>
            && TargetField(node).Some? && port.field == TargetField(node).value && port.default == Null
            && steps[0] == "output" && steps[1..] == ["target"])
  {
    hide Params, SourceField, TargetField;
    assert ["selector", "tokens", "0", "value"][1..] == ["tokens", "0", "value"] && ["output", "target"][1..] == ["target"];
    if 0 < i <= |Params(node)| {
      assert ["params", Params(node)[i - 1].key][1..] == [Params(node)[i - 1].key];
    }
  }

  /** An input fed by a link or an expression is never copied into a rule: its port is recorded under the
      path and the rule holds only the placeholder there; any other input is not recorded, and the rule
      holds its own value there, or the default if it has none. */
  lemma BindingsAreThePorts(env: Env, values: Entries, node: Node, connected: set<string>, i: nat)
    requires i < |Ports(node)|
    ensures var port := Ports(node)[i]; var bindings := Bindings(values, Ports(node), connected);
      var held := Follow(Rule(env, node, values, connected), Steps(node, i));
      && Join(Steps(node, i), '.') == port.path
      && (K(port.path) in bindings <==> Bound(values, port.field, connected))
      && (Bound(values, port.field, connected) ==> bindings[K(port.path)] == Text(port.field) && held == Some(port.default))
      && (!Bound(values, port.field, connected) ==>
            held == Some(if K(port.field) in values then Unwrap(values[K(port.field)]) else port.default))
  {
    hide K, Bound, Bindings, Ports, Rule, Join, Follow, Steps;
    forall a, b | 0 <= a < b < |Ports(node)| ensures K(Ports(node)[a].path) != K(Ports(node)[b].path) {
      PortsDiffer(node, a, b);
    }
    DistinctPortsBind(values, Ports(node), connected, i);
    StepsArePath(node, i);
    RuleHolds(env, node, values, connected, i);
  }

  // ---- what a rule holds besides ------------------------------------------------------------------------------------

  lemma TopField(fields: seq<(string, Value)>, i: nat)
    requires i < |fields| && forall j :: i < j < |fields| ==> fields[j].0 != fields[i].0
    ensures Follow(Dict(Record(fields)), [fields[i].0]) == Some(fields[i].1)
  {
    hide K, Record, Follow;
    RecordHolds(fields, i);
    TopHolds(Record(fields), [fields[i].0]);
  }

  /** One pair of a replace rule: the key is what is replaced, the value stored under it the replacement. */
  ghost predicate IsPair(pair: Value, old_: Value, new_: Value) {
    && Follow(pair, ["old"]) == Some(old_)
    && Follow(pair, ["new"]) == Some(new_)
  }

  lemma PairHolds(old_: Value, new_: Value)
    ensures IsPair(Dict(Record([("old", old_), ("new", new_)])), old_, new_)
  {
    hide Record, Follow;
    var fields := [("old", old_), ("new", new_)];
    assert "old"[0] != "new"[0];
    TopField(fields, 0);
    TopField(fields, 1);
  }

  /** The pairs of a replace rule: one for each key of the dictionary that was read, in the order of its items; none
      if what was read is no dictionary. */
  lemma PairsExactly(env: Env, values: Entries, connected: set<string>)
    ensures var pairs := Follow(Rule(env, ReplaceValues, values, connected), ["params", "pairs"]);
      var dictionary := Read(values, "dictionary", Null, connected);
      && pairs.Some? && pairs.value.List?
      && (!dictionary.Dict? ==> pairs.value.items == [])
      && (dictionary.Dict? ==>
            var keys := env.order(dictionary.entries);
            && |pairs.value.items| == |keys|
            && forall i :: 0 <= i < |keys| ==>
                 IsPair(pairs.value.items[i], KeyText(keys[i]), Get(dictionary.entries, keys[i])))
  {
    hide K, Record, Read, Follow, Rule, KeyText, IsPair;
    var dictionary := Read(values, "dictionary", Null, connected);
    PairsPath(env, values, connected);
    if dictionary.Dict? {
      var keys := env.order(dictionary.entries);
      forall i | 0 <= i < |keys| ensures IsPair(Pairs(env, dictionary).items[i], KeyText(keys[i]), Get(dictionary.entries, keys[i])) {
        PairHolds(KeyText(keys[i]), Get(dictionary.entries, keys[i]));
      }
    }
  }

  lemma PairsPath(env: Env, values: Entries, connected: set<string>)
    ensures Follow(Rule(env, ReplaceValues, values, connected), ["params", "pairs"])
         == Some(Pairs(env, Read(values, "dictionary", Null, connected)))
  {
    hide K, Record, Read, Follow, Rule, Pairs, Selector, RuleOutput;
    RulePartsHold(env, ReplaceValues, values, connected);
    var params := RuleParams(env, ReplaceValues, values, connected);
    TopHolds(params, ["pairs"]);
    FollowStep(Rule(env, ReplaceValues, values, connected).entries, ["params", "pairs"]);
    assert ["params", "pairs"][1..] == ["pairs"];
  }

  /** The parts of a column rule that are the same for every payload. */
  lemma ColumnRuleFixed(env: Env, node: Node, values: Entries, connected: set<string>)
    requires node != AddColumnByExpression && node != SetColumn
    ensures var rule := Rule(env, node, values, connected);
      && Follow(rule, ["id"]) == Some(Text("migrated-v1"))
      && Follow(rule, ["enabled"]) == Some(Bool(true))
      && Follow(rule, ["compatibility"]) == Some(Text("v1"))
      && Follow(rule, ["input_bindings"]) == Some(Dict(Bindings(values, Ports(node), connected)))
  {
    hide K, Record, Read, RuleParams, RuleOutput, Selector, Bindings, Ports, SourceField, Follow;
    var fields := [
      ("id", Text("migrated-v1")),
      ("enabled", Bool(true)),
      ("selector", Selector(Read(values, SourceField(node), Null, connected))),
      ("params", Dict(RuleParams(env, node, values, connected))),
      ("output", Dict(RuleOutput(node, values, connected))),
      ("compatibility", Text("v1")),
      ("input_bindings", Dict(Bindings(values, Ports(node), connected)))];
    assert |"id"| == 2 && |"enabled"| == 7 && |"selector"| == 8 && |"params"| == 6 && |"output"| == 6;
    assert |"compatibility"| == 13 && |"input_bindings"| == 14;
    TopField(fields, 0);
    TopField(fields, 1);
    TopField(fields, 5);
    TopField(fields, 6);
  }

  /** Only the two nodes with a target column write to a new one: the first falls back to its source, the second insists
      on a target. */
  lemma OutputExactly(env: Env, node: Node, values: Entries, connected: set<string>)
    requires node != AddColumnByExpression && node != SetColumn
    ensures var output := Follow(Rule(env, node, values, connected), ["output"]);
      && output.Some?
      && Follow(output.value, ["mode"]) == Some(Text(if node == PeriodStart || node == AddTimedelta then "new" else "replace"))
      && Follow(output.value, ["fallback_to_source"]) ==
           (if node == PeriodStart then Some(Bool(true)) else if node == AddTimedelta then Some(Bool(false)) else None)
      && Follow(output.value, ["require_target"]) ==
           (if node == PeriodStart then Some(Bool(false)) else if node == AddTimedelta then Some(Bool(true)) else None)
  {
    hide K, Record, Read, Rule, RuleParams, Selector, Follow;
    RulePartsHold(env, node, values, connected);
    TopHolds(Rule(env, node, values, connected).entries, ["output"]);
    if TargetField(node).Some? {
      TargetOutput(node, values, connected);
    } else {
      ReplaceOutput();
    }
  }

  lemma TargetOutput(node: Node, values: Entries, connected: set<string>)
    requires TargetField(node).Some?
    ensures var output := Dict(RuleOutput(node, values, connected));
      && Follow(output, ["mode"]) == Some(Text("new"))
      && Follow(output, ["fallback_to_source"]) == Some(Bool(node == PeriodStart))
      && Follow(output, ["require_target"]) == Some(Bool(node == AddTimedelta))
  {
    hide K, Record, Read, Follow;
    var fields := [("mode", Text("new")),
                   ("target", Read(values, TargetField(node).value, Null, connected)),
                   ("fallback_to_source", Bool(node == PeriodStart)),
                   ("require_target", Bool(node == AddTimedelta))];
    assert |"mode"| == 4 && |"target"| == 6 && |"fallback_to_source"| == 18 && |"require_target"| == 14;
    TopField(fields, 0);
    TopField(fields, 2);
    TopField(fields, 3);
  }

  lemma ReplaceOutput()
    ensures var output := Dict(Record([("mode", Text("replace"))]));
      && Follow(output, ["mode"]) == Some(Text("replace"))
      && Follow(output, ["fallback_to_source"]) == None && Follow(output, ["require_target"]) == None
  {
    var fields := [("mode", Text("replace"))];
    TopField(fields, 0);
    assert |"mode"| == 4 && |"fallback_to_source"| == 18 && |"require_target"| == 14;
    KeysDiffer("mode", "fallback_to_source");
    KeysDiffer("mode", "require_target");
    assert fields[..0] == [];
    hide K;
  }

  /** The two other contracts: a calculated column overwrites, and a column binding names no source. */
  lemma OtherRulesFixed(env: Env, values: Entries, connected: set<string>)
    ensures var rule := Rule(env, AddColumnByExpression, values, connected);
      && Follow(rule, ["overwrite_existing"]) == Some(Bool(true))
      && Follow(rule, ["input_bindings"]) == Some(Dict(Bindings(values, Ports(AddColumnByExpression), connected)))
    ensures var rule := Rule(env, SetColumn, values, connected);
      && Follow(rule, ["source"]) == Some(Null)
      && Follow(rule, ["input_bindings"]) == Some(Dict(Bindings(values, Ports(SetColumn), connected)))
  {
    hide K, Record, Read, Bindings, Ports, Follow;
    var calculated := [("name", Read(values, "column_name", Null, connected)),
                       ("expression", Read(values, "expression", Null, connected)),
                       ("overwrite_existing", Bool(true)),
                       ("input_bindings", Dict(Bindings(values, Ports(AddColumnByExpression), connected)))];
    assert |"overwrite_existing"| == 18 && |"input_bindings"| == 14 && |"source"| == 6 && |"target"| == 6 && "source"[0] != "target"[0];
    TopField(calculated, 2);
    TopField(calculated, 3);
    var bound := [("source", Null), ("target", Read(values, "column_name", Null, connected)),
                  ("input_bindings", Dict(Bindings(values, Ports(SetColumn), connected)))];
    TopField(bound, 0);
    TopField(bound, 2);
  }

  /** An upgraded payload holds its one rule as a constant list under the field of its contract, and everything that was
      stored elsewhere. */
  lemma UpgradedHolds(env: Env, lowerName: string, raw: Value, connected: set<string>)
    requires Changed(Upgrade(env, lowerName, raw, connected))
    ensures var node, values := Lookup(lowerName).value, Deserialize(env, raw);
      var upgraded := Upgrade(env, lowerName, raw, connected).result.raw;
      var field := if node == AddColumnByExpression then CalculatedColumns else if node == SetColumn then ColumnBindings else ColumnRulesKey;
      && upgraded.Dict?
      && field in upgraded.entries && Unwrap(upgraded.entries[field]) == List([Rule(env, node, values, connected)])
      && (node == SetColumn ==> OverwriteExisting in upgraded.entries && Unwrap(upgraded.entries[OverwriteExisting]) == Bool(true))
      && (forall k :: k in values && k != field && k != Marker && (node != SetColumn || k != OverwriteExisting) ==>
            k in upgraded.entries && upgraded.entries[k] == values[k])
  {
    hide Rule, Lookup, Backup, Const, Unwrap;
    var values := Deserialize(env, raw);
    ConstUnwraps(List([Rule(env, Lookup(lowerName).value, values, connected)]));
    ConstUnwraps(Bool(true));
  }
}
