/** The recursive payload rewriting of migration 0045, in both directions
    (migrations/versions/0045_normalize_variable_io_and_input_payloads.py:116-218). */
module VariablePayloads {
  import opened Options
  import opened ReferenceExpressions

  datatype Payload =
    | Null
    | Bool(b: bool)
    | Number(x: real)
    | Text(s: PyStr)
    | List(items: seq<Payload>)
    | Dict(entries: map<Key, Payload>)

  /** The keys the migration knows by name, and all others. */
  datatype Key =
    | DvtType
    | Mode
    | Name
    | VarType
    | Expression
    | ExpressionKind
    | Value
    | Variables
    | InputVariables
    | Other(text: string)

  type Entries = map<Key, Payload>

  /** Everything taken as given: Python's literals, and the text `json.dumps` gives a name that
      is not a string. */
  datatype Env = Env(py: Python, dumpsOther: Payload -> PyStr)

  const VAR: PyStr := [118, 97, 114]
  const EXPR: PyStr := [101, 120, 112, 114]
  const SINGLE: PyStr := [115, 105, 110, 103, 108, 101]

  predicate IsContainer(p: Payload) {
    p.List? || p.Dict?
  }

  predicate Is(d: Entries, key: Key, text: PyStr) {
    key in d && d[key] == Text(text)
  }

  function Pop(d: Entries, key: Key): Payload {
    if key in d then d[key] else Null
  }

  // ---- one node ------------------------------------------------------------------------------

  function EncodeReference(env: Env, name: Payload): PyStr {
    if name.Text? then EncodeName(env.py, name.s) else Indexed(env.dumpsOther(name))
  }

  function DecodeReference(env: Env, expression: Payload): Option<PyStr> {
    if expression.Text? then DecodeExpression(env.py, expression.s) else None
  }

  predicate IsVar(d: Entries) {
    Is(d, DvtType, VAR)
  }

  predicate IsExpr(d: Entries) {
    Is(d, DvtType, EXPR)
  }

  predicate InExprMode(d: Entries) {
    Is(d, Mode, EXPR)
  }

  /** `_upgrade_payload`. */
  function UpgradeNode(env: Env, d: Entries): Entries {
    if IsVar(d) && InExprMode(d) then
      (d - {Expression, Mode, Name, VarType})[DvtType := Text(EXPR)][Value := Pop(d, Expression)]
    else if IsVar(d) then
      (d - {Name, Mode, VarType})[DvtType := Text(EXPR)][ExpressionKind := Text(SINGLE)]
        [Value := Text(EncodeReference(env, Pop(d, Name)))]
    else if IsExpr(d) then d - {VarType}
    else d
  }

  /** `_downgrade_payload`. */
  function DowngradeNode(env: Env, d: Entries): Entries {
    if !IsExpr(d) then d
    else
      var name := if Is(d, ExpressionKind, SINGLE) then DecodeReference(env, Pop(d, Value)) else None;
      var rest := (d - {Value, VarType})[DvtType := Text(VAR)];
      if name.Some? then (rest - {ExpressionKind})[Name := Text(name.value)]
      else rest[Mode := Text(EXPR)][Expression := Pop(d, Value)]
  }

  function RewriteNode(env: Env, d: Entries, upgrade: bool): Entries {
    if upgrade then UpgradeNode(env, d) else DowngradeNode(env, d)
  }

  predicate NodeChanges(d: Entries, upgrade: bool) {
    if upgrade then IsVar(d) || (IsExpr(d) && VarType in d) else IsExpr(d)
  }

  /** A variable node becomes an expression node. In expression mode it keeps its expression as value; otherwise the value
      refers to its name and is a single expression. The name, the mode and the type go, and all else stays. */
  lemma UpgradedFields(env: Env, d: Entries)
    requires IsVar(d)
    ensures var r := UpgradeNode(env, d);
      && Is(r, DvtType, EXPR) && Value in r && Name !in r && Mode !in r && VarType !in r
      && (if InExprMode(d) then Expression !in r && r[Value] == Pop(d, Expression)
          else Is(r, ExpressionKind, SINGLE) && r[Value] == Text(EncodeReference(env, Pop(d, Name))))
      && forall k :: k !in {DvtType, Value, Name, Mode, VarType} && k != (if InExprMode(d) then Expression else ExpressionKind) ==>
           (k in r <==> k in d) && (k in r ==> r[k] == d[k])
  {
    hide EncodeReference;
  }

  /** An expression node becomes a variable node: of the name that its value refers to, if it is a single expression that
      refers to one, and otherwise in expression mode. The type goes, and all else stays. */
  lemma DowngradedFields(env: Env, d: Entries)
    requires IsExpr(d)
    ensures var r := DowngradeNode(env, d);
      var name := if Is(d, ExpressionKind, SINGLE) then DecodeReference(env, Pop(d, Value)) else None;
      && Is(r, DvtType, VAR) && Value !in r && VarType !in r
      && (if name.Some? then ExpressionKind !in r && Is(r, Name, name.value)
          else Is(r, Mode, EXPR) && Expression in r && r[Expression] == Pop(d, Value))
      && forall k :: k !in {DvtType, Value, VarType} && k !in (if name.Some? then {ExpressionKind, Name} else {Mode, Expression}) ==>
           (k in r <==> k in d) && (k in r ==> r[k] == d[k])
  {
    hide DecodeReference;
  }

  /** A node's containers after rewriting were its containers before. */
  lemma ContainersKept(env: Env, d: Entries, upgrade: bool, key: Key)
    requires key in RewriteNode(env, d, upgrade) && IsContainer(RewriteNode(env, d, upgrade)[key])
    ensures exists k :: k in d && d[k] == RewriteNode(env, d, upgrade)[key]
  {
    var x := RewriteNode(env, d, upgrade)[key];
    if key in d && d[key] == x {
    } else if Expression in d && d[Expression] == x {
    } else {
      assert Value in d && d[Value] == x;
    }
  }

  // ---- the whole tree ---------------------------------------------------------------------------

  /** `_normalize_payload`: the node first, then whatever it holds. */
  function Normalize(env: Env, p: Payload, upgrade: bool): Payload
    decreases p, 1, 0
  {
    match p
    case List(items) => List(NormalizeItems(env, p, |items|, upgrade))
    case Dict(d) =>
      var d' := RewriteNode(env, d, upgrade);
      Dict(map k | k in d' :: NormalizeValue(env, p, k, upgrade))
    case _ => p
  }

  function NormalizeItems(env: Env, p: Payload, n: nat, upgrade: bool): (r: seq<Payload>)
    requires p.List? && n <= |p.items|
    ensures |r| == n
    decreases p, 0, n
  {
    if n == 0 then []
    else NormalizeItems(env, p, n - 1, upgrade) + [Normalize(env, p.items[n - 1], upgrade)]
  }

  function NormalizeValue(env: Env, p: Payload, key: Key, upgrade: bool): Payload
    requires p.Dict? && key in RewriteNode(env, p.entries, upgrade)
    decreases p, 0, 0
  {
    var x := RewriteNode(env, p.entries, upgrade)[key];
    if !IsContainer(x) then x
    else
      ContainersKept(env, p.entries, upgrade, key);
      assert exists k :: k in p.entries && p.entries[k] == x;
      Normalize(env, x, upgrade)
  }

  lemma {:induction false} NormalizeItemsAt(env: Env, p: Payload, n: nat, upgrade: bool, i: nat)
    requires p.List? && i < n <= |p.items|
    ensures NormalizeItems(env, p, n, upgrade)[i] == Normalize(env, p.items[i], upgrade)
  {
    if i < n - 1 { NormalizeItemsAt(env, p, n - 1, upgrade, i); }
  }

  /** A dictionary after rewriting, key by key. */
  lemma NormalizeDict(env: Env, d: Entries, upgrade: bool)
    ensures var r := Normalize(env, Dict(d), upgrade);
      && r.Dict?
      && r.entries.Keys == RewriteNode(env, d, upgrade).Keys
      && forall k :: k in r.entries ==> r.entries[k] == Normalize(env, RewriteNode(env, d, upgrade)[k], upgrade)
  {
  }

  // ---- what an upgrade leaves behind -----------------------------------------------------------------

  /** No `var` node and no `expr` node with a `var_type`, at any depth. */
  ghost predicate Clean(p: Payload) {
    match p
    case List(items) => forall i :: 0 <= i < |items| ==> Clean(items[i])
    case Dict(d) => !NodeChanges(d, true) && forall k :: k in d ==> Clean(d[k])
    case _ => true
  }

  lemma {:induction false} UpgradeCleans(env: Env, p: Payload)
    ensures Clean(Normalize(env, p, true))
  {
    match p
    case List(items) =>
      forall i | 0 <= i < |items| ensures Clean(NormalizeItems(env, p, |items|, true)[i]) {
        NormalizeItemsAt(env, p, |items|, true, i);
        UpgradeCleans(env, items[i]);
      }
    case Dict(d) =>
      NormalizeDict(env, d, true);
      var u, r := UpgradeNode(env, d), Normalize(env, p, true).entries;
      forall k | k in r ensures Clean(r[k]) {
        if IsContainer(u[k]) {
          ContainersKept(env, d, true, k);
          UpgradeCleans(env, u[k]);
        }
      }
    case _ =>
  }

  lemma {:induction false} CleanIsFixed(env: Env, p: Payload)
    requires Clean(p)
    ensures Normalize(env, p, true) == p
  {
    match p
    case List(items) =>
      forall i | 0 <= i < |items| ensures NormalizeItems(env, p, |items|, true)[i] == items[i] {
        NormalizeItemsAt(env, p, |items|, true, i);
        CleanIsFixed(env, items[i]);
      }
    case Dict(d) =>
      NormalizeDict(env, d, true);
      assert UpgradeNode(env, d) == d;
      forall k | k in d ensures Normalize(env, d[k], true) == d[k] {
        CleanIsFixed(env, d[k]);
      }
    case _ =>
  }

  /** Upgrading twice is upgrading once. */
  lemma UpgradeIdempotent(env: Env, p: Payload)
    ensures Normalize(env, Normalize(env, p, true), true) == Normalize(env, p, true)
  {
    UpgradeCleans(env, p);
    CleanIsFixed(env, Normalize(env, p, true));
  }

  // ---- the changed flag ------------------------------------------------------------------------------------

  /** What `_normalize_payload` reports as its second result. */
  predicate Changed(env: Env, p: Payload, upgrade: bool)
    decreases p, 1
  {
    match p
    case List(items) => exists i :: 0 <= i < |items| && Changed(env, items[i], upgrade)
    case Dict(d) => NodeChanges(d, upgrade) || exists k :: k in d && Changed(env, d[k], upgrade)
    case _ => false
  }

  lemma NodeChangesExactly(env: Env, d: Entries, upgrade: bool)
    ensures !NodeChanges(d, upgrade) ==> RewriteNode(env, d, upgrade) == d
    ensures NodeChanges(d, upgrade) ==>
      var d' := RewriteNode(env, d, upgrade);
      || (DvtType in d' && d'[DvtType] != d[DvtType] && !IsContainer(d'[DvtType]))
      || (VarType in d && VarType !in d')
  {
  }

  /** The flag is set exactly when the payload comes out different, in both directions. */
  lemma {:induction false} ChangedExactly(env: Env, p: Payload, upgrade: bool)
    ensures Changed(env, p, upgrade) <==> Normalize(env, p, upgrade) != p
  {
    match p
    case List(items) =>
      var r := NormalizeItems(env, p, |items|, upgrade);
      forall i | 0 <= i < |items| ensures Changed(env, items[i], upgrade) <==> r[i] != items[i] {
        NormalizeItemsAt(env, p, |items|, upgrade, i);
        ChangedExactly(env, items[i], upgrade);
      }
    case Dict(d) =>
      NormalizeDict(env, d, upgrade);
      NodeChangesExactly(env, d, upgrade);
      var r := Normalize(env, p, upgrade).entries;
      if !NodeChanges(d, upgrade) {
        forall k | k in d ensures Changed(env, d[k], upgrade) <==> r[k] != d[k] {
          ChangedExactly(env, d[k], upgrade);
        }
      }
    case _ =>
  }

  /** `_normalize_payload` with its loops. */
  method NormalizePayload(env: Env, p: Payload, upgrade: bool) returns (r: Payload, changed: bool)
    ensures r == Normalize(env, p, upgrade)
    ensures changed <==> r != p
    decreases p
  {
    ChangedExactly(env, p, upgrade);
    match p
    case List(items) =>
      var updated: seq<Payload> := [];
      changed := false;
      for i := 0 to |items|
        invariant updated == NormalizeItems(env, p, i, upgrade)
        invariant changed <==> exists j :: 0 <= j < i && Changed(env, items[j], upgrade)
      {
        ChangedExactly(env, items[i], upgrade);
        var item, itemChanged := NormalizePayload(env, items[i], upgrade);
        updated := updated + [item];
        changed := changed || itemChanged;
      }
      r := List(updated);
    case Dict(d) =>
      r, changed := NormalizeEntries(env, d, upgrade);
    case _ =>
      r, changed := p, false;
  }

  lemma EntriesChanged(env: Env, d: Entries, upgrade: bool)
    ensures var d' := RewriteNode(env, d, upgrade);
      Normalize(env, Dict(d), upgrade) != Dict(d)
      <==> NodeChanges(d, upgrade) || exists k :: k in d' && Normalize(env, d'[k], upgrade) != d'[k]
  {
    ChangedExactly(env, Dict(d), upgrade);
    NodeChangesExactly(env, d, upgrade);
    if !NodeChanges(d, upgrade) {
      forall k | k in d ensures Changed(env, d[k], upgrade) <==> Normalize(env, d[k], upgrade) != d[k] {
        ChangedExactly(env, d[k], upgrade);
      }
    }
  }

  method NormalizeEntries(env: Env, d: Entries, upgrade: bool) returns (r: Payload, changed: bool)
    ensures r == Normalize(env, Dict(d), upgrade)
    ensures changed <==> r != Dict(d)
    decreases Dict(d), 0
  {
    hide RewriteNode, Changed, Normalize, NodeChanges;
    var updated := RewriteNode(env, d, upgrade);
    ghost var d' := updated;
    NormalizeDict(env, d, upgrade);
    EntriesChanged(env, d, upgrade);
    changed := NodeChanges(d, upgrade);
    var rest := updated.Keys;
    while rest != {}
      invariant updated.Keys == d'.Keys && rest <= d'.Keys
      invariant forall k :: k in d' ==> updated[k] == if k in rest then d'[k] else Normalize(env, d'[k], upgrade)
      invariant changed <==>
        (NodeChanges(d, upgrade) || exists k :: k in d' && k !in rest && Normalize(env, d'[k], upgrade) != d'[k])
      decreases rest
    {
      var key :| key in rest;
      TextsStay(env, d'[key], upgrade);
      if IsContainer(updated[key]) {
        ContainersKept(env, d, upgrade, key);
        var value, valueChanged := NormalizePayload(env, updated[key], upgrade);
        updated := updated[key := value];
        changed := changed || valueChanged;
      }
      rest := rest - {key};
    }
    r := Dict(updated);
  }

  // ---- upgrade then downgrade ------------------------------------------------------------------------------

  /** What an upgrade forgets about a `var` node: its type, and the field its mode does not use. */
  function StripNode(d: Entries): Entries {
    if IsVar(d) && InExprMode(d) then d - {Name, VarType}
    else if IsVar(d) then d - {Mode, VarType}
    else d
  }

  function Strip(p: Payload): Payload {
    match p
    case List(items) => List(seq(|items|, i requires 0 <= i < |items| => Strip(items[i])))
    case Dict(d) => Dict(map k | k in StripNode(d) :: Strip(d[k]))
    case _ => p
  }

  /** A node that comes back: a reference to a string name that can be written, or an expression
      that cannot be mistaken for a reference; neither with the fields the new form uses. */
  predicate CanonicalNode(env: Env, d: Entries) {
    && !IsExpr(d)
    && (IsVar(d) ==> Value !in d)
    && (IsVar(d) && InExprMode(d) ==>
          Expression in d && !(Is(d, ExpressionKind, SINGLE) && DecodeReference(env, d[Expression]).Some?))
    && (IsVar(d) && !InExprMode(d) ==>
          ExpressionKind !in d && Name in d && d[Name].Text? && !HasSurrogate(d[Name].s))
  }

  predicate Canonical(env: Env, p: Payload) {
    match p
    case List(items) => forall i :: 0 <= i < |items| ==> Canonical(env, items[i])
    case Dict(d) => CanonicalNode(env, d) && forall k :: k in StripNode(d) ==> Canonical(env, d[k])
    case _ => true
  }

  function UpDown(env: Env, p: Payload): Payload {
    Normalize(env, Normalize(env, p, true), false)
  }

  /** A normalised value is a text only if it was that text already. */
  lemma TextsStay(env: Env, p: Payload, upgrade: bool)
    ensures IsContainer(Normalize(env, p, upgrade)) <==> IsContainer(p)
    ensures !IsContainer(p) ==> Normalize(env, p, upgrade) == p
  {
  }

  function MapNormalize(env: Env, d: Entries, upgrade: bool): Entries {
    map k | k in d :: Normalize(env, d[k], upgrade)
  }

  /** Downgrading a node does not care whether what it holds was upgraded first. */
  lemma DowngradeCommutes(env: Env, d: Entries)
    ensures DowngradeNode(env, MapNormalize(env, d, true)) == MapNormalize(env, DowngradeNode(env, d), true)
  {
    hide Normalize, DecodeExpression;
    forall k | k in d ensures IsContainer(Normalize(env, d[k], true)) <==> IsContainer(d[k])
      ensures !IsContainer(d[k]) ==> Normalize(env, d[k], true) == d[k]
    {
      TextsStay(env, d[k], true);
    }
    TextsStay(env, Text(VAR), true);
    TextsStay(env, Text(EXPR), true);
    TextsStay(env, Null, true);
    forall n: PyStr ensures Normalize(env, Text(n), true) == Text(n) {
      TextsStay(env, Text(n), true);
    }
  }

  function BackNode(env: Env, d: Entries): Entries {
    DowngradeNode(env, UpgradeNode(env, d))
  }

  lemma UpDownDict(env: Env, d: Entries)
    ensures var r := UpDown(env, Dict(d));
      && r.Dict?
      && r.entries.Keys == BackNode(env, d).Keys
      && forall k :: k in r.entries ==> r.entries[k] == UpDown(env, BackNode(env, d)[k])
  {
    var u := UpgradeNode(env, d);
    NormalizeDict(env, d, true);
    hide Normalize, UpgradeNode, DowngradeNode;
    assert Normalize(env, Dict(d), true).entries == MapNormalize(env, u, true);
    NormalizeDict(env, MapNormalize(env, u, true), false);
    DowngradeCommutes(env, u);
  }

  /** Two nodes that cannot be made equal by rewriting what they hold. */
  ghost predicate Apart(a: Entries, b: Entries) {
    a.Keys != b.Keys || exists k :: k in a && k in b && a[k].Text? && a[k] != b[k]
  }

  lemma ReferenceRoundTrip(env: Env, d: Entries)
    requires IsVar(d) && !InExprMode(d)
    ensures CanonicalNode(env, d) ==> BackNode(env, d) == StripNode(d)
    ensures !CanonicalNode(env, d) ==> Apart(BackNode(env, d), StripNode(d))
  {
    hide EncodeName, DecodeExpression, Indexed;
    var name := Pop(d, Name);
    var u, b, s := UpgradeNode(env, d), BackNode(env, d), StripNode(d);
    var back := DecodeExpression(env.py, EncodeReference(env, name));
    if name.Text? { NameRoundTrip(env.py, name.s); }
    assert IsExpr(u) && Is(u, ExpressionKind, SINGLE) && u[Value] == Text(EncodeReference(env, name));
    if back.None? {
      assert Mode in b && Mode !in s;
    } else {
      assert b == (d - {Name, Mode, VarType, Value, ExpressionKind})[DvtType := Text(VAR)][Name := Text(back.value)];
      if Value in d { assert Value in s && Value !in b; }
      if ExpressionKind in d { assert ExpressionKind in s && ExpressionKind !in b; }
      if Name !in d {
        assert Name in b && Name !in s;
      } else if !d[Name].Text? {
        assert b[Name] == Text(back.value) && s[Name] == d[Name];
      }
    }
  }

  lemma ExpressionRoundTrip(env: Env, d: Entries)
    requires IsVar(d) && InExprMode(d)
    ensures CanonicalNode(env, d) ==> BackNode(env, d) == StripNode(d)
    ensures !CanonicalNode(env, d) ==> Apart(BackNode(env, d), StripNode(d))
  {
    hide DecodeReference;
    var u, b, s := UpgradeNode(env, d), BackNode(env, d), StripNode(d);
    var e := Pop(d, Expression);
    assert IsExpr(u) && u[Value] == e;
    if Is(d, ExpressionKind, SINGLE) && DecodeReference(env, e).Some? {
      assert Name in b && Name !in s;
    } else {
      assert b == (d - {Mode, Name, VarType, Value})[DvtType := Text(VAR)][Mode := Text(EXPR)][Expression := e];
      if Value in d { assert Value in s && Value !in b; }
      if Expression !in d { assert Expression in b && Expression !in s; }
    }
  }

  /** A canonical node comes back stripped; any other comes back with other keys or another text. */
  lemma NodeRoundTrip(env: Env, d: Entries)
    ensures CanonicalNode(env, d) ==> BackNode(env, d) == StripNode(d)
    ensures !CanonicalNode(env, d) ==> Apart(BackNode(env, d), StripNode(d))
  {
    if IsVar(d) && InExprMode(d) {
      ExpressionRoundTrip(env, d);
    } else if IsVar(d) {
      ReferenceRoundTrip(env, d);
    } else if IsExpr(d) {
      assert BackNode(env, d)[DvtType] == Text(VAR);
    }
  }

  lemma StripTexts(p: Payload, t: PyStr)
    ensures Strip(p) == Text(t) <==> p == Text(t)
  {
  }

  /** A payload comes back from upgrade and downgrade as itself, minus only what an upgrade
      forgets, exactly when every node in it that survives is canonical. */
  lemma {:induction false} RoundTripExactly(env: Env, p: Payload)
    ensures UpDown(env, p) == Strip(p) <==> Canonical(env, p)
    decreases p, 1
  {
    match p
    case List(items) =>
      var u := Normalize(env, p, true);
      forall i | 0 <= i < |items|
        ensures UpDown(env, p).items[i] == UpDown(env, items[i])
        ensures UpDown(env, items[i]) == Strip(items[i]) <==> Canonical(env, items[i])
      {
        NormalizeItemsAt(env, p, |items|, true, i);
        NormalizeItemsAt(env, u, |items|, false, i);
        RoundTripExactly(env, items[i]);
      }
      assert UpDown(env, p) == Strip(p) <==>
        forall i :: 0 <= i < |items| ==> UpDown(env, p).items[i] == Strip(items[i]) by {
        assert UpDown(env, p).List? && |UpDown(env, p).items| == |items|;
      }
    case Dict(d) => DictRoundTrip(env, d);
    case _ =>
  }

  lemma {:induction false} DictRoundTrip(env: Env, d: Entries)
    ensures UpDown(env, Dict(d)) == Strip(Dict(d)) <==> Canonical(env, Dict(d))
    decreases Dict(d), 0
  {
    hide UpDown, StripNode, BackNode, CanonicalNode, Canonical, Apart, StrippedEntries;
    UpDownDict(env, d);
    NodeRoundTrip(env, d);
    StripDict(d);
    var r, s := UpDown(env, Dict(d)).entries, Strip(Dict(d)).entries;
    if CanonicalNode(env, d) {
      forall k | k in StripNode(d) ensures UpDown(env, d[k]) == Strip(d[k]) <==> Canonical(env, d[k]) {
        RoundTripExactly(env, d[k]);
      }
      SameEntries(env, d, r, s);
    } else {
      NodesApart(env, d, r, s);
      NotCanonical(env, d);
    }
  }

  lemma NotCanonical(env: Env, d: Entries)
    requires !CanonicalNode(env, d)
    ensures !Canonical(env, Dict(d))
  {
  }

  lemma StripDict(d: Entries)
    ensures StrippedEntries(d, Strip(Dict(d)).entries)
    ensures forall k :: k in StripNode(d) ==> k in d && StripNode(d)[k] == d[k]
    ensures Strip(Dict(d)).entries.Keys == StripNode(d).Keys
  {
  }

  /** `s` is `d` without what an upgrade forgets, stripped below. */
  ghost predicate StrippedEntries(d: Entries, s: Entries) {
    s.Keys == StripNode(d).Keys && forall k :: k in s ==> k in d && s[k] == Strip(d[k])
  }

  lemma SameEntries(env: Env, d: Entries, r: Entries, s: Entries)
    requires StrippedEntries(d, s) && CanonicalNode(env, d)
    requires r.Keys == s.Keys && forall k :: k in r ==> r[k] == UpDown(env, d[k])
    requires forall k :: k in StripNode(d) ==> (UpDown(env, d[k]) == Strip(d[k]) <==> Canonical(env, d[k]))
    ensures r == s <==> Canonical(env, Dict(d))
  {
    hide UpDown, StripNode, CanonicalNode;
    if r == s {
      forall k | k in StripNode(d) ensures Canonical(env, d[k]) {
        assert r[k] == s[k];
      }
    }
  }

  lemma NodesApart(env: Env, d: Entries, r: Entries, s: Entries)
    requires Apart(BackNode(env, d), StripNode(d))
    requires r.Keys == BackNode(env, d).Keys && forall k :: k in r ==> r[k] == UpDown(env, BackNode(env, d)[k])
    requires StrippedEntries(d, s)
    ensures r != s
  {
    hide UpDown, StripNode, BackNode;
    var b := BackNode(env, d);
    if r.Keys == s.Keys {
      var k :| k in b && k in StripNode(d) && b[k].Text? && b[k] != StripNode(d)[k];
      StrippedEntry(d, k);
      UpDownText(env, b[k].s);
      StripTexts(d[k], b[k].s);
      assert r[k] != s[k];
    }
  }

  lemma StrippedEntry(d: Entries, k: Key)
    requires k in StripNode(d)
    ensures k in d && StripNode(d)[k] == d[k]
  {
  }

  lemma UpDownText(env: Env, t: PyStr)
    ensures UpDown(env, Text(t)) == Text(t)
  {
  }

  // ---- the stored row: key rename plus payloads -------------------------------------------------------------

  /** `_rename_input_values_key`: the old key gives way if the new one is already there. */
  function Rename(d: Entries, source: Key, target: Key): Entries {
    if source !in d then d
    else
      var rest := d - {source};
      if target in rest then rest else rest[target := d[source]]
  }

  /** `_rewrite_input_values`: the row itself is not a node, only what it holds is. */
  function RewriteRow(env: Env, d: Entries, upgrade: bool): Entries {
    if upgrade then MapNormalize(env, Rename(d, Variables, InputVariables), true)
    else MapNormalize(env, Rename(d, InputVariables, Variables), false)
  }

  lemma RowUpDown(env: Env, d: Entries)
    requires InputVariables !in d
    ensures RewriteRow(env, RewriteRow(env, d, true), false) == map k | k in d :: UpDown(env, d[k])
  {
    hide Normalize;
  }

  /** A row comes back stripped exactly when it did not use the new key yet and everything it
      holds is canonical. */
  lemma RowRoundTripExactly(env: Env, d: Entries)
    ensures (RewriteRow(env, RewriteRow(env, d, true), false) == map k | k in d :: Strip(d[k]))
       <==> InputVariables !in d && forall k :: k in d ==> Canonical(env, d[k])
  {
    var back := RewriteRow(env, RewriteRow(env, d, true), false);
    var stripped := map k | k in d :: Strip(d[k]);
    hide Strip, Canonical, Normalize;
    if InputVariables in d {
      assert InputVariables in stripped && InputVariables !in back;
    } else {
      RowUpDown(env, d);
      hide RewriteRow;
      forall k | k in d ensures back[k] == stripped[k] <==> Canonical(env, d[k]) {
        RoundTripExactly(env, d[k]);
      }
      if back == stripped {
        forall k | k in d ensures Canonical(env, d[k]) {
          assert back[k] == stripped[k];
        }
      }
    }
  }

  /** The row filter is complete: a row that rewriting would alter is always loaded. */
  lemma FilterComplete(env: Env, d: Entries, upgrade: bool)
    requires RewriteRow(env, d, upgrade) != d
    ensures (if upgrade then Variables else InputVariables) in d || Changed(env, Dict(d), upgrade)
  {
    var source := if upgrade then Variables else InputVariables;
    if source !in d {
      var k :| k in d && Normalize(env, d[k], upgrade) != d[k];
      ChangedExactly(env, d[k], upgrade);
    }
  }
}
