/** The identity reassignment of migration 0062: canonical extension names, the conflict check,
    and the storage schema kept for each extension
    (migrations/versions/0062_canonical_extension_identity.py). */
module ExtensionIdentity {
  import opened Options
  import opened Text

  /** Python's `lower()` outside ASCII, and the first 32 bits of a SHA-256 digest. */
  datatype Env = Env(lowerOther: string -> string, hash: string -> nat)

  // ---- characters ---------------------------------------------------------------------------------

  predicate LowerAlnum(c: char) {
    'a' <= c <= 'z' || '0' <= c <= '9'
  }

  predicate Alnum(c: char) {
    LowerAlnum(c) || 'A' <= c <= 'Z'
  }

  predicate Separator(c: char) {
    c == '-' || c == '_' || c == '.'
  }

  predicate All(s: string, p: char -> bool) {
    forall i :: 0 <= i < |s| ==> p(s[i])
  }

  function LowerChar(c: char): char {
    if 'A' <= c <= 'Z' then 'a' + (c - 'A') else c
  }

  function Lower(env: Env, s: string): string {
    if All(s, c => c < '\U{80}') then seq(|s|, i requires 0 <= i < |s| => LowerChar(s[i]))
    else env.lowerOther(s)
  }

  // ---- regular expressions -----------------------------------------------------------------------------

  /** `re.sub("[...]+", r, s)` for a character class: each run becomes one `r`. */
  function ReplaceRuns(s: string, inClass: char -> bool, r: char): string
    decreases |s|
  {
    if s == [] then []
    else if !inClass(s[0]) then [s[0]] + ReplaceRuns(s[1..], inClass, r)
    else [r] + ReplaceRuns(SkipRun(s, inClass), inClass, r)
  }

  function SkipRun(s: string, inClass: char -> bool): (rest: string)
    ensures |rest| <= |s|
    ensures s != [] && inClass(s[0]) ==> |rest| < |s|
    ensures rest != [] ==> !inClass(rest[0])
  {
    if s != [] && inClass(s[0]) then SkipRun(s[1..], inClass) else s
  }

  function StripChar(s: string, c: char): string {
    RStripChar(LStripChar(s, c), c)
  }

  function LStripChar(s: string, c: char): string {
    if s != [] && s[0] == c then LStripChar(s[1..], c) else s
  }

  function RStripChar(s: string, c: char): string {
    if s != [] && s[|s| - 1] == c then RStripChar(s[..|s| - 1], c) else s
  }

  /** `[A-Za-z0-9](?:[A-Za-z0-9._-]*[A-Za-z0-9])?` */
  predicate IsCanonicalForm(s: string) {
    s != [] && Alnum(s[0]) && Alnum(s[|s| - 1]) && All(s, c => Alnum(c) || Separator(c))
  }

  function Hex(n: nat, digits: nat): (s: string)
    ensures |s| == digits
    ensures All(s, LowerAlnum)
  {
    if digits == 0 then []
    else
      var d := n % 16;
      Hex(n / 16, digits - 1) + [if d < 10 then '0' + d as char else 'a' + (d - 10) as char]
  }

  /** `hashlib.sha256(raw.encode()).hexdigest()[:8]`. */
  function Digest(env: Env, raw: string): (s: string)
    ensures |s| == 8 && All(s, LowerAlnum)
  {
    Hex(env.hash(raw), 8)
  }

  // ---- names and keys --------------------------------------------------------------------------------------

  function Collapse(s: string): string {
    ReplaceRuns(s, Separator, '-')
  }

  /** The normalised form under which names and aliases are compared. */
  function IdentityKey(env: Env, alias: string): string {
    Lower(env, Collapse(Strip(alias)))
  }

  /** `_canonical`. */
  function Canonical(env: Env, value: string): string {
    var raw := Strip(value);
    if IsCanonicalForm(raw) then Lower(env, Collapse(raw))
    else
      var slug := StripChar(ReplaceRuns(Lower(env, raw), c => !LowerAlnum(c), '-'), '-');
      OrExtension(slug) + "-" + Digest(env, raw)
  }

  // ---- storage schema -------------------------------------------------------------------------------------------

  predicate SchemaChar(c: char) {
    LowerAlnum(c) || c == '_'
  }

  const SCHEMA_PREFIX := "dvt_ext_"

  function OrExtension(slug: string): string {
    if slug == "" then "extension" else slug
  }

  /** `_storage_schema`. */
  function StorageSchema(env: Env, name: string): string {
    var raw := Strip(name);
    var slug := OrExtension(StripChar(ReplaceRuns(Lower(env, raw), c => !SchemaChar(c), '_'), '_'));
    var digest := "_" + Digest(env, raw);
    var plain := raw == Lower(env, raw) && raw != "" && All(raw, SchemaChar);
    var suffix := if plain then "" else digest;
    if |slug| > 63 - |SCHEMA_PREFIX| - |suffix|
    then SCHEMA_PREFIX + OrExtension(RStripChar(slug[..63 - |SCHEMA_PREFIX| - |digest|], '_')) + digest
    else SCHEMA_PREFIX + slug + suffix
  }

  lemma {:induction false} RStripCharShort(s: string, c: char)
    ensures |RStripChar(s, c)| <= |s| && RStripChar(s, c) <= s
    ensures RStripChar(s, c) != [] ==> RStripChar(s, c)[|RStripChar(s, c)| - 1] != c
  {
    if s != [] && s[|s| - 1] == c { RStripCharShort(s[..|s| - 1], c); }
  }

  /** PostgreSQL keeps at most 63 characters of an identifier; no schema name is longer. */
  lemma SchemaFits(env: Env, name: string)
    ensures |StorageSchema(env, name)| <= 63
    ensures SCHEMA_PREFIX <= StorageSchema(env, name)
  {
    hide ReplaceRuns, Lower, Strip, StripChar, Digest, All;
    var raw := Strip(name);
    var slug := OrExtension(StripChar(ReplaceRuns(Lower(env, raw), c => !SchemaChar(c), '_'), '_'));
    if |slug| >= 46 { RStripCharShort(slug[..46], '_'); }
  }

  // ---- canonical names are their own keys ------------------------------------------------------------------------

  predicate NoDoubleDash(s: string) {
    forall i :: 0 <= i < |s| - 1 ==> !(s[i] == '-' && s[i + 1] == '-')
  }

  /** Lower-case words joined by single dashes. */
  predicate Normal(s: string) {
    All(s, c => LowerAlnum(c) || c == '-') && NoDoubleDash(s)
  }

  lemma {:induction false} RunsFacts(s: string, inClass: char -> bool)
    requires inClass('-')
    ensures var t := ReplaceRuns(s, inClass, '-');
      && (forall i :: 0 <= i < |t| ==> t[i] == '-' || (!inClass(t[i]) && t[i] in s))
      && NoDoubleDash(t)
      && (t != [] && s != [] ==> (t[0] == '-' <==> inClass(s[0])))
      && (s == [] ==> t == [])
    decreases |s|
  {
    if s != [] {
      if !inClass(s[0]) {
        RunsFacts(s[1..], inClass);
      } else {
        RunsFacts(SkipRun(s, inClass), inClass);
        SkipRunSuffix(s, inClass);
      }
    }
  }

  lemma {:induction false} SkipRunSuffix(s: string, inClass: char -> bool)
    ensures forall c :: c in SkipRun(s, inClass) ==> c in s
  {
    if s != [] && inClass(s[0]) { SkipRunSuffix(s[1..], inClass); }
  }

  lemma {:induction false} NormalFixed(env: Env, s: string)
    requires Normal(s)
    ensures Collapse(s) == s && Lower(env, s) == s
    ensures Strip(s) == s
  {
    CollapseFixed(s);
    assert All(s, c => c < '\U{80}');
    if s != [] {
      assert !IsSpace(s[0]) && !IsSpace(s[|s| - 1]);
      RStripPrefix(s);
    }
  }

  lemma {:induction false} CollapseFixed(s: string)
    requires Normal(s)
    ensures Collapse(s) == s
  {
    if s != [] {
      assert Normal(s[1..]);
      CollapseFixed(s[1..]);
      assert s == [s[0]] + s[1..];
      if Separator(s[0]) {
        assert s[0] == '-';
        assert |s| > 1 ==> s[1] != '-' && LowerAlnum(s[1]);
        assert SkipRun(s, Separator) == s[1..];
      }
    }
  }

  lemma LowerAsciiNormal(env: Env, s: string)
    requires All(s, c => Alnum(c) || c == '-') && NoDoubleDash(s)
    ensures Normal(Lower(env, s))
  {
    assert All(s, c => c < '\U{80}');
    var t := Lower(env, s);
    forall i | 0 <= i < |t| - 1 ensures !(t[i] == '-' && t[i + 1] == '-') {
      assert t[i] == LowerChar(s[i]) && t[i + 1] == LowerChar(s[i + 1]);
    }
  }

  lemma {:induction false} StripCharFacts(s: string, c: char)
    ensures forall x :: x in StripChar(s, c) ==> x in s
    ensures NoDoubleDash(s) ==> NoDoubleDash(StripChar(s, c))
    ensures StripChar(s, c) != [] ==> StripChar(s, c)[|StripChar(s, c)| - 1] != c
  {
    LStripCharFacts(s, c);
    var t := LStripChar(s, c);
    RStripCharShort(t, c);
    assert forall i :: 0 <= i < |RStripChar(t, c)| ==> RStripChar(t, c)[i] == t[i];
  }

  lemma {:induction false} LStripCharFacts(s: string, c: char)
    ensures forall x :: x in LStripChar(s, c) ==> x in s
    ensures NoDoubleDash(s) ==> NoDoubleDash(LStripChar(s, c))
  {
    if s != [] && s[0] == c {
      LStripCharFacts(s[1..], c);
      assert NoDoubleDash(s) ==> NoDoubleDash(s[1..]);
    }
  }

  lemma JoinNormal(slug: string, digest: string)
    requires Normal(slug) && slug != [] && slug[|slug| - 1] != '-'
    requires digest != [] && All(digest, LowerAlnum)
    ensures Normal(slug + "-" + digest)
  {
    var t := slug + "-" + digest;
    forall i | 0 <= i < |t| - 1 ensures !(t[i] == '-' && t[i + 1] == '-') {
      if i > |slug| { assert t[i] == digest[i - |slug| - 1]; }
      if i == |slug| { assert t[i + 1] == digest[0]; }
    }
  }

  lemma SlugNormal(text: string)
    ensures var slug := StripChar(ReplaceRuns(text, c => !LowerAlnum(c), '-'), '-');
      Normal(slug) && (slug != [] ==> slug[|slug| - 1] != '-')
  {
    var runs := ReplaceRuns(text, c => !LowerAlnum(c), '-');
    RunsFacts(text, c => !LowerAlnum(c));
    StripCharFacts(runs, '-');
    var slug := StripChar(runs, '-');
    forall i | 0 <= i < |slug| ensures LowerAlnum(slug[i]) || slug[i] == '-' {
      assert slug[i] in runs;
    }
  }

  lemma CanonicalNormal(env: Env, value: string)
    ensures Normal(Canonical(env, value))
  {
    var raw := Strip(value);
    hide Strip, Lower, StripChar, ReplaceRuns;
    if IsCanonicalForm(raw) {
      RunsFacts(raw, Separator);
      LowerAsciiNormal(env, Collapse(raw));
    } else {
      var text := Lower(env, raw);
      SlugNormal(text);
      var slug := StripChar(ReplaceRuns(text, c => !LowerAlnum(c), '-'), '-');
      JoinNormal(OrExtension(slug), Digest(env, raw));
    }
  }

  /** The name an extension is given is exactly the key it is compared by. */
  lemma CanonicalIsItsKey(env: Env, value: string)
    ensures IdentityKey(env, Canonical(env, value)) == Canonical(env, value)
  {
    CanonicalNormal(env, value);
    hide Canonical;
    NormalFixed(env, Canonical(env, value));
  }

  // ---- who owns which key ---------------------------------------------------------------------------------------------

  datatype Row = Row(id: string, name: string, packageName: Option<string>, manifestName: Option<string>,
                     legacyNames: set<string>)

  predicate Truthy(s: Option<string>) {
    s.Some? && s.value != ""
  }

  /** `payload.get("package_name") or payload.get("name") or row["name"]`, made canonical. */
  function NewName(env: Env, row: Row): string {
    Canonical(env, if Truthy(row.packageName) then row.packageName.value
                   else if Truthy(row.manifestName) then row.manifestName.value
                   else row.name)
  }

  function Names(env: Env, row: Row): set<string> {
    row.legacyNames + {row.name, NewName(env, row)}
  }

  function KeysIn(env: Env, names: set<string>): set<string> {
    set alias | alias in names :: IdentityKey(env, alias)
  }

  function KeysOf(env: Env, row: Row): set<string> {
    KeysIn(env, Names(env, row))
  }

  lemma KeysInAdd(env: Env, names: set<string>, alias: string)
    ensures KeysIn(env, names + {alias}) == KeysIn(env, names) + {IdentityKey(env, alias)}
  {
    hide IdentityKey;
  }

  ghost predicate DistinctIds(rows: seq<Row>) {
    forall i, j :: 0 <= i < j < |rows| ==> rows[i].id != rows[j].id
  }

  /** No two extensions answer to the same key. */
  ghost predicate KeysDisjoint(env: Env, rows: seq<Row>) {
    forall i, j :: 0 <= i < j < |rows| ==> KeysOf(env, rows[i]) !! KeysOf(env, rows[j])
  }

  /** `owners` maps exactly the keys of the first `n` rows to their rows. */
  ghost predicate Owned(env: Env, rows: seq<Row>, n: nat, owners: map<string, string>)
    requires n <= |rows|
  {
    && (forall i :: 0 <= i < n ==> forall key :: key in KeysOf(env, rows[i]) ==> key in owners && owners[key] == rows[i].id)
    && forall key :: key in owners ==> exists i :: 0 <= i < n && key in KeysOf(env, rows[i])
  }

  /** The inner loop: claims the keys of one row, unless another row has one of them. */
  method ClaimKeys(env: Env, row: Row, owners: map<string, string>) returns (ok: bool, claimed: map<string, string>)
    ensures ok <==> forall key :: key in KeysOf(env, row) && key in owners ==> owners[key] == row.id
    ensures ok ==> claimed.Keys == owners.Keys + KeysOf(env, row)
    ensures ok ==> forall key :: key in claimed ==>
      claimed[key] == if key in KeysOf(env, row) then row.id else owners[key]
  {
    hide IdentityKey, Names;
    claimed := owners;
    var rest := Names(env, row);
    ghost var done: set<string> := {};
    while rest != {}
      invariant done + rest == Names(env, row)
      invariant claimed.Keys == owners.Keys + KeysIn(env, done)
      invariant forall key :: key in claimed ==>
        claimed[key] == if key in KeysIn(env, done) then row.id else owners[key]
      invariant forall key :: key in KeysIn(env, done) && key in owners ==> owners[key] == row.id
      decreases rest
    {
      var alias :| alias in rest;
      var key := IdentityKey(env, alias);
      assert key in KeysOf(env, row);
      if key in claimed && claimed[key] != row.id {
        return false, claimed;
      }
      KeysInAdd(env, done, alias);
      claimed := claimed[key := row.id];
      rest, done := rest - {alias}, done + {alias};
    }
    assert done == Names(env, row);
    ok := true;
  }

  /** The outer loop: the migration goes on exactly when no two rows share a key. */
  method ClaimAll(env: Env, rows: seq<Row>) returns (ok: bool)
    requires DistinctIds(rows)
    ensures ok <==> KeysDisjoint(env, rows)
  {
    var owners: map<string, string> := map[];
    for n := 0 to |rows|
      invariant KeysDisjoint(env, rows[..n])
      invariant Owned(env, rows, n, owners)
    {
      var fine, claimed := ClaimKeys(env, rows[n], owners);
      if !fine {
        var key :| key in KeysOf(env, rows[n]) && key in owners && owners[key] != rows[n].id;
        var i :| 0 <= i < n && key in KeysOf(env, rows[i]);
        assert !(KeysOf(env, rows[i]) !! KeysOf(env, rows[n]));
        return false;
      }
      StillDisjoint(env, rows, n, owners);
      NowOwned(env, rows, n, owners, claimed);
      owners := claimed;
    }
    assert rows[..|rows|] == rows;
    ok := true;
  }

  lemma StillDisjoint(env: Env, rows: seq<Row>, n: nat, owners: map<string, string>)
    requires n < |rows| && DistinctIds(rows) && Owned(env, rows, n, owners) && KeysDisjoint(env, rows[..n])
    requires forall key :: key in KeysOf(env, rows[n]) && key in owners ==> owners[key] == rows[n].id
    ensures KeysDisjoint(env, rows[..n + 1])
  {
    hide KeysOf;
    forall i, j | 0 <= i < j < n + 1 ensures KeysOf(env, rows[i]) !! KeysOf(env, rows[j]) {
      if j < n {
        assert rows[..n][i] == rows[i] && rows[..n][j] == rows[j];
      } else {
        forall key | key in KeysOf(env, rows[i]) ensures key !in KeysOf(env, rows[n]) {
          assert owners[key] == rows[i].id;
        }
      }
    }
  }

  lemma NowOwned(env: Env, rows: seq<Row>, n: nat, owners: map<string, string>, claimed: map<string, string>)
    requires n < |rows| && DistinctIds(rows) && Owned(env, rows, n, owners)
    requires forall key :: key in KeysOf(env, rows[n]) && key in owners ==> owners[key] == rows[n].id
    requires claimed.Keys == owners.Keys + KeysOf(env, rows[n])
    requires forall key :: key in claimed ==>
      claimed[key] == if key in KeysOf(env, rows[n]) then rows[n].id else owners[key]
    ensures Owned(env, rows, n + 1, claimed)
  {
    hide KeysOf;
    forall key | key in claimed ensures exists i :: 0 <= i < n + 1 && key in KeysOf(env, rows[i]) {
      if key !in KeysOf(env, rows[n]) {
        var i :| 0 <= i < n && key in KeysOf(env, rows[i]);
      }
    }
  }

  // ---- the name column stays unique ---------------------------------------------------------------------------------------

  /** The name of row `i` once the first `k` rows are updated. */
  function CurrentName(env: Env, rows: seq<Row>, k: nat, i: nat): string
    requires i < |rows|
  {
    if i < k then NewName(env, rows[i]) else rows[i].name
  }

  /** If the migration does not abort, no two rows ever have the same name: not before it, not
      after any single update, not at the end. */
  lemma NamesStayUnique(env: Env, rows: seq<Row>, k: nat, i: nat, j: nat)
    requires KeysDisjoint(env, rows) && i < j < |rows|
    ensures CurrentName(env, rows, k, i) != CurrentName(env, rows, k, j)
  {
    var a, b := CurrentName(env, rows, k, i), CurrentName(env, rows, k, j);
    assert a in Names(env, rows[i]) && b in Names(env, rows[j]);
    assert IdentityKey(env, a) in KeysOf(env, rows[i]) && IdentityKey(env, b) in KeysOf(env, rows[j]);
  }

  /** A row of the table; `other` is the rest of the manifest. */
  datatype Stored = Stored(name: string, packageName: Option<string>, manifestName: Option<string>,
                           legacyNames: seq<string>, other: string, schema: Option<string>)

  type Extensions = map<string, Stored>

  function Elements(names: seq<string>): set<string> {
    set name | name in names
  }

  /** A row as the migration reads it. */
  function RowOf(id: string, x: Stored): Row {
    Row(id, x.name, x.packageName, x.manifestName, Elements(x.legacyNames))
  }

  /** What the update writes: one name everywhere, all former names as aliases, and the schema of the old name. */
  function Updated(env: Env, id: string, x: Stored): Stored {
    var name := NewName(env, RowOf(id, x));
    Stored(name, Some(name), Some(name), Sorted(Elements(x.legacyNames) + {x.name} - {name}), x.other,
           Some(StorageSchema(env, x.name)))
  }

  predicate NonEmpty(name: Option<string>) {
    name.Some? && name.value != ""
  }

  /** Row `y` is row `x` after the migration, field by field. The new name is the canonical form of the package name, or
      else of the manifest name, or else of the old name, and is written everywhere; the old name and the old aliases are
      the new aliases, in order and without the new name; the schema is that of the old name, where the data is. */
  ghost predicate IsMigrated(env: Env, x: Stored, y: Stored) {
    && y.name == Canonical(env, if NonEmpty(x.packageName) then x.packageName.value
                                else if NonEmpty(x.manifestName) then x.manifestName.value else x.name)
    && y.packageName == Some(y.name) && y.manifestName == Some(y.name)
    && Ascending(y.legacyNames)
    && (forall alias :: alias in y.legacyNames <==> (alias in x.legacyNames || alias == x.name) && alias != y.name)
    && y.other == x.other
    && y.schema == Some(StorageSchema(env, x.name))
  }

  /** A row answers to its name, to its aliases and to the name it gets. */
  ghost predicate AnswersTo(env: Env, x: Stored, name: string) {
    || name == x.name
    || name in x.legacyNames
    || name == Canonical(env, if NonEmpty(x.packageName) then x.packageName.value
                              else if NonEmpty(x.manifestName) then x.manifestName.value else x.name)
  }

  /** Two rows answer to names with one key. */
  ghost predicate Conflicts(env: Env, table: Extensions, a: string, b: string, x: string, y: string) {
    && a in table && b in table && a != b
    && AnswersTo(env, table[a], x) && AnswersTo(env, table[b], y)
    && IdentityKey(env, x) == IdentityKey(env, y)
  }

  lemma NamesExactly(env: Env, id: string, x: Stored, name: string)
    ensures name in Names(env, RowOf(id, x)) <==> AnswersTo(env, x, name)
  {
    hide Canonical;
  }

  lemma KeyHeld(env: Env, id: string, x: Stored, key: string)
    ensures key in KeysOf(env, RowOf(id, x)) <==> exists name :: AnswersTo(env, x, name) && IdentityKey(env, name) == key
  {
    hide Names, IdentityKey, AnswersTo;
    forall name ensures name in Names(env, RowOf(id, x)) <==> AnswersTo(env, x, name) {
      NamesExactly(env, id, x, name);
    }
  }

  lemma ConflictExactly(env: Env, table: Extensions, order: seq<string>)
    requires ListsRows(table, order)
    ensures KeysDisjoint(env, RowsOf(table, order)) <==> !(exists a, b, x, y :: Conflicts(env, table, a, b, x, y))
  {
    hide KeysOf, IdentityKey, AnswersTo;
    var rows := RowsOf(table, order);
    if a, b, x, y :| Conflicts(env, table, a, b, x, y) {
      var i :| 0 <= i < |order| && order[i] == a;
      var j :| 0 <= j < |order| && order[j] == b;
      KeyHeld(env, a, table[a], IdentityKey(env, x));
      KeyHeld(env, b, table[b], IdentityKey(env, y));
      assert IdentityKey(env, x) in KeysOf(env, rows[i]) && IdentityKey(env, x) in KeysOf(env, rows[j]);
      assert rows[i] != rows[j] || i != j;
    }
    if i, j :| 0 <= i < j < |rows| && !(KeysOf(env, rows[i]) !! KeysOf(env, rows[j])) {
      var key :| key in KeysOf(env, rows[i]) && key in KeysOf(env, rows[j]);
      assert order[i] in order && order[j] in order;
      KeyHeld(env, order[i], table[order[i]], key);
      KeyHeld(env, order[j], table[order[j]], key);
      var x :| AnswersTo(env, table[order[i]], x) && IdentityKey(env, x) == key;
      var y :| AnswersTo(env, table[order[j]], y) && IdentityKey(env, y) == key;
      assert Conflicts(env, table, order[i], order[j], x, y);
    }
  }

  lemma UpdatedFields(env: Env, id: string, x: Stored)
    ensures IsMigrated(env, x, Updated(env, id, x))
  {
    hide Canonical, StorageSchema, Sorted;
  }

  function RowsOf(table: Extensions, order: seq<string>): (rows: seq<Row>)
    requires forall id :: id in order ==> id in table
    ensures |rows| == |order| && forall i :: 0 <= i < |order| ==> rows[i] == RowOf(order[i], table[order[i]])
  {
    seq(|order|, i requires 0 <= i < |order| => RowOf(order[i], table[order[i]]))
  }

  /** The unique index on the name column. */
  ghost predicate UniqueNames(table: Extensions) {
    forall a, b :: a in table && b in table && a != b ==> table[a].name != table[b].name
  }

  /** `order` lists the rows, each once. */
  ghost predicate ListsRows(table: Extensions, order: seq<string>) {
    && (forall id :: id in order <==> id in table)
    && forall i, j :: 0 <= i < j < |order| ==> order[i] != order[j]
  }

  /** The table once the first `k` rows are updated. */
  ghost predicate TableAfter(env: Env, table: Extensions, order: seq<string>, k: nat, now: Extensions) {
    && now.Keys == table.Keys
    && forall i :: 0 <= i < |order| && order[i] in table && order[i] in now ==>
         now[order[i]] == if i < k then Updated(env, order[i], table[order[i]]) else table[order[i]]
  }

  lemma NamesAfterUnique(env: Env, table: Extensions, order: seq<string>, k: nat, now: Extensions)
    requires ListsRows(table, order) && KeysDisjoint(env, RowsOf(table, order)) && TableAfter(env, table, order, k, now)
    ensures UniqueNames(now)
  {
    hide KeysDisjoint, NewName, Updated;
    var rows := RowsOf(table, order);
    forall i | 0 <= i < |order| ensures order[i] in now && now[order[i]].name == CurrentName(env, rows, k, i) {
      assert order[i] in order;
      UpdatedName(env, order[i], table[order[i]]);
    }
    forall a, b | a in now && b in now && a != b ensures now[a].name != now[b].name {
      var i :| 0 <= i < |order| && order[i] == a;
      var j :| 0 <= j < |order| && order[j] == b;
      if i < j { NamesStayUnique(env, rows, k, i, j); } else { NamesStayUnique(env, rows, k, j, i); }
    }
  }

  lemma UpdatedName(env: Env, id: string, x: Stored)
    ensures Updated(env, id, x).name == NewName(env, RowOf(id, x))
  {
  }

  class ExtensionTable {
    var table: Extensions

    constructor (table: Extensions)
      ensures this.table == table
    {
      this.table := table;
    }

    /** One UPDATE statement, which the unique index accepts only if the new name is free. */
    method Update(id: string, x: Stored)
      requires id in table && forall other :: other in table && other != id ==> table[other].name != x.name
      requires UniqueNames(table)
      modifies this
      ensures table == old(table)[id := x] && UniqueNames(table)
    {
      table := table[id := x];
    }

    /** `upgrade`: aborts without touching a row when identities conflict; otherwise updates every row,
        one by one, and the unique index can refuse none of the updates. */
    method Upgrade(env: Env, order: seq<string>) returns (ok: bool)
      requires ListsRows(table, order)
      modifies this
      ensures ok <==> KeysDisjoint(env, RowsOf(old(table), order))
      ensures ok <==> !(exists a, b, x, y :: Conflicts(env, old(table), a, b, x, y))
      ensures !ok ==> table == old(table)
      ensures ok ==> table.Keys == old(table).Keys && UniqueNames(table)
      ensures ok ==> forall id :: id in table ==> table[id] == Updated(env, id, old(table)[id])
      ensures ok ==> forall id :: id in table ==> IsMigrated(env, old(table)[id], table[id])
    {
      hide Updated, IsMigrated, KeysDisjoint, Conflicts;
      ConflictExactly(env, table, order);
      var rows := RowsOf(table, order);
      ok := ClaimAll(env, rows);
      if !ok {
        return;
      }
      NamesAfterUnique(env, table, order, 0, table);
      for k := 0 to |order|
        invariant TableAfter(env, old(table), order, k, table) && UniqueNames(table)
      {
        UpdateIsFree(env, old(table), order, k, table);
        assert table[order[k]] == old(table)[order[k]];
        Update(order[k], Updated(env, order[k], table[order[k]]));
      }
      forall id | id in table
        ensures table[id] == Updated(env, id, old(table)[id]) && IsMigrated(env, old(table)[id], table[id])
      {
        var i :| 0 <= i < |order| && order[i] == id;
        UpdatedFields(env, id, old(table)[id]);
      }
    }
  }

  /** The k-th update meets no other row's current name, and leads to the next state. */
  lemma UpdateIsFree(env: Env, table: Extensions, order: seq<string>, k: nat, now: Extensions)
    requires k < |order| && ListsRows(table, order) && KeysDisjoint(env, RowsOf(table, order))
    requires TableAfter(env, table, order, k, now)
    ensures order[k] in now
    ensures var x := Updated(env, order[k], table[order[k]]);
      && (forall other :: other in now && other != order[k] ==> now[other].name != x.name)
      && TableAfter(env, table, order, k + 1, now[order[k] := x])
  {
    hide KeysDisjoint, Updated;
    assert order[k] in order;
    var next := now[order[k] := Updated(env, order[k], table[order[k]])];
    NamesAfterUnique(env, table, order, k + 1, next);
    forall other | other in now && other != order[k] ensures now[other].name != next[order[k]].name {
      assert next[other] == now[other];
    }
  }

  // ---- identities survive ---------------------------------------------------------------------------------------------------

  /** The last character outside the class stays last. */
  lemma {:induction false} RunsLast(s: string, inClass: char -> bool, r: char)
    requires s != [] && !inClass(s[|s| - 1])
    ensures var t := ReplaceRuns(s, inClass, r); t != [] && t[|t| - 1] == s[|s| - 1]
    decreases |s|
  {
    if inClass(s[0]) {
      SkipRunEnds(s, inClass);
      RunsLast(SkipRun(s, inClass), inClass, r);
    } else if |s| > 1 {
      RunsLast(s[1..], inClass, r);
    }
  }

  lemma {:induction false} SkipRunEnds(s: string, inClass: char -> bool)
    requires s != [] && !inClass(s[|s| - 1])
    ensures SkipRun(s, inClass) != [] && SkipRun(s, inClass)[|SkipRun(s, inClass)| - 1] == s[|s| - 1]
  {
    if inClass(s[0]) {
      SkipRunEnds(s[1..], inClass);
    }
  }

  lemma {:induction false} LStripHead(s: string, c: char)
    ensures LStripChar(s, c) != [] ==> LStripChar(s, c)[0] != c
  {
    if s != [] && s[0] == c { LStripHead(s[1..], c); }
  }

  /** A canonical name is itself in canonical form. */
  lemma CanonicalForm(env: Env, value: string)
    ensures var name := Canonical(env, value); IsCanonicalForm(name) && Normal(name)
  {
    CanonicalNormal(env, value);
    var raw, name := Strip(value), Canonical(env, value);
    if IsCanonicalForm(raw) {
      RunsLast(raw, Separator, '-');
      var t := Collapse(raw);
      assert t[0] == raw[0];
      RunsFacts(raw, Separator);
      assert All(t, c => c < '\U{80}');
      assert name[0] == LowerChar(t[0]) && name[|name| - 1] == LowerChar(t[|t| - 1]);
    } else {
      SlugName(Lower(env, raw), Digest(env, raw));
    }
    forall i | 0 <= i < |name| ensures Alnum(name[i]) || Separator(name[i]) {
      assert LowerAlnum(name[i]) || name[i] == '-';
    }
  }

  lemma SlugName(text: string, digest: string)
    requires |digest| == 8 && All(digest, LowerAlnum)
    ensures var name := OrExtension(StripChar(ReplaceRuns(text, c => !LowerAlnum(c), '-'), '-')) + "-" + digest;
      LowerAlnum(name[0]) && LowerAlnum(name[|name| - 1])
  {
    var runs := ReplaceRuns(text, c => !LowerAlnum(c), '-');
    var slug := StripChar(runs, '-');
    SlugNormal(text);
    LStripHead(runs, '-');
    RStripCharShort(LStripChar(runs, '-'), '-');
    var name := OrExtension(slug) + "-" + digest;
    assert name[|name| - 1] == digest[7];
    if slug != [] {
      assert name[0] == slug[0] == LStripChar(runs, '-')[0];
    }
  }

  lemma CanonicalIdempotent(env: Env, value: string)
    ensures Canonical(env, Canonical(env, value)) == Canonical(env, value)
  {
    CanonicalForm(env, value);
    var name := Canonical(env, value);
    NormalFixed(env, name);
  }

  /** An updated row answers to exactly the names it answered to before. */
  lemma UpdateKeepsIdentity(env: Env, id: string, x: Stored)
    ensures Names(env, RowOf(id, Updated(env, id, x))) == Names(env, RowOf(id, x))
  {
    hide Canonical, StorageSchema;
    var row := RowOf(id, x);
    var name := NewName(env, row);
    assert name != "" by { CanonicalForm(env, if Truthy(row.packageName) then row.packageName.value
                                              else if Truthy(row.manifestName) then row.manifestName.value else row.name); }
    assert NewName(env, RowOf(id, Updated(env, id, x))) == name by {
      CanonicalIdempotent(env, if Truthy(row.packageName) then row.packageName.value
                               else if Truthy(row.manifestName) then row.manifestName.value else row.name);
    }
  }

  /** So the conflict check judges the updated table as it judged the table before. */
  lemma UpgradeKeepsKeys(env: Env, table: Extensions, order: seq<string>, now: Extensions)
    requires ListsRows(table, order) && TableAfter(env, table, order, |order|, now)
    ensures KeysDisjoint(env, RowsOf(now, order)) <==> KeysDisjoint(env, RowsOf(table, order))
  {
    hide Names, Updated;
    var before, after := RowsOf(table, order), RowsOf(now, order);
    forall i | 0 <= i < |order| ensures KeysOf(env, after[i]) == KeysOf(env, before[i]) {
      assert order[i] in order;
      UpdateKeepsIdentity(env, order[i], table[order[i]]);
    }
  }

  // ---- what the storage schema does not promise ------------------------------------------------------------------------------

  function Slug(env: Env, name: string): string {
    OrExtension(StripChar(ReplaceRuns(Lower(env, Strip(name)), c => !SchemaChar(c), '_'), '_'))
  }

  /** A name that is kept as it is, up to outer underscores: lower-case letters, digits and underscores. */
  predicate IsPlain(env: Env, name: string) {
    var raw := Strip(name);
    raw == Lower(env, raw) && raw != "" && All(raw, SchemaChar)
  }

  /** The schema carries a digest: the name is not plain, or its slug is too long. */
  predicate Hashed(env: Env, name: string) {
    !IsPlain(env, name) || |Slug(env, name)| > 55
  }

  /** The readable part of the schema; a digest leaves room for 46 characters. */
  function Stem(env: Env, name: string): string {
    var slug := Slug(env, name);
    if Hashed(env, name) && |slug| > 46 then OrExtension(RStripChar(slug[..46], '_')) else slug
  }

  function Tail(env: Env, name: string): string {
    if Hashed(env, name) then "_" + Digest(env, Strip(name)) else ""
  }

  lemma SchemaParts(env: Env, name: string)
    ensures StorageSchema(env, name) == SCHEMA_PREFIX + (Stem(env, name) + Tail(env, name))
  {
    hide ReplaceRuns, Lower, Strip, StripChar, Digest, All, RStripChar;
  }

  lemma PartsDecide(env: Env, a: string, b: string)
    ensures StorageSchema(env, a) == StorageSchema(env, b)
       <==> Stem(env, a) + Tail(env, a) == Stem(env, b) + Tail(env, b)
  {
    hide Stem, Tail, StorageSchema;
    SchemaParts(env, a);
    SchemaParts(env, b);
    var x, y := Stem(env, a) + Tail(env, a), Stem(env, b) + Tail(env, b);
    assert (SCHEMA_PREFIX + x)[8..] == x && (SCHEMA_PREFIX + y)[8..] == y;
  }

  lemma TailsCancel(s: string, d: string, t: string, e: string)
    requires |d| == |e|
    ensures s + ("_" + d) == t + ("_" + e) <==> s == t && d == e
  {
    var x, y := s + ("_" + d), t + ("_" + e);
    assert x[..|x| - |d| - 1] == s && x[|x| - |d|..] == d;
    assert y[..|y| - |e| - 1] == t && y[|y| - |e|..] == e;
  }

  lemma {:induction false} RunsFixed(s: string)
    requires All(s, SchemaChar)
    ensures ReplaceRuns(s, c => !SchemaChar(c), '_') == s
  {
    if s != [] {
      assert All(s[1..], SchemaChar) by { assert forall i :: 0 <= i < |s[1..]| ==> s[1..][i] == s[i + 1]; }
      RunsFixed(s[1..]);
      assert s == [s[0]] + s[1..];
    }
  }

  predicate Underscore(c: char) {
    c == '_'
  }

  /** `t` is what remains of `s` without the underscores around it. */
  ghost predicate IsBare(s: string, t: string) {
    && (t == "" || (t[0] != '_' && t[|t| - 1] != '_'))
    && exists i :: 0 <= i <= |s| - |t| && Surrounded(s, t, i)
  }

  predicate Surrounded(s: string, t: string, i: nat)
    requires i <= |s| - |t|
  {
    s[i..i + |t|] == t && All(s[..i], Underscore) && All(s[i + |t|..], Underscore)
  }

  /** The name without outer blanks and underscores. */
  function Bare(name: string): string {
    StripChar(Strip(name), '_')
  }

  lemma {:induction false} LStripSkips(s: string, i: nat)
    requires i <= |s| && All(s[..i], Underscore)
    ensures LStripChar(s, '_') == LStripChar(s[i..], '_')
  {
    if i > 0 {
      assert s[..i][0] == '_' && s[1..][..i - 1] == s[..i][1..] && s[1..][i - 1..] == s[i..];
      LStripSkips(s[1..], i - 1);
    } else {
      assert s[0..] == s;
    }
  }

  lemma {:induction false} RStripSkips(s: string, n: nat)
    requires n <= |s| && All(s[n..], Underscore)
    ensures RStripChar(s, '_') == RStripChar(s[..n], '_')
  {
    if n < |s| {
      assert s[n..][|s| - n - 1] == '_' && s[..|s| - 1][n..] == s[n..][..|s| - n - 1] && s[..|s| - 1][..n] == s[..n];
      RStripSkips(s[..|s| - 1], n);
    } else {
      assert s[..n] == s;
    }
  }

  lemma {:induction false} LStripSplits(s: string) returns (i: nat)
    ensures i <= |s| && LStripChar(s, '_') == s[i..] && All(s[..i], Underscore) && (i < |s| ==> s[i] != '_')
  {
    if s != [] && s[0] == '_' {
      var k := LStripSplits(s[1..]);
      i := k + 1;
      assert s[i..] == s[1..][k..] && s[..i] == [s[0]] + s[1..][..k];
    } else {
      i := 0;
    }
  }

  lemma {:induction false} RStripSplits(s: string) returns (n: nat)
    ensures n <= |s| && RStripChar(s, '_') == s[..n] && All(s[n..], Underscore) && (n > 0 ==> s[n - 1] != '_')
  {
    if s != [] && s[|s| - 1] == '_' {
      n := RStripSplits(s[..|s| - 1]);
      assert s[..n] == s[..|s| - 1][..n] && s[n..] == s[..|s| - 1][n..] + [s[|s| - 1]];
    } else {
      n := |s|;
    }
  }

  /** The bare name is the only string that remains without the underscores around it. */
  lemma BareExactly(name: string, t: string)
    ensures IsBare(Strip(name), t) <==> t == Bare(name)
  {
    hide Strip;
    var s := Strip(name);
    BareIsBare(s);
    if IsBare(s, t) {
      BareIsOne(s, t);
    }
  }

  lemma BareIsBare(s: string)
    ensures IsBare(s, StripChar(s, '_'))
  {
    hide LStripChar, RStripChar;
    var i := LStripSplits(s);
    var n := RStripSplits(s[i..]);
    var t := s[i..][..n];
    assert s[i..i + |t|] == t && s[i + |t|..] == s[i..][n..];
    assert Surrounded(s, t, i);
    assert t != "" ==> t[0] == s[i];
  }

  lemma BareIsOne(s: string, t: string)
    requires IsBare(s, t)
    ensures t == StripChar(s, '_')
  {
    hide All;
    var i :| 0 <= i <= |s| - |t| && Surrounded(s, t, i);
    LStripSkips(s, i);
    var rest := s[i..];
    assert rest[..|t|] == t && rest[|t|..] == s[i + |t|..];
    RStripSkips(rest, |t|);
    if t == "" {
      LStripSkips(rest, |rest|) by { assert rest[..|rest|] == rest[|t|..]; }
      assert rest[|rest|..] == "";
    } else {
      assert rest[0] == t[0];
    }
  }

  /** Without a digest, the stem is the bare name, or `extension` for a name of underscores only. */
  lemma PlainStem(env: Env, name: string)
    requires !Hashed(env, name)
    ensures Stem(env, name) == OrExtension(Bare(name))
  {
    hide Lower, Strip, StripChar, All, ReplaceRuns;
    RunsFixed(Strip(name));
  }

  /** When two names get one schema, for all names and every digest function. Both without a digest: they differ
      in outer blanks and underscores only, where a name of underscores counts as `extension`. Both with: one stem
      and one digest. One with: the other is, up to outer blanks and underscores, its stem and digest. */
  lemma SchemasCollideExactly(env: Env, a: string, b: string)
    ensures StorageSchema(env, a) == StorageSchema(env, b) <==>
      match (Hashed(env, a), Hashed(env, b))
      case (false, false) => OrExtension(Bare(a)) == OrExtension(Bare(b))
      case (true, true) => Stem(env, a) == Stem(env, b) && Digest(env, Strip(a)) == Digest(env, Strip(b))
      case (true, false) => Bare(b) == Stem(env, a) + "_" + Digest(env, Strip(a))
      case (false, true) => Bare(a) == Stem(env, b) + "_" + Digest(env, Strip(b))
  {
    hide Hashed, Stem, Digest, StorageSchema, Bare, Strip, All;
    PartsDecide(env, a, b);
    match (Hashed(env, a), Hashed(env, b))
    case (false, false) =>
      PlainStem(env, a);
      PlainStem(env, b);
      assert Stem(env, a) + Tail(env, a) == Stem(env, a) && Stem(env, b) + Tail(env, b) == Stem(env, b);
    case (true, true) =>
      TailsCancel(Stem(env, a), Digest(env, Strip(a)), Stem(env, b), Digest(env, Strip(b)));
    case (true, false) => OneHashed(env, a, b);
    case (false, true) => OneHashed(env, b, a);
  }

  lemma OneHashed(env: Env, a: string, b: string)
    requires Hashed(env, a) && !Hashed(env, b)
    ensures Stem(env, a) + Tail(env, a) == Stem(env, b) + Tail(env, b)
       <==> Bare(b) == Stem(env, a) + "_" + Digest(env, Strip(a))
  {
    StemNotEmpty(env, a);
    hide Hashed, Stem, Digest, Bare, Strip, All;
    PlainStem(env, b);
    assert Stem(env, b) + Tail(env, b) == Stem(env, b);
    var x := Stem(env, a) + "_" + Digest(env, Strip(a));
    assert Stem(env, a) + Tail(env, a) == x && |x| > |"extension"|;
  }

  lemma StemNotEmpty(env: Env, name: string)
    ensures Stem(env, name) != ""
  {
    hide Lower, Strip, StripChar, All, ReplaceRuns, RStripChar, Hashed;
  }

  /** Lower-case letters, digits and underscores survive stripping, lower-casing and the replacement of other characters. */
  lemma PlainSlug(env: Env, s: string)
    requires s != "" && All(s, SchemaChar)
    ensures Strip(s) == s && IsPlain(env, s) && Slug(env, s) == OrExtension(StripChar(s, '_'))
  {
    assert Lower(env, s) == s by {
      assert All(s, c => c < '\U{80}');
    }
    assert Strip(s) == s by {
      assert SchemaChar(s[0]) && SchemaChar(s[|s| - 1]);
      RStripPrefix(s);
    }
    RunsFixed(s);
  }

  /** Without a digest, names that differ in outer underscores only share a schema. */
  lemma OuterUnderscoresCollide(env: Env, a: string, b: string)
    requires a != "" && b != "" && All(a, SchemaChar) && All(b, SchemaChar)
    requires StripChar(a, '_') == StripChar(b, '_') && |StripChar(a, '_')| <= 55
    ensures StorageSchema(env, a) == StorageSchema(env, b)
  {
    hide StorageSchema, StripChar, Strip, Lower, ReplaceRuns, All;
    PlainSlug(env, a);
    PlainSlug(env, b);
    SchemasCollideExactly(env, a, b);
  }

  function Named(id: string, name: string): Row {
    Row(id, name, None, None, {})
  }

  lemma NamedKeys(env: Env, row: Row)
    requires row == Named(row.id, row.name)
    ensures KeysOf(env, row) == {IdentityKey(env, row.name), Canonical(env, row.name)}
  {
    hide IdentityKey, Canonical;
    CanonicalIsItsKey(env, row.name);
    assert Names(env, row) == {row.name, Canonical(env, row.name)};
    forall key | key in {IdentityKey(env, row.name), Canonical(env, row.name)} ensures key in KeysOf(env, row) {
      assert row.name in Names(env, row) && Canonical(env, row.name) in Names(env, row);
    }
  }

  lemma OneCharacter(env: Env)
    ensures Strip("a") == "a" && Strip("A") == "A" && Strip("_a") == "_a"
    ensures Collapse("a") == "a" && Collapse("A") == "A" && Collapse("_a") == "-a"
    ensures Lower(env, "A") == "a" && Lower(env, "a") == "a" && Lower(env, "-a") == "-a"
    ensures LStripChar("_a", '_') == "a" && StripChar("a", '_') == "a" && StripChar("_a", '_') == "a"
  {
    assert "_a"[1..] == "a" && "a"[1..] == "" && "A"[1..] == "";
    assert SkipRun("_a", Separator) == "a";
    assert Lower(env, "A") == "a" && Lower(env, "-a") == "-a";
  }

  lemma DisjointPair(env: Env, a: Row, b: Row)
    requires a == Named(a.id, a.name) && b == Named(b.id, b.name)
    requires {IdentityKey(env, a.name), Canonical(env, a.name)} !! {IdentityKey(env, b.name), Canonical(env, b.name)}
    ensures KeysDisjoint(env, [a, b])
  {
    hide IdentityKey, Canonical, KeysOf;
    NamedKeys(env, a);
    NamedKeys(env, b);
  }

  /** The conflict check accepts `_a` and `a`, which get one schema. */
  lemma UnderscoresShareSchema(env: Env)
    ensures var rows := [Named("1", "_a"), Named("2", "a")];
      KeysDisjoint(env, rows) && StorageSchema(env, rows[0].name) == StorageSchema(env, rows[1].name)
  {
    hide StorageSchema, StripChar, ReplaceRuns;
    var rows := [Named("1", "_a"), Named("2", "a")];
    OneCharacter(env);
    OuterUnderscoresCollide(env, "_a", "a");
    assert IdentityKey(env, "_a") == "-a" && IdentityKey(env, "a") == "a" && Canonical(env, "a") == "a";
    assert |Canonical(env, "_a")| > 1;
    DisjointPair(env, rows[0], rows[1]);
  }

  /** It accepts `A` and the plain name that reads as the schema of `A`, whatever the digest is. */
  lemma DigestSharesSchema(env: Env)
    ensures var rows := [Named("1", "A"), Named("2", "a_" + Digest(env, "A"))];
      KeysDisjoint(env, rows) && StorageSchema(env, rows[0].name) == StorageSchema(env, rows[1].name)
  {
    hide StorageSchema, KeysOf, KeysDisjoint, Digest, ReplaceRuns, StripChar;
    var rows := [Named("1", "A"), Named("2", "a_" + Digest(env, "A"))];
    DigestSchemas(env);
    OneCharacter(env);
    assert IdentityKey(env, "A") == "a" && Canonical(env, "A") == "a";
    PlainKey(env, Digest(env, "A"));
    DisjointPair(env, rows[0], rows[1]);
  }

  lemma DigestSchemas(env: Env)
    ensures StorageSchema(env, "A") == StorageSchema(env, "a_" + Digest(env, "A"))
  {
    var digest := Digest(env, "A");
    var plain := "a_" + digest;
    OneCharacter(env);
    assert All(plain, SchemaChar) by {
      assert forall i :: 2 <= i < |plain| ==> plain[i] == digest[i - 2];
    }
    PlainSlug(env, plain);
    assert LowerAlnum(digest[7]) && plain[|plain| - 1] == digest[7];
    assert StripChar(plain, '_') == plain;
    assert Slug(env, "A") == "a" by { RunsFixed("a"); }
    assert !IsPlain(env, "A");
    hide StorageSchema, Slug, IsPlain, Digest;
    SchemasCollideExactly(env, "A", plain);
  }

  /** The key of such a plain name is `a-` and the digest, however it is spelt. */
  lemma PlainKey(env: Env, digest: string)
    requires |digest| == 8 && All(digest, LowerAlnum)
    ensures |IdentityKey(env, "a_" + digest)| == 10 && |Canonical(env, "a_" + digest)| == 10
  {
    var plain, key := "a_" + digest, "a-" + digest;
    assert All(plain, SchemaChar) by {
      assert forall i :: 2 <= i < |plain| ==> plain[i] == digest[i - 2];
    }
    PlainSlug(env, plain);
    assert plain[|plain| - 1] == digest[7];
    assert IsCanonicalForm(plain);
    assert Collapse(plain) == key by { SeparatorRun(digest); }
    assert All(key, c => c < '\U{80}') by {
      assert forall i :: 2 <= i < |key| ==> key[i] == digest[i - 2];
    }
  }

  lemma SeparatorRun(digest: string)
    requires digest != "" && All(digest, LowerAlnum)
    ensures Collapse("a_" + digest) == "a-" + digest
  {
    hide ReplaceRuns, Normal;
    NormalDigest(digest);
    CollapseFixed(digest);
    RunThen('_', digest, Separator, '-');
    KeepThen('a', "_" + digest, Separator, '-');
    assert ['a'] + ("_" + digest) == "a_" + digest && ['a'] + ("-" + digest) == "a-" + digest;
  }

  lemma NormalDigest(digest: string)
    requires All(digest, LowerAlnum)
    ensures Normal(digest)
  {
  }

  lemma RunThen(c: char, rest: string, inClass: char -> bool, r: char)
    requires inClass(c) && (rest != [] ==> !inClass(rest[0]))
    ensures ReplaceRuns([c] + rest, inClass, r) == [r] + ReplaceRuns(rest, inClass, r)
  {
    assert ([c] + rest)[1..] == rest;
    assert SkipRun([c] + rest, inClass) == rest;
  }

  lemma KeepThen(c: char, rest: string, inClass: char -> bool, r: char)
    requires !inClass(c)
    ensures ReplaceRuns([c] + rest, inClass, r) == [c] + ReplaceRuns(rest, inClass, r)
  {
    assert ([c] + rest)[1..] == rest;
  }
}
