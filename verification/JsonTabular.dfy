/** Turning matrices, that is arrays of rows, into arrays of records (core/metadata/json_tabular.py). */
module JsonTabular {
  import opened JsonObservation
  import opened JsonPath
  import opened Options
  import opened Text

  const EXTRA := "_extra_values"

  // ---- column names -------------------------------------------------------------------------------------

  function Digit(d: nat): char
    requires d < 10
  {
    "0123456789"[d]
  }

  /** `str` of a number. */
  function Decimal(n: nat): (s: string)
    ensures |s| > 0 && forall c :: c in s ==> c != '_'
  {
    if n < 10 then [Digit(n)] else Decimal(n / 10) + [Digit(n % 10)]
  }

  lemma {:induction false} DecimalInjective(m: nat, n: nat)
    requires Decimal(m) == Decimal(n)
    ensures m == n
  {
    var a, b := Decimal(m), Decimal(n);
    assert a[|a| - 1] == Digit(m % 10) && b[|b| - 1] == Digit(n % 10);
    if m >= 10 && n >= 10 {
      assert a[..|a| - 1] == Decimal(m / 10) && b[..|b| - 1] == Decimal(n / 10);
      DecimalInjective(m / 10, n / 10);
    }
  }

  /** The name of the occurrence `k` of a column name. */
  function Copy(name: string, k: nat): string {
    name + "__" + Decimal(k)
  }

  lemma LongerTailDiffers(a: string, d: string, b: string, e: string)
    requires |d| < |e| && '_' !in e
    ensures a + "__" + d != b + "__" + e
  {
    var s, t := a + "__" + d, b + "__" + e;
    if |s| == |t| {
      assert s[|a| + 1] == '_';
      assert t[|a| + 1] == e[|e| - |d| - 1];
      assert e[|e| - |d| - 1] in e;
    }
  }

  /** Copies of different names, and different copies of one name, are different. */
  lemma CopyInjective(a: string, k: nat, b: string, l: nat)
    requires Copy(a, k) == Copy(b, l)
    ensures a == b && k == l
  {
    var s, dk, dl := Copy(a, k), Decimal(k), Decimal(l);
    assert s == a + "__" + dk == b + "__" + dl;
    assert |dk| == |dl| by {
      if |dk| < |dl| {
        LongerTailDiffers(a, dk, b, dl);
      } else if |dl| < |dk| {
        LongerTailDiffers(b, dl, a, dk);
      }
    }
    assert dk == s[|s| - |dk|..] == dl;
    DecimalInjective(k, l);
    assert a == s[..|s| - |dk| - 2] == b;
  }

  /** How often `names[i]` has been seen, itself included. */
  function Occurrence(names: seq<string>, i: nat): nat
    requires i < |names|
  {
    multiset(names[..i])[names[i]] + 1
  }

  function Unique(name: string, occurrence: nat): string {
    if occurrence == 1 then name else Copy(name, occurrence)
  }

  function Columns(names: seq<string>): (columns: seq<string>)
    ensures |columns| == |names|
    ensures forall i :: 0 <= i < |names| ==> columns[i] == Unique(names[i], Occurrence(names, i))
  {
    seq(|names|, i requires 0 <= i < |names| => Unique(names[i], Occurrence(names, i)))
  }

  ghost predicate Distinct(s: seq<string>) {
    forall i, j :: 0 <= i < j < |s| ==> s[i] != s[j]
  }

  /** No name in the header reads as a copy that the header makes of another name. */
  ghost predicate NoneReadsAsCopy(names: seq<string>) {
    forall i, j, k {:trigger names[i], Copy(names[j], k)} ::
      0 <= i < |names| && 0 <= j < |names| && 2 <= k <= multiset(names)[names[j]] ==> names[i] != Copy(names[j], k)
  }

  lemma OccurrenceBounds(names: seq<string>, i: nat)
    requires i < |names|
    ensures 1 <= Occurrence(names, i) <= multiset(names)[names[i]]
    ensures forall j :: i < j < |names| && names[j] == names[i] ==> Occurrence(names, i) < Occurrence(names, j)
  {
    assert names == names[..i] + [names[i]] + names[i + 1..];
    forall j | i < j < |names| && names[j] == names[i] ensures Occurrence(names, i) < Occurrence(names, j) {
      assert names[..j] == names[..i] + [names[i]] + names[i + 1..j];
    }
  }

  lemma {:induction false} NthOccurrence(names: seq<string>, name: string, k: nat) returns (a: nat)
    requires 1 <= k <= multiset(names)[name]
    ensures a < |names| && names[a] == name && Occurrence(names, a) == k
  {
    var init, last := names[..|names| - 1], names[|names| - 1];
    assert names == init + [last];
    if k <= multiset(init)[name] {
      a := NthOccurrence(init, name, k);
      assert names[..a] == init[..a];
    } else {
      a := |names| - 1;
    }
  }

  /** The column names are distinct exactly when no header name reads as a copy of another. */
  lemma ColumnsDistinctExactly(names: seq<string>)
    ensures Distinct(Columns(names)) <==> NoneReadsAsCopy(names)
  {
    var columns := Columns(names);
    if NoneReadsAsCopy(names) {
      forall i, j | 0 <= i < j < |names| ensures columns[i] != columns[j] {
        ColumnsDiffer(names, i, j);
      }
    } else {
      var i, j, k :| 0 <= i < |names| && 0 <= j < |names| && 2 <= k <= multiset(names)[names[j]] && names[i] == Copy(names[j], k);
      var a := NthOccurrence(names, names[j], k);
      OccurrenceBounds(names, i);
      var c := NthOccurrence(names, names[i], 1);
      assert columns[a] == columns[c] && a != c;
    }
  }

  lemma ColumnsDiffer(names: seq<string>, i: nat, j: nat)
    requires NoneReadsAsCopy(names) && i < j < |names|
    ensures Columns(names)[i] != Columns(names)[j]
  {
    OccurrenceBounds(names, i);
    OccurrenceBounds(names, j);
    var k, l := Occurrence(names, i), Occurrence(names, j);
    if k > 1 && l > 1 && Copy(names[i], k) == Copy(names[j], l) {
      CopyInjective(names[i], k, names[j], l);
    }
    assert k > 1 ==> names[j] != Copy(names[i], k);
    assert l > 1 ==> names[i] != Copy(names[j], l);
  }

  ghost predicate Counts(seen: map<string, nat>, names: seq<string>) {
    forall name :: multiset(names)[name] == if name in seen then seen[name] else 0
  }

  lemma CountsNothing()
    ensures Counts(map[], [])
  {
  }

  lemma CountsStep(seen: map<string, nat>, names: seq<string>, i: nat)
    requires i < |names| && Counts(seen, names[..i])
    ensures Occurrence(names, i) == (if names[i] in seen then seen[names[i]] else 0) + 1
    ensures Counts(seen[names[i] := Occurrence(names, i)], names[..i + 1])
  {
    assert names[..i + 1] == names[..i] + [names[i]];
  }

  /** The warnings of the normaliser; each is printed with the path of its matrix. */
  datatype Warning = Renamed(name: string, unique: string) | Synthetic | Padded | Extra

  /** The columns among the first `n` that do not keep their name. */
  function Renames(names: seq<string>, n: nat): seq<Warning>
    requires n <= |names|
  {
    if n == 0 then []
    else
      Renames(names, n - 1)
      + if Columns(names)[n - 1] == names[n - 1] then [] else [Renamed(names[n - 1], Columns(names)[n - 1])]
  }

  /** `_build_columns`, with the counters that `_deduplicate_column_name` keeps in `seen`. */
  method BuildColumns(names: seq<string>) returns (columns: seq<string>, warnings: seq<Warning>)
    ensures columns == Columns(names) && warnings == Renames(names, |names|)
  {
    hide Counts, Occurrence, Copy;
    var seen: map<string, nat> := map[];
    columns, warnings := [], [];
    assert Counts(seen, names[..0]) by { CountsNothing(); }
    for index := 0 to |names|
      invariant |columns| == index && forall i :: 0 <= i < index ==> columns[i] == Columns(names)[i]
      invariant Counts(seen, names[..index]) && warnings == Renames(names, index)
    {
      var baseName := names[index];
      CountsStep(seen, names, index);
      var occurrence := (if baseName in seen then seen[baseName] else 0) + 1;
      seen := seen[baseName := occurrence];
      var uniqueName := if occurrence == 1 then baseName else Copy(baseName, occurrence);
      columns := columns + [uniqueName];
      if uniqueName != baseName {
        warnings := warnings + [Renamed(baseName, uniqueName)];
      }
    }
  }

  // ---- records -------------------------------------------------------------------------------------------

  function Get(fields: seq<Field>, key: string): Option<Json> {
    if fields == [] then None
    else if fields[0].key == key then Some(fields[0].value)
    else Get(fields[1..], key)
  }

  /** Assigning to a key of a dictionary. */
  function Put(fields: seq<Field>, key: string, value: Json): seq<Field> {
    if fields == [] then [Field(key, value)]
    else if fields[0].key == key then [Field(key, value)] + fields[1..]
    else [fields[0]] + Put(fields[1..], key, value)
  }

  lemma {:induction false} PutGet(fields: seq<Field>, key: string, value: Json, k: string)
    ensures Get(Put(fields, key, value), k) == if k == key then Some(value) else Get(fields, k)
  {
    if fields != [] && fields[0].key != key {
      PutGet(fields[1..], key, value, k);
      assert Put(fields, key, value)[1..] == Put(fields[1..], key, value);
    }
  }

  /** Short rows are padded with nulls. */
  function Cell(row: seq<Json>, i: nat): Json {
    if i < |row| then row[i] else Null
  }

  function Filled(columns: seq<string>, row: seq<Json>, n: nat): seq<Field>
    requires n <= |columns|
  {
    if n == 0 then [] else Put(Filled(columns, row, n - 1), columns[n - 1], Cell(row, n - 1))
  }

  function Record(columns: seq<string>, row: seq<Json>): seq<Field> {
    var filled := Filled(columns, row, |columns|);
    if |row| > |columns| then Put(filled, EXTRA, Arr(row[|columns|..])) else filled
  }

  /** Every cell of the row can be read from the record, at its column or among the extra values. */
  ghost predicate RowKept(columns: seq<string>, row: seq<Json>, fields: seq<Field>) {
    && (forall i :: 0 <= i < |columns| ==> Get(fields, columns[i]) == Some(Cell(row, i)))
    && (|row| > |columns| ==> Get(fields, EXTRA) == Some(Arr(row[|columns|..])))
  }

  lemma {:induction false} FilledGet(columns: seq<string>, row: seq<Json>, n: nat, i: nat)
    requires Distinct(columns) && i < n <= |columns|
    ensures Get(Filled(columns, row, n), columns[i]) == Some(Cell(row, i))
  {
    PutGet(Filled(columns, row, n - 1), columns[n - 1], Cell(row, n - 1), columns[i]);
    if i < n - 1 {
      FilledGet(columns, row, n - 1, i);
    }
  }

  lemma RecordKeepsRow(columns: seq<string>, row: seq<Json>)
    requires Distinct(columns) && (|row| > |columns| ==> EXTRA !in columns)
    ensures RowKept(columns, row, Record(columns, row))
  {
    var filled, extra := Filled(columns, row, |columns|), Arr(if |row| > |columns| then row[|columns|..] else []);
    forall i | 0 <= i < |columns| ensures Get(Record(columns, row), columns[i]) == Some(Cell(row, i)) {
      FilledGet(columns, row, |columns|, i);
      PutGet(filled, EXTRA, extra, columns[i]);
    }
    PutGet(filled, EXTRA, extra, EXTRA);
  }

  /** No row can lose a cell exactly when the columns are distinct and none is called `_extra_values`. */
  lemma RowsKeptExactly(columns: seq<string>)
    ensures (forall row :: RowKept(columns, row, Record(columns, row))) <==> Distinct(columns) && EXTRA !in columns
  {
    if Distinct(columns) && EXTRA !in columns {
      forall row ensures RowKept(columns, row, Record(columns, row)) {
        RecordKeepsRow(columns, row);
      }
    } else {
      var row := Counting(|columns| + 1);
      if RowKept(columns, row, Record(columns, row)) {
        KeptIsDistinct(columns, Record(columns, row));
      }
    }
  }

  function Counting(n: nat): seq<Json> {
    seq(n, i => Int(i))
  }

  lemma KeptIsDistinct(columns: seq<string>, fields: seq<Field>)
    requires RowKept(columns, Counting(|columns| + 1), fields)
    ensures Distinct(columns) && EXTRA !in columns
  {
    var row := Counting(|columns| + 1);
    forall i | 0 <= i < |columns| ensures Get(fields, columns[i]) == Some(Int(i)) {
      assert Cell(row, i) == Int(i);
    }
    forall i, j | 0 <= i < j < |columns| ensures columns[i] != columns[j] {
      assert Get(fields, columns[i]) != Get(fields, columns[j]);
    }
  }

  // ---- detection -------------------------------------------------------------------------------------------

  datatype Matrix = Matrix(headerRow: bool, columns: seq<string>)

  predicate AllRows(items: seq<Json>) {
    forall i :: 0 <= i < |items| ==> items[i].Arr?
  }

  function Lengths(items: seq<Json>): (r: seq<nat>)
    requires AllRows(items)
    ensures |r| == |items|
  {
    seq(|items|, i requires 0 <= i < |items| => |items[i].items|)
  }

  /** `a` comes no later than `b` when lengths are ranked by frequency and then by size. */
  predicate Outranks(lengths: seq<nat>, a: nat, b: nat) {
    var x, y := multiset(lengths)[a], multiset(lengths)[b];
    x > y || (x == y && a >= b)
  }

  /** The best of the first `n` lengths. */
  function Dominant(lengths: seq<nat>, n: nat): nat
    requires 0 < n <= |lengths|
  {
    if n == 1 then lengths[0]
    else
      var d := Dominant(lengths, n - 1);
      if Outranks(lengths, lengths[n - 1], d) then lengths[n - 1] else d
  }

  /** The dominant length is the most frequent one, and the largest of the most frequent. */
  lemma {:induction false} DominantIsBest(lengths: seq<nat>, n: nat)
    requires 0 < n <= |lengths|
    ensures Dominant(lengths, n) in lengths[..n]
    ensures forall i :: 0 <= i < n ==> Outranks(lengths, Dominant(lengths, n), lengths[i])
    ensures var d, counts := Dominant(lengths, n), multiset(lengths);
      forall i :: 0 <= i < n ==> counts[lengths[i]] < counts[d] || (counts[lengths[i]] == counts[d] && lengths[i] <= d)
  {
    if n > 1 {
      DominantIsBest(lengths, n - 1);
      assert lengths[..n] == lengths[..n - 1] + [lengths[n - 1]];
    }
  }

  function HeaderCells(row: seq<Json>): nat {
    if row == [] then 0
    else
      var last := row[|row| - 1];
      HeaderCells(row[..|row| - 1]) + (if last.Str? && Strip(last.s) != "" then 1 else 0)
  }

  predicate LooksLikeHeader(row: seq<Json>, width: nat) {
    |row| == width && row != [] && 4 * HeaderCells(row) >= 3 * |row|
  }

  /** `text` is Python's `str` for cells that are not strings. */
  function BaseName(text: Json -> string, cell: Option<Json>, index: nat): string {
    var candidate :=
      match cell
      case None => ""
      case Some(Str(s)) => Strip(s)
      case Some(Null) => ""
      case Some(v) => Strip(text(v));
    if candidate == "" then "column_" + Decimal(index + 1) else candidate
  }

  /** The base names of `width` columns under a header row, or without one. */
  function BaseNames(text: Json -> string, header: Option<seq<Json>>, width: nat): seq<string> {
    seq(width, i requires 0 <= i =>
      BaseName(text, if header.Some? && i < |header.value| then Some(header.value[i]) else None, i))
  }

  function Detect(text: Json -> string, items: seq<Json>): (r: Option<Matrix>)
    ensures r.Some? ==> |items| >= 2 && AllRows(items) && |r.value.columns| == Dominant(Lengths(items), |items|)
  {
    if |items| < 2 || !AllRows(items) || multiset(Lengths(items))[0] + 2 > |items| then None
    else
      var width := Dominant(Lengths(items), |items|);
      if width < 2 || 5 * multiset(Lengths(items))[width] < 4 * |items| then None
      else
        var headerRow := LooksLikeHeader(items[0].items, width);
        var header := if headerRow then Some(items[0].items) else None;
        Some(Matrix(headerRow, Columns(BaseNames(text, header, width))))
  }

  // ---- what counts as a matrix -------------------------------------------------------------------------------

  /** The indices of the rows of a given length. */
  function RowsOfLength(items: seq<Json>, n: nat): set<int> {
    set i | 0 <= i < |items| && items[i].Arr? && |items[i].items| == n
  }

  /** The indices of the cells with a text that is not blank. */
  function TextCells(row: seq<Json>): set<int> {
    set i | 0 <= i < |row| && row[i].Str? && !IsBlank(row[i].s)
  }

  predicate IsBlank(s: string) {
    forall i :: 0 <= i < |s| ==> IsSpace(s[i])
  }

  /** At least four in five rows have this length, which is at least two. */
  predicate IsWidth(items: seq<Json>, width: nat) {
    width >= 2 && 5 * |RowsOfLength(items, width)| >= 4 * |items|
  }

  lemma {:induction false} LengthCount(items: seq<Json>, n: nat)
    requires AllRows(items)
    ensures multiset(Lengths(items))[n] == |RowsOfLength(items, n)|
  {
    if items == [] {
      assert Lengths(items) == [] && RowsOfLength(items, n) == {};
    } else {
      var k := |items| - 1;
      var init := items[..k];
      LengthCount(init, n);
      assert Lengths(items) == Lengths(init) + [|items[k].items|];
      RowsSnoc(items, n);
      hide RowsOfLength, Lengths;
    }
  }

  lemma RowsSnoc(items: seq<Json>, n: nat)
    requires items != [] && AllRows(items)
    ensures var k := |items| - 1;
      |RowsOfLength(items, n)| == |RowsOfLength(items[..k], n)| + if |items[k].items| == n then 1 else 0
  {
    var k := |items| - 1;
    var init := items[..k];
    if |items[k].items| == n {
      assert RowsOfLength(items, n) == RowsOfLength(init, n) + {k};
    } else {
      assert RowsOfLength(items, n) == RowsOfLength(init, n);
    }
  }

  function Indices(n: nat): (s: set<int>)
    ensures |s| == n && forall i :: i in s <==> 0 <= i < n
  {
    if n == 0 then {} else Indices(n - 1) + {n - 1}
  }

  /** Rows of two lengths are different rows. */
  lemma TwoLengths(items: seq<Json>, a: nat, b: nat)
    requires a != b
    ensures |RowsOfLength(items, a)| + |RowsOfLength(items, b)| <= |items|
  {
    var x, y := RowsOfLength(items, a), RowsOfLength(items, b);
    assert x !! y && |x + y| == |x| + |y|;
    SubsetSize(x + y, Indices(|items|));
  }

  lemma WidthIsDominant(items: seq<Json>, width: nat)
    requires |items| >= 2 && AllRows(items) && IsWidth(items, width)
    ensures Dominant(Lengths(items), |items|) == width && multiset(Lengths(items))[0] + 2 <= |items|
  {
    hide RowsOfLength, Dominant;
    var lengths := Lengths(items);
    var d := Dominant(lengths, |items|);
    DominantIsBest(lengths, |items|);
    LengthCount(items, width);
    LengthCount(items, d);
    LengthCount(items, 0);
    TwoLengths(items, 0, width);
    assert width in multiset(lengths);
    var i :| 0 <= i < |lengths| && lengths[i] == width;
    assert Outranks(lengths, d, lengths[i]);
    if d != width {
      TwoLengths(items, d, width);
    }
  }

  lemma {:induction false} LStripBlank(s: string)
    ensures if IsBlank(s) then LStrip(s) == "" else LStrip(s) != "" && !IsSpace(LStrip(s)[0])
  {
    if s != "" && IsSpace(s[0]) {
      LStripBlank(s[1..]);
      assert IsBlank(s) <==> IsBlank(s[1..]) by {
        assert forall i :: 0 < i < |s| ==> s[i] == s[1..][i - 1];
      }
    }
  }

  lemma {:induction false} RStripKeeps(s: string)
    requires s != "" && !IsSpace(s[0])
    ensures RStrip(s) != ""
  {
    if IsSpace(s[|s| - 1]) {
      RStripKeeps(s[..|s| - 1]);
    }
  }

  lemma StripBlank(s: string)
    ensures Strip(s) == "" <==> IsBlank(s)
  {
    LStripBlank(s);
    if !IsBlank(s) {
      RStripKeeps(LStrip(s));
    }
  }

  lemma {:induction false} HeaderCount(row: seq<Json>)
    ensures HeaderCells(row) == |TextCells(row)|
  {
    if row == [] {
      assert TextCells(row) == {};
    } else {
      var n := |row| - 1;
      var init := row[..n];
      HeaderCount(init);
      if row[n].Str? {
        StripBlank(row[n].s);
      }
      hide Strip, IsBlank;
      TextSnoc(row);
      hide TextCells;
    }
  }

  lemma TextSnoc(row: seq<Json>)
    requires row != []
    ensures var n := |row| - 1;
      |TextCells(row)| == |TextCells(row[..n])| + if row[n].Str? && !IsBlank(row[n].s) then 1 else 0
  {
    hide IsBlank;
    var n := |row| - 1;
    var init := row[..n];
    if row[n].Str? && !IsBlank(row[n].s) {
      assert TextCells(row) == TextCells(init) + {n};
    } else {
      assert TextCells(row) == TextCells(init);
    }
  }

  /** A list is taken as a matrix exactly if it has at least two items, all of them lists, and four in five of them have
      one length of at least two, which is then its width. Its first row is a header exactly if it has that width and
      three in four of its cells hold a text that is not blank. */
  lemma DetectExactly(text: Json -> string, items: seq<Json>)
    ensures var r := Detect(text, items);
      && (r.Some? <==> |items| >= 2 && AllRows(items) && exists width: nat :: IsWidth(items, width))
      && (r.Some? ==>
            && IsWidth(items, |r.value.columns|)
            && (r.value.headerRow <==>
                  |items[0].items| == |r.value.columns| && 4 * |TextCells(items[0].items)| >= 3 * |items[0].items|))
  {
    hide Dominant, RowsOfLength, TextCells, HeaderCells, Columns, BaseNames;
    if |items| >= 2 && AllRows(items) {
      if width: nat :| IsWidth(items, width) {
        WidthIsDominant(items, width);
        LengthCount(items, width);
      }
      var d := Dominant(Lengths(items), |items|);
      LengthCount(items, d);
      HeaderCount(items[0].items);
      assert d >= 2 && 5 * multiset(Lengths(items))[d] >= 4 * |items| ==> IsWidth(items, d);
    }
  }

  /** What is reported about a matrix. */
  datatype Report = Report(path: seq<string>, headerRow: bool, columns: seq<string>, rowCount: nat, warnings: seq<Warning>)

  function ReportOf(text: Json -> string, items: seq<Json>, path: seq<string>, matrix: Matrix): Report
    requires items != [] && AllRows(items)
  {
    var rows, width := DataRows(items, matrix), |matrix.columns|;
    var names := BaseNames(text, if matrix.headerRow then Some(items[0].items) else None, width);
    Report(path, matrix.headerRow, matrix.columns, |rows|,
           Renames(names, width)
           + (if matrix.headerRow then [] else [Synthetic])
           + (if exists i :: 0 <= i < |rows| && |rows[i].items| < width then [Padded] else [])
           + (if exists i :: 0 <= i < |rows| && |rows[i].items| > width then [Extra] else []))
  }

  /** The rows that hold data. */
  function DataRows(items: seq<Json>, matrix: Matrix): (rows: seq<Json>)
    requires items != []
    ensures AllRows(items) ==> AllRows(rows)
  {
    if matrix.headerRow then items[1..] else items
  }

  // ---- normalisation ------------------------------------------------------------------------------------------

  function Normal(text: Json -> string, value: Json): Json
    decreases value, 1
  {
    match value
    case Obj(fields) =>
      Obj(seq(|fields|, i requires 0 <= i < |fields| => Field(fields[i].key, Normal(text, fields[i].value))))
    case Arr(items) =>
      var matrix := Detect(text, items);
      if matrix.None? then Arr(seq(|items|, i requires 0 <= i < |items| => Normal(text, items[i])))
      else
        var rows := DataRows(items, matrix.value);
        Arr(seq(|rows|, i requires 0 <= i < |rows| => Obj(Record(matrix.value.columns, NormalCells(text, rows[i])))))
    case _ => value
  }

  /** The cells of a row, each normalised. */
  function NormalCells(text: Json -> string, row: Json): seq<Json>
    decreases row, 0
  {
    if row.Arr? then seq(|row.items|, i requires 0 <= i < |row.items| => Normal(text, row.items[i])) else []
  }

  // ---- the matrices that are reported ---------------------------------------------------------------------------

  /** The reports of a value at `path`, in the order in which the matrices are found. */
  function Reports(text: Json -> string, value: Json, path: seq<string>): seq<Report>
    decreases value, 3
  {
    match value
    case Obj(fields) => FieldReports(text, value, |fields|, path)
    case Arr(items) =>
      var matrix := Detect(text, items);
      if matrix.None? then ItemReports(text, value, 0, |items|, path + [ITEM])
      else
        [ReportOf(text, items, path, matrix.value)]
        + RowReports(text, value, matrix.value, |DataRows(items, matrix.value)|, path)
    case _ => []
  }

  function FieldReports(text: Json -> string, value: Json, n: nat, path: seq<string>): seq<Report>
    requires value.Obj? && n <= |value.fields|
    decreases value, 2, n
  {
    if n == 0 then []
    else FieldReports(text, value, n - 1, path) + Reports(text, value.fields[n - 1].value, path + [value.fields[n - 1].key])
  }

  /** The items from `lo` on, before `hi`, all at one path. */
  function ItemReports(text: Json -> string, value: Json, lo: nat, hi: nat, path: seq<string>): seq<Report>
    requires value.Arr? && lo <= hi <= |value.items|
    decreases value, 0, hi
  {
    if lo == hi then [] else ItemReports(text, value, lo, hi - 1, path) + Reports(text, value.items[hi - 1], path)
  }

  /** The first `n` cells of a row, each below its column. */
  function CellReports(text: Json -> string, row: Json, columns: seq<string>, n: nat, path: seq<string>): seq<Report>
    requires row.Arr? && n <= |columns|
    decreases row, 0, n
  {
    if n == 0 then []
    else
      CellReports(text, row, columns, n - 1, path)
      + if n <= |row.items| then Reports(text, row.items[n - 1], path + [ITEM, columns[n - 1]]) else []
  }

  function RowReport(text: Json -> string, row: Json, columns: seq<string>, path: seq<string>): seq<Report>
    requires row.Arr?
    decreases row, 1
  {
    CellReports(text, row, columns, |columns|, path)
    + if |row.items| > |columns| then ItemReports(text, row, |columns|, |row.items|, path + [ITEM, EXTRA]) else []
  }

  /** The first `n` data rows of a matrix. */
  function RowReports(text: Json -> string, value: Json, matrix: Matrix, n: nat, path: seq<string>): seq<Report>
    requires value.Arr? && value.items != [] && AllRows(value.items) && n <= |DataRows(value.items, matrix)|
    decreases value, 2, n
  {
    if n == 0 then []
    else
      assert DataRows(value.items, matrix)[n - 1] == value.items[if matrix.headerRow then n else n - 1];
      RowReports(text, value, matrix, n - 1, path) + RowReport(text, DataRows(value.items, matrix)[n - 1], matrix.columns, path)
  }

  /** `_normalize_value`. */
  method NormalizeValue(text: Json -> string, value: Json, path: seq<string>) returns (r: Json, found: seq<Report>)
    ensures r == Normal(text, value) && found == Reports(text, value, path)
    decreases value, 2
  {
    hide Detect;
    match value
    case Obj(_) => r, found := NormalizeFields(text, value, path);
    case Arr(items) =>
      var matrix := Detect(text, items);
      if matrix.Some? {
        var rows;
        r, rows := MaterializeMatrix(text, value, matrix.value, path);
        found := [ReportOf(text, items, path, matrix.value)] + rows;
      } else {
        r, found := NormalizeItems(text, value, path);
      }
    case _ => r, found := value, [];
  }

  method NormalizeFields(text: Json -> string, value: Json, path: seq<string>) returns (r: Json, found: seq<Report>)
    requires value.Obj?
    ensures r == Normal(text, value) && found == FieldReports(text, value, |value.fields|, path)
    decreases value, 1
  {
    hide Reports, Normal;
    var fields, done := value.fields, [];
    found := [];
    for i := 0 to |fields|
      invariant |done| == i && forall j :: 0 <= j < i ==> done[j] == Field(fields[j].key, Normal(text, fields[j].value))
      invariant found == FieldReports(text, value, i, path)
    {
      var item, more := NormalizeValue(text, fields[i].value, path + [fields[i].key]);
      done, found := done + [Field(fields[i].key, item)], found + more;
    }
    NormalObject(text, value, done);
    r := Obj(done);
  }

  lemma NormalObject(text: Json -> string, value: Json, done: seq<Field>)
    requires value.Obj? && |done| == |value.fields|
    requires forall j :: 0 <= j < |done| ==> done[j] == Field(value.fields[j].key, Normal(text, value.fields[j].value))
    ensures Normal(text, value) == Obj(done)
  {
    assert Normal(text, value).fields == done;
  }

  method NormalizeItems(text: Json -> string, value: Json, path: seq<string>) returns (r: Json, found: seq<Report>)
    requires value.Arr? && Detect(text, value.items).None?
    ensures r == Normal(text, value) && found == ItemReports(text, value, 0, |value.items|, path + [ITEM])
    decreases value, 1
  {
    hide Reports, Detect;
    var items, done := value.items, [];
    found := [];
    for i := 0 to |items|
      invariant |done| == i && forall j :: 0 <= j < i ==> done[j] == Normal(text, items[j])
      invariant found == ItemReports(text, value, 0, i, path + [ITEM])
    {
      var item, more := NormalizeValue(text, items[i], path + [ITEM]);
      done, found := done + [item], found + more;
    }
    assert done == Normal(text, value).items;
    r := Arr(done);
  }

  /** `_materialize_matrix`. */
  method MaterializeMatrix(text: Json -> string, value: Json, matrix: Matrix, path: seq<string>)
    returns (r: Json, found: seq<Report>)
    requires value.Arr? && Detect(text, value.items) == Some(matrix)
    ensures r == Normal(text, value)
    ensures found == RowReports(text, value, matrix, |DataRows(value.items, matrix)|, path)
    decreases value, 1
  {
    hide Detect, Record, NormalCells, RowReport;
    var rows := DataRows(value.items, matrix);
    var done := [];
    found := [];
    for k := 0 to |rows|
      invariant |done| == k && found == RowReports(text, value, matrix, k, path)
      invariant forall j :: 0 <= j < k ==> done[j] == Obj(Record(matrix.columns, NormalCells(text, rows[j])))
    {
      assert value.items[if matrix.headerRow then k + 1 else k] == rows[k];
      var fields, more := MaterializeRow(text, rows[k], matrix.columns, path);
      done, found := done + [Obj(fields)], found + more;
    }
    assert done == Normal(text, value).items;
    r := Arr(done);
  }

  method MaterializeRow(text: Json -> string, row: Json, columns: seq<string>, path: seq<string>)
    returns (fields: seq<Field>, found: seq<Report>)
    requires row.Arr?
    ensures fields == Record(columns, NormalCells(text, row)) && found == RowReport(text, row, columns, path)
    decreases row, 1
  {
    hide Reports, Normal;
    ghost var cells := NormalCells(text, row);
    fields, found := [], [];
    for index := 0 to |columns|
      invariant fields == Filled(columns, cells, index) && found == CellReports(text, row, columns, index, path)
    {
      var cell, more := Null, [];
      if index < |row.items| {
        cell, more := NormalizeValue(text, row.items[index], path + [ITEM, columns[index]]);
      }
      fields, found := Put(fields, columns[index], cell), found + more;
    }
    if |row.items| > |columns| {
      var extra, more := ExtraCells(text, row, |columns|, path);
      fields, found := Put(fields, EXTRA, Arr(extra)), found + more;
    }
  }

  method ExtraCells(text: Json -> string, row: Json, width: nat, path: seq<string>) returns (extra: seq<Json>, found: seq<Report>)
    requires row.Arr? && width <= |row.items|
    ensures extra == NormalCells(text, row)[width..] && found == ItemReports(text, row, width, |row.items|, path + [ITEM, EXTRA])
    decreases row, 0
  {
    hide Reports, Normal;
    ghost var cells := NormalCells(text, row);
    extra, found := [], [];
    for index := width to |row.items|
      invariant |extra| == index - width && forall j :: 0 <= j < |extra| ==> extra[j] == cells[width + j]
      invariant found == ItemReports(text, row, width, index, path + [ITEM, EXTRA])
    {
      var cell, more := NormalizeValue(text, row.items[index], path + [ITEM, EXTRA]);
      extra, found := extra + [cell], found + more;
    }
    assert extra == cells[width..];
  }

  /** A value comes out changed exactly when a matrix is reported. */
  lemma {:induction false} ChangedExactly(text: Json -> string, value: Json, path: seq<string>)
    ensures Normal(text, value) == value <==> Reports(text, value, path) == []
    decreases value
  {
    hide Detect;
    match value
    case Obj(fields) =>
      forall i | 0 <= i < |fields|
        ensures Normal(text, fields[i].value) == fields[i].value <==> Reports(text, fields[i].value, path + [fields[i].key]) == []
      {
        ChangedExactly(text, fields[i].value, path + [fields[i].key]);
      }
      FieldsChanged(text, value, path);
    case Arr(items) =>
      var matrix := Detect(text, items);
      if matrix.None? {
        forall i | 0 <= i < |items| ensures Normal(text, items[i]) == items[i] <==> Reports(text, items[i], path + [ITEM]) == [] {
          ChangedExactly(text, items[i], path + [ITEM]);
        }
        ItemsChanged(text, value, path);
      } else {
        var rows := DataRows(items, matrix.value);
        var r := Normal(text, value);
        assert r.items[0].Obj? && items[0].Arr?;
      }
    case _ =>
  }

  lemma FieldsChanged(text: Json -> string, value: Json, path: seq<string>)
    requires value.Obj?
    requires forall i :: 0 <= i < |value.fields| ==>
      (Normal(text, value.fields[i].value) == value.fields[i].value <==>
         Reports(text, value.fields[i].value, path + [value.fields[i].key]) == [])
    ensures Normal(text, value) == value <==> FieldReports(text, value, |value.fields|, path) == []
  {
    hide Reports;
    var r := Normal(text, value);
    assert forall i :: 0 <= i < |value.fields| ==> r.fields[i] == Field(value.fields[i].key, Normal(text, value.fields[i].value));
    NoFieldReports(text, value, |value.fields|, path);
    if FieldReports(text, value, |value.fields|, path) == [] {
      assert r.fields == value.fields;
    }
  }

  lemma {:induction false} NoFieldReports(text: Json -> string, value: Json, n: nat, path: seq<string>)
    requires value.Obj? && n <= |value.fields|
    ensures FieldReports(text, value, n, path) == [] <==>
      forall i :: 0 <= i < n ==> Reports(text, value.fields[i].value, path + [value.fields[i].key]) == []
  {
    hide Reports;
    if n > 0 {
      NoFieldReports(text, value, n - 1, path);
    }
  }

  lemma ItemsChanged(text: Json -> string, value: Json, path: seq<string>)
    requires value.Arr? && Detect(text, value.items).None?
    requires forall i :: 0 <= i < |value.items| ==>
      (Normal(text, value.items[i]) == value.items[i] <==> Reports(text, value.items[i], path + [ITEM]) == [])
    ensures Normal(text, value) == value <==> ItemReports(text, value, 0, |value.items|, path + [ITEM]) == []
  {
    hide Reports, Detect;
    var r := Normal(text, value);
    assert forall i :: 0 <= i < |value.items| ==> r.items[i] == Normal(text, value.items[i]);
    NoItemReports(text, value, |value.items|, path + [ITEM]);
    if ItemReports(text, value, 0, |value.items|, path + [ITEM]) == [] {
      assert r.items == value.items;
    }
  }

  lemma {:induction false} NoItemReports(text: Json -> string, value: Json, n: nat, path: seq<string>)
    requires value.Arr? && n <= |value.items|
    ensures ItemReports(text, value, 0, n, path) == [] <==> forall i :: 0 <= i < n ==> Reports(text, value.items[i], path) == []
  {
    hide Reports;
    if n > 0 {
      NoItemReports(text, value, n - 1, path);
    }
  }

  // ---- no cell is lost ---------------------------------------------------------------------------------------

  /** Every matrix in the value has distinct columns, and none called `_extra_values` where rows run over. */
  ghost predicate Clear(text: Json -> string, value: Json)
    decreases value, 1
  {
    match value
    case Obj(fields) => forall i :: 0 <= i < |fields| ==> Clear(text, fields[i].value)
    case Arr(items) =>
      var matrix := Detect(text, items);
      if matrix.None? then forall i :: 0 <= i < |items| ==> Clear(text, items[i])
      else
        var rows, columns := DataRows(items, matrix.value), matrix.value.columns;
        && Distinct(columns)
        && forall k :: 0 <= k < |rows| ==> ClearRow(text, rows[k], columns)
    case _ => true
  }

  ghost predicate ClearRow(text: Json -> string, row: Json, columns: seq<string>)
    decreases row, 0
  {
    row.Arr? ==>
      && (|row.items| > |columns| ==> EXTRA !in columns)
      && forall i :: 0 <= i < |row.items| ==> Clear(text, row.items[i])
  }

  /** `r` still holds everything of `value` but header rows: each entry, item and cell is found in its place. */
  ghost predicate Kept(text: Json -> string, value: Json, r: Json)
    decreases value, 1
  {
    match value
    case Obj(fields) =>
      && r.Obj? && |r.fields| == |fields|
      && forall i :: 0 <= i < |fields| ==> r.fields[i].key == fields[i].key && Kept(text, fields[i].value, r.fields[i].value)
    case Arr(items) =>
      var matrix := Detect(text, items);
      if matrix.None? then
        r.Arr? && |r.items| == |items| && forall i :: 0 <= i < |items| ==> Kept(text, items[i], r.items[i])
      else
        var rows := DataRows(items, matrix.value);
        && r.Arr? && |r.items| == |rows|
        && forall k :: 0 <= k < |rows| ==> RowFound(text, rows[k], matrix.value.columns, r.items[k])
    case _ => r == value
  }

  /** Each cell of the row is found under its column or among the extra values; missing cells are null. */
  ghost predicate RowFound(text: Json -> string, row: Json, columns: seq<string>, r: Json)
    decreases row, 0
  {
    && row.Arr? && r.Obj?
    && (forall i :: 0 <= i < |columns| ==> Get(r.fields, columns[i]).Some?)
    && (forall i :: |row.items| <= i < |columns| ==> Get(r.fields, columns[i]) == Some(Null))
    && (forall i :: 0 <= i < |row.items| && i < |columns| ==> Kept(text, row.items[i], Get(r.fields, columns[i]).value))
    && (|row.items| > |columns| ==>
          && Get(r.fields, EXTRA).Some? && Get(r.fields, EXTRA).value.Arr?
          && |Get(r.fields, EXTRA).value.items| == |row.items| - |columns|
          && forall i :: |columns| <= i < |row.items| ==>
               Kept(text, row.items[i], Get(r.fields, EXTRA).value.items[i - |columns|]))
  }

  /** Normalising a value loses no cell, at any depth, where its matrices are clear. */
  lemma {:induction false} NothingIsLost(text: Json -> string, value: Json)
    requires Clear(text, value)
    ensures Kept(text, value, Normal(text, value))
    decreases value, 1
  {
    hide Detect, Record, NormalCells, ClearRow, RowFound;
    match value
    case Obj(fields) =>
      forall i | 0 <= i < |fields| ensures Kept(text, fields[i].value, Normal(text, fields[i].value)) {
        NothingIsLost(text, fields[i].value);
      }
    case Arr(items) =>
      var matrix := Detect(text, items);
      if matrix.None? {
        forall i | 0 <= i < |items| ensures Kept(text, items[i], Normal(text, items[i])) {
          NothingIsLost(text, items[i]);
        }
      } else {
        var rows, columns := DataRows(items, matrix.value), matrix.value.columns;
        forall k | 0 <= k < |rows| ensures RowFound(text, rows[k], columns, Obj(Record(columns, NormalCells(text, rows[k])))) {
          var j := if matrix.value.headerRow then k + 1 else k;
          assert items[j] == rows[k];
          RowIsFound(text, rows[k], columns);
        }
      }
    case _ =>
  }

  lemma {:induction false} RowIsFound(text: Json -> string, row: Json, columns: seq<string>)
    requires row.Arr? && Distinct(columns) && ClearRow(text, row, columns)
    ensures RowFound(text, row, columns, Obj(Record(columns, NormalCells(text, row))))
    decreases row, 0
  {
    hide Record, Kept, Normal, Clear;
    var cells := NormalCells(text, row);
    RecordKeepsRow(columns, cells);
    forall i | 0 <= i < |row.items| ensures Kept(text, row.items[i], cells[i]) {
      NothingIsLost(text, row.items[i]);
    }
  }

  /** A header can name a copy that it also makes. */
  lemma CollidingHeader()
    ensures !Distinct(Columns(["a", "a__2", "a"]))
  {
    var names := ["a", "a__2", "a"];
    assert Decimal(2) == "2" && names[1] == Copy(names[0], 2);
    assert multiset(names)[names[0]] == 2;
    ColumnsDistinctExactly(names);
  }

  lemma {:induction false} DistinctOnce(names: seq<string>, name: string)
    requires Distinct(names)
    ensures multiset(names)[name] <= 1
  {
    if names != [] {
      var init := names[..|names| - 1];
      DistinctOnce(init, name);
      assert names == init + [names[|names| - 1]];
      assert names[|names| - 1] !in init;
    }
  }

  /** A header without repeated names is used as it is. */
  lemma DistinctNamesStay(names: seq<string>)
    requires Distinct(names)
    ensures Columns(names) == names
  {
    hide Copy;
    forall i | 0 <= i < |names| ensures Columns(names)[i] == names[i] {
      OccurrenceBounds(names, i);
      DistinctOnce(names, names[i]);
    }
  }

  /** A renaming is reported exactly when a header name is repeated. */
  lemma RenamesExactly(names: seq<string>)
    ensures Renames(names, |names|) == [] <==> Distinct(names)
  {
    hide Columns;
    NoRenames(names, |names|);
    if Distinct(names) {
      DistinctNamesStay(names);
    } else {
      var i, j :| 0 <= i < j < |names| && names[i] == names[j];
      OccurrenceBounds(names, i);
      assert Occurrence(names, j) > 1 && |Copy(names[j], Occurrence(names, j))| > |names[j]|;
      assert Columns(names)[j] != names[j];
    }
  }

  lemma {:induction false} NoRenames(names: seq<string>, n: nat)
    requires n <= |names|
    ensures Renames(names, n) == [] <==> forall i :: 0 <= i < n ==> Columns(names)[i] == names[i]
  {
    hide Columns, Unique, Occurrence, Copy, Decimal;
    if n > 0 {
      NoRenames(names, n - 1);
    }
  }

  lemma PositionNames(text: Json -> string, i: nat, j: nat)
    ensures BaseName(text, None, i)[0] == 'c'
    ensures i != j ==> BaseName(text, None, i) != BaseName(text, None, j)
  {
    assert BaseName(text, None, i)[7..] == Decimal(i + 1) && BaseName(text, None, j)[7..] == Decimal(j + 1);
    if Decimal(i + 1) == Decimal(j + 1) {
      DecimalInjective(i + 1, j + 1);
    }
  }

  /** Columns that are named by position are always distinct, and none is called `_extra_values`. */
  lemma SyntheticColumnsAreClear(text: Json -> string, width: nat)
    ensures Distinct(Columns(BaseNames(text, None, width))) && EXTRA !in Columns(BaseNames(text, None, width))
  {
    hide BaseName, Columns;
    var names := BaseNames(text, None, width);
    forall i, j | 0 <= i < j < width ensures names[i] != names[j] {
      PositionNames(text, i, j);
    }
    DistinctNamesStay(names);
    forall i | 0 <= i < width ensures names[i] != EXTRA {
      PositionNames(text, i, i);
    }
  }
}
