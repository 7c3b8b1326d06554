/** Which matrices are reported where, and what a report says (core/metadata/json_tabular.py:30-122, 179-208). */
module JsonMatrices {
  import opened JsonObservation
  import opened JsonPath
  import opened JsonTabular
  import opened Options

  // ---- from a value to the values below it -----------------------------------------------------------------

  /** A value below another one, and the tokens that lead to it. */
  datatype Hop = Hop(tokens: seq<string>, value: Json)

  /** Where cell `j` of a row goes. */
  function CellTokens(columns: seq<string>, j: nat): seq<string> {
    [ITEM, if j < |columns| then columns[j] else EXTRA]
  }

  /** One level down: to a field by its key, to an item, or, in a matrix, to a cell of a data row by its column. */
  ghost predicate LeadsTo(text: Json -> string, v: Json, hop: Hop) {
    match v
    case Obj(fields) => exists i :: 0 <= i < |fields| && hop == Hop([fields[i].key], fields[i].value)
    case Arr(items) =>
      var matrix := Detect(text, items);
      if matrix.None? then exists i :: 0 <= i < |items| && hop == Hop([ITEM], items[i])
      else exists k, j :: IsCell(items, matrix.value, k, j, hop)
    case _ => false
  }

  predicate IsCell(items: seq<Json>, matrix: Matrix, k: int, j: int, hop: Hop)
    requires items != [] && AllRows(items)
  {
    && 0 <= k < |DataRows(items, matrix)| && 0 <= j < |DataRows(items, matrix)[k].items|
    && hop == Hop(CellTokens(matrix.columns, j), DataRows(items, matrix)[k].items[j])
  }

  ghost predicate IsTrail(text: Json -> string, v: Json, hops: seq<Hop>)
    decreases |hops|
  {
    hops == [] || (LeadsTo(text, v, hops[0]) && IsTrail(text, hops[0].value, hops[1..]))
  }

  function End(v: Json, hops: seq<Hop>): Json {
    if hops == [] then v else hops[|hops| - 1].value
  }

  function PathOf(path: seq<string>, hops: seq<Hop>): seq<string>
    decreases |hops|
  {
    if hops == [] then path else PathOf(path + hops[0].tokens, hops[1..])
  }

  /** The report is about the matrix at the end of the trail. */
  ghost predicate IsReported(text: Json -> string, v: Json, path: seq<string>, hops: seq<Hop>, r: Report) {
    && IsTrail(text, v, hops)
    && var w := End(v, hops);
    && w.Arr? && Detect(text, w.items).Some?
    && r == ReportOf(text, w.items, PathOf(path, hops), Detect(text, w.items).value)
  }

  // ---- one level ------------------------------------------------------------------------------------------------

  ghost predicate ReportedBelow(text: Json -> string, v: Json, path: seq<string>, r: Report) {
    exists hop :: LeadsTo(text, v, hop) && r in Reports(text, hop.value, path + hop.tokens)
  }

  lemma {:induction false} FieldsReport(text: Json -> string, v: Json, n: nat, path: seq<string>, r: Report)
    requires v.Obj? && n <= |v.fields|
    ensures r in FieldReports(text, v, n, path) <==>
      exists i :: 0 <= i < n && r in Reports(text, v.fields[i].value, path + [v.fields[i].key])
  {
    hide Reports;
    if n > 0 {
      FieldsReport(text, v, n - 1, path, r);
    }
  }

  lemma {:induction false} ItemsReport(text: Json -> string, v: Json, lo: nat, hi: nat, path: seq<string>, r: Report)
    requires v.Arr? && lo <= hi <= |v.items|
    ensures r in ItemReports(text, v, lo, hi, path) <==> exists i :: lo <= i < hi && r in Reports(text, v.items[i], path)
  {
    hide Reports;
    if lo < hi {
      ItemsReport(text, v, lo, hi - 1, path, r);
    }
  }

  lemma {:induction false} CellsReport(text: Json -> string, row: Json, columns: seq<string>, n: nat, path: seq<string>, r: Report)
    requires row.Arr? && n <= |columns|
    ensures r in CellReports(text, row, columns, n, path) <==>
      exists j :: 0 <= j < n && j < |row.items| && r in Reports(text, row.items[j], path + [ITEM, columns[j]])
  {
    hide Reports;
    if n > 0 {
      CellsReport(text, row, columns, n - 1, path, r);
    }
  }

  ghost predicate RowReported(text: Json -> string, row: Json, columns: seq<string>, j: int, path: seq<string>, r: Report)
    requires row.Arr?
  {
    0 <= j < |row.items| && r in Reports(text, row.items[j], path + CellTokens(columns, j))
  }

  lemma RowCells(text: Json -> string, row: Json, columns: seq<string>, path: seq<string>, r: Report)
    requires row.Arr?
    ensures r in RowReport(text, row, columns, path) <==> exists j :: RowReported(text, row, columns, j, path, r)
  {
    hide Reports, CellReports, ItemReports;
    CellsReport(text, row, columns, |columns|, path, r);
    if |row.items| > |columns| {
      ItemsReport(text, row, |columns|, |row.items|, path + [ITEM, EXTRA], r);
    }
    if j :| RowReported(text, row, columns, j, path, r) {
      if j < |columns| {
        assert path + CellTokens(columns, j) == path + [ITEM, columns[j]];
      } else {
        assert path + CellTokens(columns, j) == path + [ITEM, EXTRA];
      }
    }
    if j :| 0 <= j < |columns| && j < |row.items| && r in Reports(text, row.items[j], path + [ITEM, columns[j]]) {
      assert RowReported(text, row, columns, j, path, r);
    }
    if |row.items| > |columns| {
      if j :| |columns| <= j < |row.items| && r in Reports(text, row.items[j], path + [ITEM, EXTRA]) {
        assert RowReported(text, row, columns, j, path, r);
      }
    }
  }

  lemma {:induction false} RowsReport(text: Json -> string, v: Json, matrix: Matrix, n: nat, path: seq<string>, r: Report)
    requires v.Arr? && v.items != [] && AllRows(v.items) && n <= |DataRows(v.items, matrix)|
    ensures r in RowReports(text, v, matrix, n, path) <==>
      exists k, j :: 0 <= k < n && RowReported(text, DataRows(v.items, matrix)[k], matrix.columns, j, path, r)
  {
    hide Reports, RowReport, RowReported;
    if n > 0 {
      RowsReport(text, v, matrix, n - 1, path, r);
      RowCells(text, DataRows(v.items, matrix)[n - 1], matrix.columns, path, r);
    }
  }

  /** A value reports itself, if it is a matrix, and what the values below it report. */
  lemma ReportsStep(text: Json -> string, v: Json, path: seq<string>, r: Report)
    ensures r in Reports(text, v, path) <==>
      || (v.Arr? && Detect(text, v.items).Some? && r == ReportOf(text, v.items, path, Detect(text, v.items).value))
      || ReportedBelow(text, v, path, r)
  {
    match v
    case Obj(fields) => ObjectStep(text, v, path, r);
    case Arr(items) =>
      if Detect(text, items).None? {
        ListStep(text, v, path, r);
      } else {
        MatrixStep(text, v, path, r);
      }
    case _ =>
  }

  lemma ObjectStep(text: Json -> string, v: Json, path: seq<string>, r: Report)
    requires v.Obj?
    ensures r in FieldReports(text, v, |v.fields|, path) <==> ReportedBelow(text, v, path, r)
  {
    hide Reports, FieldReports;
    FieldsReport(text, v, |v.fields|, path, r);
    if i :| 0 <= i < |v.fields| && r in Reports(text, v.fields[i].value, path + [v.fields[i].key]) {
      assert LeadsTo(text, v, Hop([v.fields[i].key], v.fields[i].value));
    }
  }

  lemma ListStep(text: Json -> string, v: Json, path: seq<string>, r: Report)
    requires v.Arr? && Detect(text, v.items).None?
    ensures r in ItemReports(text, v, 0, |v.items|, path + [ITEM]) <==> ReportedBelow(text, v, path, r)
  {
    hide Reports, ItemReports, Detect;
    ItemsReport(text, v, 0, |v.items|, path + [ITEM], r);
    if i :| 0 <= i < |v.items| && r in Reports(text, v.items[i], path + [ITEM]) {
      assert LeadsTo(text, v, Hop([ITEM], v.items[i]));
    }
  }

  lemma MatrixStep(text: Json -> string, v: Json, path: seq<string>, r: Report)
    requires v.Arr? && Detect(text, v.items).Some?
    ensures var matrix := Detect(text, v.items).value;
      r in RowReports(text, v, matrix, |DataRows(v.items, matrix)|, path) <==> ReportedBelow(text, v, path, r)
  {
    hide Reports, RowReports, CellTokens;
    var matrix := Detect(text, v.items).value;
    var rows := DataRows(v.items, matrix);
    RowsReport(text, v, matrix, |rows|, path, r);
    hide Detect, DataRows;
    if k, j :| 0 <= k < |rows| && RowReported(text, rows[k], matrix.columns, j, path, r) {
      var hop := Hop(CellTokens(matrix.columns, j), rows[k].items[j]);
      assert IsCell(v.items, matrix, k, j, hop);
      assert LeadsTo(text, v, hop);
    }
    if hop :| LeadsTo(text, v, hop) && r in Reports(text, hop.value, path + hop.tokens) {
      var k, j :| IsCell(v.items, matrix, k, j, hop);
      assert RowReported(text, rows[k], matrix.columns, j, path, r);
    }
  }

  lemma LeadsDown(text: Json -> string, v: Json, hop: Hop)
    requires LeadsTo(text, v, hop)
    ensures hop.value < v
  {
    match v
    case Obj(fields) =>
    case Arr(items) =>
      var matrix := Detect(text, items);
      if matrix.Some? {
        var k, j :| IsCell(items, matrix.value, k, j, hop);
        assert DataRows(items, matrix.value)[k] == items[if matrix.value.headerRow then k + 1 else k];
      }
  }

  /** Exactly the matrices of a value are reported, at every depth, each at the tokens that lead to it: keys, items, and
      the columns of the matrices around it. */
  lemma {:induction false} ReportsExactly(text: Json -> string, v: Json, path: seq<string>, r: Report)
    ensures r in Reports(text, v, path) <==> exists hops :: IsReported(text, v, path, hops, r)
    decreases v
  {
    hide Reports, Detect, ReportOf, LeadsTo;
    ReportsStep(text, v, path, r);
    forall hop | LeadsTo(text, v, hop)
      ensures r in Reports(text, hop.value, path + hop.tokens) <==> exists hops :: IsReported(text, hop.value, path + hop.tokens, hops, r)
    {
      LeadsDown(text, v, hop);
      ReportsExactly(text, hop.value, path + hop.tokens, r);
    }
    TrailSplits(text, v, path, r);
    if hop :| LeadsTo(text, v, hop) && r in Reports(text, hop.value, path + hop.tokens) {
      var rest :| IsReported(text, hop.value, path + hop.tokens, rest, r);
      assert StepReported(text, v, path, hop, rest, r);
    }
    if hop: Hop, rest: seq<Hop> :| StepReported(text, v, path, hop, rest, r) {
      assert LeadsTo(text, v, hop) && r in Reports(text, hop.value, path + hop.tokens);
    }
  }

  ghost predicate StepReported(text: Json -> string, v: Json, path: seq<string>, hop: Hop, rest: seq<Hop>, r: Report) {
    LeadsTo(text, v, hop) && IsReported(text, hop.value, path + hop.tokens, rest, r)
  }

  lemma TrailSplits(text: Json -> string, v: Json, path: seq<string>, r: Report)
    ensures (exists hops :: IsReported(text, v, path, hops, r)) <==>
      || (v.Arr? && Detect(text, v.items).Some? && r == ReportOf(text, v.items, path, Detect(text, v.items).value))
      || exists hop, rest :: StepReported(text, v, path, hop, rest, r)
  {
    hide Detect, ReportOf, LeadsTo;
    if hops: seq<Hop> :| IsReported(text, v, path, hops, r) {
      if hops != [] {
        assert End(hops[0].value, hops[1..]) == End(v, hops);
        assert StepReported(text, v, path, hops[0], hops[1..], r);
      }
    }
    if v.Arr? && Detect(text, v.items).Some? && r == ReportOf(text, v.items, path, Detect(text, v.items).value) {
      assert IsReported(text, v, path, [], r);
    }
    if hop, rest :| StepReported(text, v, path, hop, rest, r) {
      var hops := [hop] + rest;
      assert hops[1..] == rest && End(v, hops) == End(hop.value, rest);
      assert IsReported(text, v, path, hops, r);
    }
  }

  // ---- what a report says ---------------------------------------------------------------------------------------

  lemma {:induction false} RenamesOnly(names: seq<string>, n: nat)
    requires n <= |names|
    ensures forall w :: w in Renames(names, n) ==> w.Renamed?
  {
    hide Columns;
    if n > 0 {
      RenamesOnly(names, n - 1);
    }
  }

  /** A report counts the data rows, and warns exactly of generated names, of rows that are too short and of rows that are
      too long. */
  lemma ReportSays(text: Json -> string, items: seq<Json>, path: seq<string>, matrix: Matrix)
    requires items != [] && AllRows(items)
    ensures var r := ReportOf(text, items, path, matrix); var first := if matrix.headerRow then 1 else 0;
      && r.path == path && r.columns == matrix.columns && r.headerRow == matrix.headerRow && r.rowCount == |items| - first
      && (Synthetic in r.warnings <==> !matrix.headerRow)
      && (Padded in r.warnings <==> exists i :: first <= i < |items| && |items[i].items| < |matrix.columns|)
      && (Extra in r.warnings <==> exists i :: first <= i < |items| && |items[i].items| > |matrix.columns|)
  {
    hide Renames, BaseName, DataRows;
    var rows, first, width := DataRows(items, matrix), if matrix.headerRow then 1 else 0, |matrix.columns|;
    RowsAre(items, matrix);
    if i :| first <= i < |items| && |items[i].items| < width {
      assert |rows[i - first].items| < width;
    }
    if i :| first <= i < |items| && |items[i].items| > width {
      assert |rows[i - first].items| > width;
    }
    RenamesOnly(BaseNames(text, if matrix.headerRow then Some(items[0].items) else None, width), width);
  }

  lemma RowsAre(items: seq<Json>, matrix: Matrix)
    requires items != []
    ensures var first := if matrix.headerRow then 1 else 0;
      && |DataRows(items, matrix)| == |items| - first
      && (forall i :: 0 <= i < |items| - first ==> DataRows(items, matrix)[i] == items[i + first])
      && forall i :: first <= i < |items| ==> items[i] == DataRows(items, matrix)[i - first]
  {
  }
}
