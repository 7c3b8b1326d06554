/** The page-by-page table walk of migration 0063, against converting all rows at once
    (migrations/versions/0063_column_rules_contract.py:204-254). */
module KeysetMigration {
  import opened ColumnRules
  import opened Options
  import opened Text

  datatype Row = Row(name: string, uiId: string, projectId: string, inputValues: Value)

  datatype Edge = Edge(projectId: string, target: string, targetHandle: Option<string>)

  type Rows = map<string, Row>

  // ---- links -------------------------------------------------------------------------------------

  /** The input a link feeds, if its handle names one. */
  function InputOf(e: Edge): Option<string> {
    if e.targetHandle.Some? && "input-" <= e.targetHandle.value then Some(e.targetHandle.value[6..]) else None
  }

  predicate Feeds(e: Edge, projectId: string, uiId: string) {
    e.projectId == projectId && e.target == uiId && InputOf(e).Some?
  }

  /** All inputs of a node that some link feeds. */
  function Connected(edges: seq<Edge>, projectId: string, uiId: string): set<string> {
    set e | e in edges && Feeds(e, projectId, uiId) :: InputOf(e).value
  }

  /** An input is fed exactly if some link of the project ends at the node with the handle `input-` and its name. */
  lemma FedExactly(edges: seq<Edge>, projectId: string, uiId: string, input: string)
    ensures input in Connected(edges, projectId, uiId) <==> Edge(projectId, uiId, Some("input-" + input)) in edges
  {
    var e := Edge(projectId, uiId, Some("input-" + input));
    assert ("input-" + input)[6..] == input;
    assert InputOf(e) == Some(input);
    if x :| x in edges && Feeds(x, projectId, uiId) && InputOf(x).value == input {
      assert x.targetHandle.value == "input-" + x.targetHandle.value[6..];
    }
    if e in edges {
      assert Feeds(e, projectId, uiId);
    }
  }

  /** The join of a page with the links: only links into nodes of the page are kept. */
  predicate Joined(e: Edge, page: seq<Row>) {
    exists row :: row in page && row.uiId == e.target && row.projectId == e.projectId
  }

  function Lookup2(m: map<(string, string), set<string>>, projectId: string, uiId: string): set<string> {
    if (projectId, uiId) in m then m[(projectId, uiId)] else {}
  }

  /** The `connected` dictionary of one page tells every row of the page all its fed inputs. */
  method CollectConnected(edges: seq<Edge>, page: seq<Row>) returns (connected: map<(string, string), set<string>>)
    ensures forall row :: row in page ==>
      Lookup2(connected, row.projectId, row.uiId) == Connected(edges, row.projectId, row.uiId)
  {
    connected := map[];
    for i := 0 to |edges|
      invariant forall row :: row in page ==>
        Lookup2(connected, row.projectId, row.uiId) == Connected(edges[..i], row.projectId, row.uiId)
    {
      var e := edges[i];
      var input := InputOf(e);
      ghost var before := connected;
      if Joined(e, page) && input.Some? {
        var key := (e.projectId, e.target);
        connected := connected[key := Lookup2(connected, e.projectId, e.target) + {input.value}];
      }
      forall row | row in page
        ensures Lookup2(connected, row.projectId, row.uiId) == Connected(edges[..i + 1], row.projectId, row.uiId)
      {
        ConnectedSnoc(edges, i, row.projectId, row.uiId);
      }
    }
    assert edges[..|edges|] == edges;
  }

  lemma ConnectedSnoc(edges: seq<Edge>, i: nat, projectId: string, uiId: string)
    requires i < |edges|
    ensures Connected(edges[..i + 1], projectId, uiId)
         == Connected(edges[..i], projectId, uiId)
            + if Feeds(edges[i], projectId, uiId) then {InputOf(edges[i]).value} else {}
  {
    assert edges[..i + 1] == edges[..i] + [edges[i]];
    assert edges[i] in edges[..i + 1];
  }

  // ---- converting one row ---------------------------------------------------------------------------

  /** What the migration makes of one row, given all links of the table. */
  function Convert(env: Env, lower: string -> string, edges: seq<Edge>, row: Row, reverse: bool): Outcome {
    if reverse then Downgrade(env, lower(row.name), row.inputValues)
    else Upgrade(env, lower(row.name), row.inputValues, Connected(edges, row.projectId, row.uiId))
  }

  predicate Matches(lower: string -> string, row: Row) {
    Lookup(lower(row.name)).Some?
  }

  function MatchingIds(lower: string -> string, rows: Rows): set<string> {
    set id | id in rows && Matches(lower, rows[id])
  }

  /** One row after its conversion; a conversion that raises leaves it alone. */
  function Converted(env: Env, lower: string -> string, edges: seq<Edge>, row: Row, reverse: bool): Row {
    var o := Convert(env, lower, edges, row, reverse);
    if o.Raises? then row else row.(inputValues := o.result.raw)
  }

  /** The table with exactly the rows `ids` converted. */
  function ConvertRows(env: Env, lower: string -> string, edges: seq<Edge>, rows: Rows, ids: set<string>, reverse: bool): Rows {
    map id | id in rows :: if id in ids then Converted(env, lower, edges, rows[id], reverse) else rows[id]
  }

  // ---- keyset paging over any conversion --------------------------------------------------------------

  /** `WHERE id > last ORDER BY id LIMIT limit`. */
  function Page(ids: set<string>, last: Option<string>, limit: nat): seq<string> {
    var sorted := Sorted(After(ids, last));
    if |sorted| <= limit then sorted else sorted[..limit]
  }

  /** In ascending order, what is greater than the last of the first `n` is the rest. */
  lemma AfterIsSuffix(all: seq<string>, n: nat, id: string)
    requires Ascending(all) && 0 < n <= |all|
    ensures id in all && !Leq(id, all[n - 1]) <==> id in all[n..]
  {
    hide Leq;
    LeqTotal(all[n - 1], all[n - 1]);
    if id in all {
      var j :| 0 <= j < |all| && all[j] == id;
      LeqTotal(all[n - 1], id);
      if j >= n { assert all[n..][j - n] == id; }
    }
  }

  /** The ids still to be fetched after `n` rows. */
  function After(ids: set<string>, last: Option<string>): set<string> {
    set id | id in ids && (last.None? || !Leq(id, last.value))
  }

  /** After `n` rows in order the remaining ids are the rest of the same order. */
  lemma RemainingIds(ids: set<string>, n: nat)
    requires n <= |Sorted(ids)|
    ensures Sorted(After(ids, LastOf(Sorted(ids), n))) == Sorted(ids)[n..]
  {
    hide Leq, Sorted;
    var all := Sorted(ids);
    if n == 0 {
      assert After(ids, None) == ids && all[0..] == all;
    } else {
      forall id ensures id in Sorted(After(ids, Some(all[n - 1]))) <==> id in all[n..] {
        AfterIsSuffix(all, n, id);
      }
      SuffixAscending(all, n);
      AscendingUnique(Sorted(After(ids, Some(all[n - 1]))), all[n..]);
    }
  }

  lemma SuffixAscending(all: seq<string>, n: nat)
    requires Ascending(all) && n <= |all|
    ensures Ascending(all[n..])
  {
  }

  function LastOf(all: seq<string>, n: nat): Option<string>
    requires n <= |all|
  {
    if n == 0 then None else Some(all[n - 1])
  }

  function StopOf(all: seq<string>, n: nat, limit: nat): nat
    requires n <= |all|
  {
    if |all| - n <= limit then |all| else n + limit
  }

  lemma PageIs(ids: set<string>, n: nat, limit: nat)
    requires n <= |Sorted(ids)|
    ensures var all := Sorted(ids);
      Page(ids, LastOf(all, n), limit) == all[n..StopOf(all, n, limit)]
  {
    hide Leq, Sorted;
    RemainingIds(ids, n);
  }

  function Elements(s: seq<string>): set<string> {
    set x | x in s
  }

  lemma ElementsSnoc(page: seq<string>, i: nat)
    requires i < |page|
    ensures Elements(page[..i + 1]) == Elements(page[..i]) + {page[i]}
  {
    assert page[..i + 1] == page[..i] + [page[i]];
  }

  lemma ConvertOneMore(env: Env, lower: string -> string, edges: seq<Edge>, rows: Rows, ids: set<string>, id: string, reverse: bool)
    requires id in rows
    ensures ConvertRows(env, lower, edges, rows, ids + {id}, reverse)
         == ConvertRows(env, lower, edges, rows, ids, reverse)[id := Converted(env, lower, edges, rows[id], reverse)]
    ensures id !in ids && Converted(env, lower, edges, rows[id], reverse) == rows[id] ==>
      ConvertRows(env, lower, edges, rows, ids + {id}, reverse) == ConvertRows(env, lower, edges, rows, ids, reverse)
  {
    hide Converted;
  }

  method ConvertRow(env: Env, lower: string -> string, edges: seq<Edge>, row: Row,
                    connected: map<(string, string), set<string>>, reverse: bool) returns (o: Outcome)
    requires !reverse ==> Lookup2(connected, row.projectId, row.uiId) == Connected(edges, row.projectId, row.uiId)
    ensures o == Convert(env, lower, edges, row, reverse)
    ensures o.Done? ==> Converted(env, lower, edges, row, reverse) == row.(inputValues := o.result.raw)
    ensures o.Done? && !o.result.changed ==> o.result.raw == row.inputValues
  {
    if reverse {
      o := Downgrade(env, lower(row.name), row.inputValues);
    } else {
      o := Upgrade(env, lower(row.name), row.inputValues, Lookup2(connected, row.projectId, row.uiId));
    }
  }

  predicate NoneRaises(env: Env, lower: string -> string, edges: seq<Edge>, rows: Rows, ids: set<string>, reverse: bool) {
    forall id :: id in ids && id in rows ==> !Convert(env, lower, edges, rows[id], reverse).Raises?
  }

  lemma NothingConverted(env: Env, lower: string -> string, edges: seq<Edge>, rows: Rows, reverse: bool)
    ensures ConvertRows(env, lower, edges, rows, Elements([]), reverse) == rows
  {
  }

  /** Conversions keep names, so the same rows match at every page. */
  lemma SameMatches(env: Env, lower: string -> string, edges: seq<Edge>, rows: Rows, ids: set<string>, reverse: bool)
    ensures MatchingIds(lower, ConvertRows(env, lower, edges, rows, ids, reverse)) == MatchingIds(lower, rows)
  {
  }

  /** Converting further rows does not touch the ones already converted. */
  lemma ConvertTwice(env: Env, lower: string -> string, edges: seq<Edge>, rows: Rows, ids: set<string>, more: set<string>, reverse: bool)
    requires ids !! more
    ensures var once := ConvertRows(env, lower, edges, rows, ids, reverse);
      && ConvertRows(env, lower, edges, once, more, reverse) == ConvertRows(env, lower, edges, rows, ids + more, reverse)
      && once.Keys == rows.Keys
      && (NoneRaises(env, lower, edges, once, more, reverse) <==> NoneRaises(env, lower, edges, rows, more, reverse))
      && (NoneRaises(env, lower, edges, rows, ids + more, reverse) <==>
            NoneRaises(env, lower, edges, rows, ids, reverse) && NoneRaises(env, lower, edges, rows, more, reverse))
  {
    hide Converted, Convert;
  }

  lemma EmptyRaises(env: Env, lower: string -> string, edges: seq<Edge>, rows: Rows, reverse: bool)
    ensures NoneRaises(env, lower, edges, rows, Elements([]), reverse)
  {
  }

  lemma KnownIds(lower: string -> string, rows: Rows)
    ensures MatchingIds(lower, rows) <= rows.Keys
  {
  }

  lemma SubsetRaises(env: Env, lower: string -> string, edges: seq<Edge>, rows: Rows, some: set<string>, all: set<string>, reverse: bool)
    requires some <= all && NoneRaises(env, lower, edges, rows, all, reverse)
    ensures NoneRaises(env, lower, edges, rows, some, reverse)
  {
  }

  /** A slice of the listing: known ids, each once, disjoint from what came before. */
  lemma PageFacts(ids: set<string>, n: nat, stop: nat)
    requires n <= stop <= |Sorted(ids)|
    ensures var all := Sorted(ids); var page := all[n..stop];
      && (forall id :: id in page ==> id in ids)
      && (forall i, j :: 0 <= i < j < |page| ==> page[i] != page[j])
      && Elements(all[..n]) !! Elements(page)
      && Elements(all[..n]) + Elements(page) == Elements(all[..n] + page)
      && all[..n] + page == all[..stop]
      && (page != [] ==> page[|page| - 1] == all[stop - 1])
  {
    hide Sorted, Leq;
    var all := Sorted(ids);
    assert all[..n] + all[n..stop] == all[..stop];
    forall id | id in all[n..stop] ensures id in ids && id !in all[..n] {
      assert id in all;
    }
  }

  class Table {
    var rows: Rows

    constructor (rows: Rows)
      ensures this.rows == rows
    {
      this.rows := rows;
    }

    /** One page: every row is converted with the links known to it, and written back if changed. */
    method ConvertPage(env: Env, lower: string -> string, edges: seq<Edge>, page: seq<string>, reverse: bool)
      returns (ok: bool)
      requires forall id :: id in page ==> id in rows
      requires forall i, j :: 0 <= i < j < |page| ==> page[i] != page[j]
      modifies this
      ensures ok ==> rows == ConvertRows(env, lower, edges, old(rows), Elements(page), reverse)
      ensures ok <==> NoneRaises(env, lower, edges, old(rows), Elements(page), reverse)
    {
      var before := rows;
      assert forall i :: 0 <= i < |page| ==> page[i] in page;
      var fetched := seq(|page|, i requires 0 <= i < |page| && page[i] in before => before[page[i]]);
      var connected := map[];
      if !reverse {
        connected := CollectConnected(edges, fetched);
      }
      for i := 0 to |page|
        invariant rows == ConvertRows(env, lower, edges, before, Elements(page[..i]), reverse)
        invariant forall j :: 0 <= j < i ==> !Convert(env, lower, edges, before[page[j]], reverse).Raises?
      {
        hide Convert, Connected, ConvertRows, Converted;
        var id, row := page[i], fetched[i];
        assert row in fetched && row == before[id] && id in page;
        var o := ConvertRow(env, lower, edges, row, connected, reverse);
        if o.Raises? {
          return false;
        }
        ElementsSnoc(page, i);
        ConvertOneMore(env, lower, edges, before, Elements(page[..i]), id, reverse);
        if o.result.changed {
          rows := rows[id := row.(inputValues := o.result.raw)];
        }
      }
      assert page[..|page|] == page;
      return true;
    }

    /** `_migrate`: pages through the matching rows in id order until none is left. It ends, it
        fetches every matching row exactly once and in order, and the table it leaves is the one
        where all matching rows are converted at once. If a conversion raises, the transaction
        is rolled back. */
    method Migrate(env: Env, lower: string -> string, edges: seq<Edge>, reverse: bool, limit: nat)
      returns (ok: bool, visited: seq<string>)
      requires limit > 0
      modifies this
      ensures ok ==> visited == Sorted(MatchingIds(lower, old(rows)))
      ensures ok ==>
        rows == ConvertRows(env, lower, edges, old(rows), MatchingIds(lower, old(rows)), reverse)
      ensures !ok ==> rows == old(rows)
      ensures ok <==> NoneRaises(env, lower, edges, old(rows), MatchingIds(lower, old(rows)), reverse)
    {
      hide Sorted, ConvertRows, NoneRaises, MatchingIds;
      NothingConverted(env, lower, edges, rows, reverse);
      EmptyRaises(env, lower, edges, rows, reverse);
      var start := rows;
      ghost var ids := MatchingIds(lower, start);
      ghost var all := Sorted(ids);
      var last: Option<string> := None;
      visited := [];
      assert all[..0] == [];
      while true
        invariant |visited| <= |all| && visited == all[..|visited|] && last == LastOf(all, |visited|)
        invariant rows == ConvertRows(env, lower, edges, start, Elements(visited), reverse)
        invariant NoneRaises(env, lower, edges, start, Elements(visited), reverse)
        decreases |all| - |visited|
      {
        SameMatches(env, lower, edges, start, Elements(visited), reverse);
        var page := Page(MatchingIds(lower, rows), last, limit);
        PageIs(ids, |visited|, limit);
        ghost var stop := StopOf(all, |visited|, limit);
        if page == [] {
          break;
        }
        PageFacts(ids, |visited|, stop);
        ConvertTwice(env, lower, edges, start, Elements(visited), Elements(page), reverse);
        KnownIds(lower, start);
        var done := ConvertPage(env, lower, edges, page, reverse);
        if !done {
          if NoneRaises(env, lower, edges, start, ids, reverse) {
            SubsetRaises(env, lower, edges, start, Elements(page), ids, reverse);
          }
          rows := start;
          return false, visited;
        }
        visited := visited + page;
        assert visited == all[..stop] && |visited| == stop;
        last := Some(page[|page| - 1]);
      }
      assert visited == all;
      assert Elements(visited) == ids;
      ok := true;
    }
  }
}
