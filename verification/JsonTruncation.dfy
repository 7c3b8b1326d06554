/** When inference stops: which positions of a document get a node, and when the result says that
    it was truncated (core/metadata/json_structure.py:77-92, 128-176). */
module JsonTruncation {
  import opened JsonBudget
  import opened JsonObservation
  import opened JsonPath
  import opened Options
  import Text

  type Path = seq<string>

  // ---- the document ----------------------------------------------------------------------------

  function Width(v: Json): nat {
    match v
    case Obj(fields) => |fields|
    case Arr(items) => |items|
    case _ => 0
  }

  function Entry(v: Json, i: nat): (e: Json)
    requires i < Width(v)
    ensures e < v
  {
    match v
    case Obj(fields) => fields[i].value
    case Arr(items) => items[i]
  }

  function Token(v: Json, i: nat): string
    requires i < Width(v)
  {
    if v.Obj? then v.fields[i].key else ITEM
  }

  /** How many entries a container may have, and how many of them are looked at. */
  function WidthLimit(v: Json, limits: Limits): int {
    if v.Obj? then limits.maxObjectChildren else limits.maxArrayItems
  }

  function Looked(v: Json, limits: Limits): (n: nat)
    ensures n <= Width(v) && forall i :: 0 <= i < Width(v) ==> (i < n <==> InSlice(i, Width(v), WidthLimit(v, limits)))
  {
    Kept(Width(v), WidthLimit(v, limits))
  }

  /** Index `i` of a list of length `n` is in its slice up to `limit`; a negative limit counts from the end. */
  predicate InSlice(i: int, n: nat, limit: int) {
    if limit >= 0 then i < limit else i < n + limit
  }

  /** A position: the indices that lead to it. It is reached if each container on the way is less deep than
      `maxDepth` and the index is in the slice that its width limit leaves. */
  predicate Reached(v: Json, at: seq<nat>, depth: int, limits: Limits) {
    || at == []
    || (&& depth < limits.maxDepth
        && at[0] < Width(v) && InSlice(at[0], Width(v), WidthLimit(v, limits))
        && Reached(Entry(v, at[0]), at[1..], depth + 1, limits))
  }

  predicate IsPosition(v: Json, at: seq<nat>) {
    at == [] || (at[0] < Width(v) && IsPosition(Entry(v, at[0]), at[1..]))
  }

  function At(v: Json, at: seq<nat>): Json
    requires IsPosition(v, at)
  {
    if at == [] then v else At(Entry(v, at[0]), at[1..])
  }

  /** The tokens on the way: array positions of one level share theirs. */
  function Tokens(v: Json, at: seq<nat>): Path
    requires IsPosition(v, at)
  {
    if at == [] then [] else [Token(v, at[0])] + Tokens(Entry(v, at[0]), at[1..])
  }

  lemma {:induction false} ReachedIsPosition(v: Json, at: seq<nat>, depth: int, limits: Limits)
    requires Reached(v, at, depth, limits)
    ensures IsPosition(v, at)
  {
    if at != [] {
      ReachedIsPosition(Entry(v, at[0]), at[1..], depth + 1, limits);
    }
  }

  /** A container that inference cannot take in whole: too deep, or too wide. */
  predicate Overfull(v: Json, depth: int, limits: Limits) {
    IsContainer(v) && (depth >= limits.maxDepth || Width(v) > WidthLimit(v, limits))
  }

  ghost predicate IsOverfull(v: Json, at: seq<nat>, depth: int, limits: Limits) {
    Reached(v, at, depth, limits) && IsPosition(v, at) && Overfull(At(v, at), depth + |at|, limits)
  }

  /** Some reached container is overfull. */
  ghost predicate HasOverfull(v: Json, depth: int, limits: Limits) {
    exists at :: IsOverfull(v, at, depth, limits)
  }

  // ---- the order in which positions are reached --------------------------------------------------

  function Under(k: string, paths: seq<Path>): (r: seq<Path>)
    ensures |r| == |paths| && forall i :: 0 <= i < |r| ==> r[i] == [k] + paths[i]
  {
    seq(|paths|, i requires 0 <= i < |paths| => [k] + paths[i])
  }

  /** The paths of the reached positions, each container before its entries. */
  function Visits(v: Json, depth: int, limits: Limits): (paths: seq<Path>)
    ensures paths != [] && paths[0] == []
    decreases v, 1, 0
  {
    [[]] + if depth < limits.maxDepth then EntryVisits(v, Looked(v, limits), depth, limits) else []
  }

  function EntryVisits(v: Json, n: nat, depth: int, limits: Limits): seq<Path>
    requires n <= Width(v)
    decreases v, 0, n
  {
    if n == 0 then []
    else EntryVisits(v, n - 1, depth, limits) + Under(Token(v, n - 1), Visits(Entry(v, n - 1), depth + 1, limits))
  }

  function Distinct(paths: seq<Path>): set<Path> {
    set p | p in paths
  }

  ghost predicate Leads(v: Json, at: seq<nat>, depth: int, limits: Limits, p: Path) {
    Reached(v, at, depth, limits) && IsPosition(v, at) && Tokens(v, at) == p
  }

  /** The listed paths are those of the reached positions. */
  lemma {:induction false} VisitsExactly(v: Json, depth: int, limits: Limits, p: Path)
    ensures p in Visits(v, depth, limits) <==> exists at :: Leads(v, at, depth, limits, p)
    decreases v, 1, 0
  {
    if p == [] {
      assert Visits(v, depth, limits)[0] == [];
      assert Leads(v, [], depth, limits, []);
    } else {
      assert p in Visits(v, depth, limits) <==> depth < limits.maxDepth && p in EntryVisits(v, Looked(v, limits), depth, limits);
      EntryVisitsExactly(v, Looked(v, limits), depth, limits, p);
      if at :| Leads(v, at, depth, limits, p) {
        assert LeadsBelow(v, at, Looked(v, limits), depth, limits, p);
      }
      if depth < limits.maxDepth {
        if at :| LeadsBelow(v, at, Looked(v, limits), depth, limits, p) {
          assert Leads(v, at, depth, limits, p);
        }
      }
    }
  }

  ghost predicate LeadsBelow(v: Json, at: seq<nat>, n: nat, depth: int, limits: Limits, p: Path)
    requires n <= Width(v)
  {
    && at != [] && at[0] < n && p != [] && p[0] == Token(v, at[0])
    && Leads(Entry(v, at[0]), at[1..], depth + 1, limits, p[1..])
  }

  lemma UnderHas(k: string, paths: seq<Path>, p: Path)
    ensures p in Under(k, paths) <==> p != [] && p[0] == k && p[1..] in paths
  {
    if p != [] && p[0] == k && p[1..] in paths {
      var i :| 0 <= i < |paths| && paths[i] == p[1..];
      assert Under(k, paths)[i] == p;
    }
    if i :| 0 <= i < |paths| && Under(k, paths)[i] == p {
      assert p[1..] == paths[i];
    }
  }

  lemma {:induction false} EntryVisitsExactly(v: Json, n: nat, depth: int, limits: Limits, p: Path)
    requires n <= Width(v)
    ensures p in EntryVisits(v, n, depth, limits) <==> exists at :: LeadsBelow(v, at, n, depth, limits, p)
    decreases v, 0, n
  {
    hide Visits, Leads;
    if n > 0 {
      var m, d := n - 1, depth + 1;
      var k, e := Token(v, m), Entry(v, m);
      EntryVisitsExactly(v, m, depth, limits, p);
      UnderHas(k, Visits(e, d, limits), p);
      if p != [] {
        var tail := p[1..];
        VisitsExactly(e, d, limits, tail);
        if rest :| Leads(e, rest, d, limits, tail) && p[0] == k {
          assert ([m] + rest)[1..] == rest;
          assert LeadsBelow(v, [m] + rest, n, depth, limits, p);
        }
      }
      if at :| LeadsBelow(v, at, m, depth, limits, p) {
        assert LeadsBelow(v, at, n, depth, limits, p);
      }
      if at :| LeadsBelow(v, at, n, depth, limits, p) {
        if at[0] < m {
          assert LeadsBelow(v, at, m, depth, limits, p);
        }
      }
    }
  }

  // ---- who gets a node ---------------------------------------------------------------------------------

  /** The paths of the nodes of a tree. */
  ghost function Nodes(t: Observed): set<Path> {
    {[]} + set k, p | k in t.children && p in Nodes(t.children[k]) :: [k] + p
  }

  /** The paths that have a node, and how many more may get one. */
  datatype Room = Room(nodes: set<Path>, left: int)

  function Admitted(r: Room, p: Path): Room {
    if p in r.nodes || r.left <= 0 then r else Room(r.nodes + {p}, r.left - 1)
  }

  function AdmittedAll(r: Room, paths: seq<Path>): Room {
    if paths == [] then r else Admitted(AdmittedAll(r, paths[..|paths| - 1]), paths[|paths| - 1])
  }

  /** Some path is left without a node. */
  ghost predicate Refuses(r: Room, paths: seq<Path>) {
    exists p :: p in paths && p !in AdmittedAll(r, paths).nodes
  }

  lemma {:induction false} AdmittedGrows(r: Room, paths: seq<Path>)
    ensures var r' := AdmittedAll(r, paths);
      && r.nodes <= r'.nodes <= r.nodes + Distinct(paths)
      && r'.left <= r.left && (r.left <= 0 ==> r' == r)
  {
    if paths != [] {
      AdmittedGrows(r, paths[..|paths| - 1]);
    }
  }

  lemma {:induction false} AdmittedAppend(r: Room, a: seq<Path>, b: seq<Path>)
    ensures AdmittedAll(r, a + b) == AdmittedAll(AdmittedAll(r, a), b)
  {
    if b == [] {
      assert a + b == a;
    } else {
      AdmittedAppend(r, a, b[..|b| - 1]);
      assert (a + b)[..|a + b| - 1] == a + b[..|b| - 1];
    }
  }

  /** Whoever is refused finds no room, so nobody else does afterwards. */
  lemma {:induction false} RefusedFull(r: Room, paths: seq<Path>, p: Path)
    requires p in paths && p !in AdmittedAll(r, paths).nodes
    ensures AdmittedAll(r, paths).left <= 0
  {
    var init, last := paths[..|paths| - 1], paths[|paths| - 1];
    if p != last {
      assert p in init;
      RefusedFull(r, init, p);
    }
  }

  lemma RefusesAppend(r: Room, a: seq<Path>, b: seq<Path>)
    ensures Refuses(r, a + b) <==> Refuses(r, a) || Refuses(AdmittedAll(r, a), b)
  {
    hide AdmittedAll;
    var r1 := AdmittedAll(r, a);
    AdmittedAppend(r, a, b);
    AdmittedGrows(r1, b);
    if p :| p in a && p !in r1.nodes {
      RefusedFull(r, a, p);
      assert p in a + b;
    }
    if p :| p in b && p !in AdmittedAll(r1, b).nodes {
      assert p in a + b;
    }
  }

  // ---- trees and their children ----------------------------------------------------------------------------

  lemma NodesHas(t: Observed, p: Path)
    ensures p in Nodes(t) <==> p == [] || (p[0] in t.children && p[1..] in Nodes(t.children[p[0]]))
  {
    if p != [] {
      assert [p[0]] + p[1..] == p;
    }
  }

  /** The paths `nodes` with those below `k` replaced by `below`. */
  ghost function Graft(nodes: set<Path>, k: string, below: set<Path>): set<Path> {
    (set p | p in nodes && (p == [] || p[0] != k)) + set q | q in below :: [k] + q
  }

  lemma GraftHas(nodes: set<Path>, k: string, below: set<Path>, p: Path)
    ensures p in Graft(nodes, k, below) <==> if p != [] && p[0] == k then p[1..] in below else p in nodes
  {
    if p != [] && p[0] == k {
      assert [k] + p[1..] == p;
    }
  }

  lemma NodesWith(t: Observed, k: string, c: Observed)
    ensures Nodes(t.(children := t.children[k := c])) == Graft(Nodes(t), k, Nodes(c))
  {
    hide Nodes, Graft;
    var t' := t.(children := t.children[k := c]);
    forall p ensures p in Nodes(t') <==> p in Graft(Nodes(t), k, Nodes(c)) {
      NodesHas(t', p);
      NodesHas(t, p);
      GraftHas(Nodes(t), k, Nodes(c), p);
    }
  }

  lemma NodesFresh(name: string, tokens: seq<string>)
    ensures Nodes(Fresh(name, tokens)) == {[]}
  {
  }

  lemma GraftAdd(nodes: set<Path>, k: string, below: set<Path>, q: Path)
    ensures Graft(nodes, k, below + {q}) == Graft(nodes, k, below) + {[k] + q}
    ensures [k] + q in Graft(nodes, k, below) <==> q in below
  {
    GraftHas(nodes, k, below, [k] + q);
    assert ([k] + q)[1..] == q;
  }

  /** Admitting below one child, and admitting at the parent. */
  lemma {:induction false} AdmittedUnder(nodes: set<Path>, k: string, below: set<Path>, left: int, paths: seq<Path>)
    ensures var r := AdmittedAll(Room(below, left), paths);
      AdmittedAll(Room(Graft(nodes, k, below), left), Under(k, paths)) == Room(Graft(nodes, k, r.nodes), r.left)
  {
    hide Graft;
    if paths != [] {
      var init, last := paths[..|paths| - 1], paths[|paths| - 1];
      AdmittedUnder(nodes, k, below, left, init);
      assert Under(k, paths)[..|paths| - 1] == Under(k, init);
      GraftAdd(nodes, k, AdmittedAll(Room(below, left), init).nodes, last);
    }
  }

  lemma RefusesUnder(nodes: set<Path>, k: string, below: set<Path>, left: int, paths: seq<Path>)
    ensures Refuses(Room(Graft(nodes, k, below), left), Under(k, paths)) <==> Refuses(Room(below, left), paths)
  {
    hide Graft, AdmittedAll;
    AdmittedUnder(nodes, k, below, left, paths);
    var got := AdmittedAll(Room(below, left), paths).nodes;
    forall p ensures p in Under(k, paths) && p !in Graft(nodes, k, got) <==> p != [] && p[0] == k && p[1..] in paths && p[1..] !in got {
      UnderHas(k, paths, p);
      GraftHas(nodes, k, got, p);
    }
    if q :| q in paths && q !in got {
      assert ([k] + q)[1..] == q && ([k] + q)[0] == k;
      assert [k] + q in Under(k, paths) && [k] + q !in Graft(nodes, k, got);
    }
  }

  // ---- what observation does -----------------------------------------------------------------------------------

  function RoomOf(nodes: set<Path>, b: Budget, limits: Limits): Room {
    Room(nodes, limits.maxTotalNodes - b.created)
  }

  /** Going from `nodes` and `b` to `nodes'` and `b'`, the paths were admitted in order, and the result was marked exactly
      for something overfull or a refusal. */
  ghost predicate Follows(paths: seq<Path>, overfull: bool, nodes: set<Path>, b: Budget, nodes': set<Path>, b': Budget, limits: Limits) {
    && RoomOf(nodes', b', limits) == AdmittedAll(RoomOf(nodes, b, limits), paths)
    && (b'.truncated <==> b.truncated || overfull || Refuses(RoomOf(nodes, b, limits), paths))
  }

  lemma FollowsOn(p1: seq<Path>, o1: bool, n0: set<Path>, b0: Budget, n1: set<Path>, b1: Budget,
                  p2: seq<Path>, o2: bool, n2: set<Path>, b2: Budget, limits: Limits)
    requires Follows(p1, o1, n0, b0, n1, b1, limits) && Follows(p2, o2, n1, b1, n2, b2, limits)
    ensures Follows(p1 + p2, o1 || o2, n0, b0, n2, b2, limits)
  {
    hide Refuses, AdmittedAll;
    AdmittedAppend(RoomOf(n0, b0, limits), p1, p2);
    RefusesAppend(RoomOf(n0, b0, limits), p1, p2);
  }

  /** A position that has a node already changes nothing. */
  lemma FollowsKnown(nodes: set<Path>, b: Budget, limits: Limits)
    requires [] in nodes
    ensures Follows([[]], false, nodes, b, nodes, b, limits)
    ensures Follows([], false, nodes, b, nodes, b, limits)
    ensures Follows([], true, nodes, b, nodes, Mark(b), limits)
  {
    var known: seq<Path> := [[]];
    assert known[..0] == [];
    assert AdmittedAll(RoomOf(nodes, b, limits), known) == RoomOf(nodes, b, limits);
  }

  /** The child is there, or made if there is room: what it goes through, its parent goes through. */
  lemma ChildFollows(t: Observed, k: string, limits: Limits, b: Budget, paths: seq<Path>, overfull: bool, c: Observed, b1: Budget,
                     c': Observed, b': Budget)
    requires paths != [] && paths[0] == [] && Child(t, k, limits, b) == (Some(c), b1)
    requires Follows(paths, overfull, Nodes(c), b1, Nodes(c'), b', limits)
    ensures Follows(Under(k, paths), overfull, Nodes(t), b, Graft(Nodes(t), k, Nodes(c')), b', limits)
  {
    hide Nodes, Graft, Under, Follows;
    if k in t.children {
      KnownFollows(t, k, limits, b, paths, overfull, c', b');
    } else {
      MadeFollows(t, k, limits, b, paths, overfull, c', b');
    }
  }

  lemma KnownFollows(t: Observed, k: string, limits: Limits, b: Budget, paths: seq<Path>, overfull: bool, c': Observed, b': Budget)
    requires k in t.children && Follows(paths, overfull, Nodes(t.children[k]), b, Nodes(c'), b', limits)
    ensures Follows(Under(k, paths), overfull, Nodes(t), b, Graft(Nodes(t), k, Nodes(c')), b', limits)
  {
    hide Nodes, Graft, AdmittedAll, Refuses, Under;
    KnownGraft(t, k);
    AdmittedUnder(Nodes(t), k, Nodes(t.children[k]), limits.maxTotalNodes - b.created, paths);
    RefusesUnder(Nodes(t), k, Nodes(t.children[k]), limits.maxTotalNodes - b.created, paths);
  }

  lemma RefusedFollows(t: Observed, k: string, limits: Limits, b: Budget, paths: seq<Path>, overfull: bool)
    requires k !in t.children && b.created >= limits.maxTotalNodes && paths != [] && paths[0] == []
    ensures Follows(Under(k, paths), overfull, Nodes(t), b, Nodes(t), Mark(b), limits)
  {
    hide Nodes, AdmittedAll, Refuses;
    AdmittedGrows(RoomOf(Nodes(t), b, limits), Under(k, paths));
    RefusesNew(t, k, RoomOf(Nodes(t), b, limits), paths);
  }

  lemma MadeFollows(t: Observed, k: string, limits: Limits, b: Budget, paths: seq<Path>, overfull: bool, c': Observed, b': Budget)
    requires k !in t.children && b.created < limits.maxTotalNodes && paths != [] && paths[0] == []
    requires Follows(paths, overfull, Nodes(Fresh(k, t.tokens + [k])), b.(created := b.created + 1), Nodes(c'), b', limits)
    ensures Follows(Under(k, paths), overfull, Nodes(t), b, Graft(Nodes(t), k, Nodes(c')), b', limits)
  {
    hide Nodes, Graft, AdmittedAll, Refuses, Under;
    NewFollows(t, k, RoomOf(Nodes(t), b, limits), paths);
  }

  lemma KnownGraft(t: Observed, k: string)
    requires k in t.children
    ensures Graft(Nodes(t), k, Nodes(t.children[k])) == Nodes(t)
  {
    hide Nodes, Graft;
    NodesWith(t, k, t.children[k]);
    assert t.children[k := t.children[k]] == t.children;
  }

  /** A child that is made takes one node of the room, and then goes through the paths itself. */
  lemma NewFollows(t: Observed, k: string, room: Room, paths: seq<Path>)
    requires k !in t.children && room.left > 0 && room.nodes == Nodes(t) && paths != [] && paths[0] == []
    ensures var below := Room({[]}, room.left - 1); var r := AdmittedAll(below, paths);
      && Nodes(Fresh(k, t.tokens + [k])) == {[]}
      && AdmittedAll(room, Under(k, paths)) == Room(Graft(Nodes(t), k, r.nodes), r.left)
      && (Refuses(room, Under(k, paths)) <==> Refuses(below, paths))
  {
    hide Nodes, Graft, AdmittedAll, Refuses, Admitted;
    NodesFresh(k, t.tokens + [k]);
    FreshRoom(t, k, room.left);
    FirstAgain(room, Under(k, paths));
    assert Under(k, paths)[0] == [k];
    AdmittedUnder(Nodes(t), k, {[]}, room.left - 1, paths);
    RefusesUnder(Nodes(t), k, {[]}, room.left - 1, paths);
  }

  lemma RefusesNew(t: Observed, k: string, room: Room, paths: seq<Path>)
    requires k !in t.children && room.left <= 0 && room.nodes == Nodes(t) && paths != [] && paths[0] == []
    ensures Refuses(room, Under(k, paths))
  {
    hide Nodes, AdmittedAll;
    AdmittedGrows(room, Under(k, paths));
    NodesHas(t, [k]);
    assert Under(k, paths)[0] == [k];
  }

  lemma FreshRoom(t: Observed, k: string, left: int)
    requires k !in t.children && left > 0
    ensures Admitted(Room(Nodes(t), left), [k]) == Room(Graft(Nodes(t), k, {[]}), left - 1)
  {
    hide Nodes, Graft;
    NodesHas(t, [k]);
    forall p ensures p in Nodes(t) + {[k]} <==> p in Graft(Nodes(t), k, {[]}) {
      NodesHas(t, p);
      GraftHas(Nodes(t), k, {[]}, p);
      if p != [] && p[0] == k {
        var none: set<Path> := {[]};
        assert p[1..] in none <==> p[1..] == [];
        assert p[1..] == [] <==> p == [k];
      }
    }
  }

  /** Asking first for the first path makes no difference. */
  lemma FirstAgain(r: Room, paths: seq<Path>)
    requires paths != []
    ensures AdmittedAll(r, paths) == AdmittedAll(Admitted(r, paths[0]), paths)
    ensures Refuses(r, paths) <==> Refuses(Admitted(r, paths[0]), paths)
  {
    var first, rest := [paths[0]], paths[1..];
    assert paths == first + rest && first[..0] == [];
    assert AdmittedAll(r, first) == Admitted(r, paths[0]);
    assert AdmittedAll(Admitted(r, paths[0]), first) == Admitted(r, paths[0]);
    hide AdmittedAll, Admitted;
    AdmittedAppend(r, first, rest);
    AdmittedAppend(Admitted(r, paths[0]), first, rest);
  }

  // ---- overfull containers, entry by entry -----------------------------------------------------------------------

  /** Among the first `n` entries of a container, one has an overfull container below it. */
  ghost predicate HasOverfullBelow(v: Json, n: nat, depth: int, limits: Limits)
    requires n <= Width(v)
  {
    exists i :: 0 <= i < n && HasOverfull(Entry(v, i), depth + 1, limits)
  }

  lemma OverfullSplits(v: Json, depth: int, limits: Limits)
    ensures HasOverfull(v, depth, limits) <==>
      Overfull(v, depth, limits) || (depth < limits.maxDepth && HasOverfullBelow(v, Looked(v, limits), depth, limits))
  {
    var d := depth + 1;
    if at :| IsOverfull(v, at, depth, limits) {
      if at != [] {
        assert IsOverfull(Entry(v, at[0]), at[1..], d, limits);
      }
    }
    if Overfull(v, depth, limits) {
      assert IsOverfull(v, [], depth, limits);
    }
    if depth < limits.maxDepth {
      if i :| 0 <= i < Looked(v, limits) && HasOverfull(Entry(v, i), d, limits) {
        var rest :| IsOverfull(Entry(v, i), rest, d, limits);
        assert ([i] + rest)[1..] == rest;
        assert IsOverfull(v, [i] + rest, depth, limits);
      }
    }
  }

  lemma OverfullSnoc(v: Json, n: nat, depth: int, limits: Limits)
    requires n < Width(v)
    ensures HasOverfullBelow(v, n + 1, depth, limits)
       <==> HasOverfullBelow(v, n, depth, limits) || HasOverfull(Entry(v, n), depth + 1, limits)
  {
    hide HasOverfull;
    if i :| 0 <= i < n && HasOverfull(Entry(v, i), depth + 1, limits) {
      assert 0 <= i < n + 1;
    }
  }

  // ---- the observer admits every reached position in order ---------------------------------------------------------

  /** All items of an array are shown to one child. */
  function ItemVisits(v: Json, n: nat, depth: int, limits: Limits): seq<Path>
    requires v.Arr? && n <= |v.items|
  {
    if n == 0 then [] else ItemVisits(v, n - 1, depth, limits) + Visits(v.items[n - 1], depth + 1, limits)
  }

  lemma {:induction false} ItemVisitsUnder(v: Json, n: nat, depth: int, limits: Limits)
    requires v.Arr? && n <= |v.items|
    ensures EntryVisits(v, n, depth, limits) == Under(ITEM, ItemVisits(v, n, depth, limits))
    ensures n > 0 ==> ItemVisits(v, n, depth, limits) != [] && ItemVisits(v, n, depth, limits)[0] == []
  {
    hide Visits;
    if n > 0 {
      ItemVisitsUnder(v, n - 1, depth, limits);
    }
  }

  lemma SameNodes(t: Observed, t': Observed)
    requires t.children == t'.children
    ensures Nodes(t) == Nodes(t')
  {
  }

  /** Observing a value admits its reached positions in order, and marks the result exactly if one of its reached
      containers is overfull or one of these positions is refused. */
  lemma {:induction false} ObserveFollows(v: Json, t: Observed, depth: int, limits: Limits, b: Budget)
    ensures var (t', b') := Observe(v, t, depth, limits, b);
      Follows(Visits(v, depth, limits), HasOverfull(v, depth, limits), Nodes(t), b, Nodes(t'), b', limits)
    decreases v, 1, 0
  {
    hide Nodes, Follows, HasOverfull, HasOverfullBelow, ObserveObject, ObserveArray, EntryVisits;
    var t1 := Note(v, t, limits);
    SameNodes(t, t1);
    OverfullSplits(v, depth, limits);
    if !IsContainer(v) {
      ScalarFollows(v, t, depth, limits, b);
    } else if depth >= limits.maxDepth {
      StartFollows(t, true, limits, b);
      assert Visits(v, depth, limits) == [[]];
    } else {
      var wide := Overfull(v, depth, limits);
      var b1 := if wide then Mark(b) else b;
      StartFollows(t, wide, limits, b);
      var n := Looked(v, limits);
      var (t', b') := Observe(v, t, depth, limits, b);
      assert Follows(EntryVisits(v, n, depth, limits), HasOverfullBelow(v, n, depth, limits), Nodes(t), b1, Nodes(t'), b', limits) by {
        if v.Obj? {
          ObjectFollows(v, t1, depth, limits, b);
        } else {
          ArrayFollows(v, t1, depth, limits, b);
        }
      }
      FollowsOn([[]], wide, Nodes(t), b, Nodes(t), b1, EntryVisits(v, n, depth, limits),
                HasOverfullBelow(v, n, depth, limits), Nodes(t'), b', limits);
    }
  }

  /** The position itself has a node; it marks the result if it is overfull. */
  lemma StartFollows(t: Observed, wide: bool, limits: Limits, b: Budget)
    ensures Follows([[]], wide, Nodes(t), b, Nodes(t), if wide then Mark(b) else b, limits)
  {
    hide Nodes, Follows;
    NodesHas(t, []);
    FollowsKnown(Nodes(t), b, limits);
    if wide {
      FollowsOn([[]], false, Nodes(t), b, Nodes(t), b, [], true, Nodes(t), Mark(b), limits);
      var known: seq<Path> := [[]];
      assert known + [] == known;
    }
  }

  lemma ScalarFollows(v: Json, t: Observed, depth: int, limits: Limits, b: Budget)
    requires !IsContainer(v)
    ensures Visits(v, depth, limits) == [[]] && !HasOverfullBelow(v, Looked(v, limits), depth, limits)
    ensures Follows([[]], false, Nodes(t), b, Nodes(t), b, limits)
  {
    hide Nodes, Follows, HasOverfull;
    StartFollows(t, false, limits, b);
  }

  lemma {:induction false} ObjectFollows(v: Json, t: Observed, depth: int, limits: Limits, b: Budget)
    requires v.Obj?
    ensures var (t', b') := ObserveObject(v, t, depth, limits, b);
      var n := Looked(v, limits); var b1 := if |v.fields| > limits.maxObjectChildren then Mark(b) else b;
      Follows(EntryVisits(v, n, depth, limits), HasOverfullBelow(v, n, depth, limits), Nodes(t), b1, Nodes(t'), b', limits)
    decreases v, 0, |v.fields| + 2
  {
    hide Nodes, Follows, HasOverfullBelow, ObserveFields, EntryVisits;
    var b1 := if |v.fields| > limits.maxObjectChildren then Mark(b) else b;
    SameNodes(t, NoteObject(v, t));
    FieldsFollow(v, Looked(v, limits), NoteObject(v, t), depth, limits, b1);
  }

  lemma NothingFollows(v: Json, t: Observed, depth: int, limits: Limits, b: Budget)
    ensures Follows(EntryVisits(v, 0, depth, limits), HasOverfullBelow(v, 0, depth, limits), Nodes(t), b, Nodes(t), b, limits)
  {
    hide Nodes, Follows;
    NodesHas(t, []);
    FollowsKnown(Nodes(t), b, limits);
  }

  lemma {:induction false} FieldsFollow(v: Json, n: nat, t: Observed, depth: int, limits: Limits, b: Budget)
    requires v.Obj? && n <= |v.fields|
    ensures var (t', b') := ObserveFields(v, n, t, depth, limits, b);
      Follows(EntryVisits(v, n, depth, limits), HasOverfullBelow(v, n, depth, limits), Nodes(t), b, Nodes(t'), b', limits)
    decreases v, 0, n + 1
  {
    hide Nodes, Follows, HasOverfullBelow, HasOverfull, ObserveField, Visits;
    if n == 0 {
      NothingFollows(v, t, depth, limits, b);
    } else {
      var m := n - 1;
      FieldsFollow(v, m, t, depth, limits, b);
      var (t1, b1) := ObserveFields(v, m, t, depth, limits, b);
      FieldFollows(v, m, t1, depth, limits, b1);
      var (t2, b2) := ObserveField(v, m, t1, depth, limits, b1);
      OverfullSnoc(v, m, depth, limits);
      FollowsOn(EntryVisits(v, m, depth, limits), HasOverfullBelow(v, m, depth, limits), Nodes(t), b, Nodes(t1), b1,
                Under(Token(v, m), Visits(Entry(v, m), depth + 1, limits)), HasOverfull(Entry(v, m), depth + 1, limits),
                Nodes(t2), b2, limits);
    }
  }

  lemma {:induction false} FieldFollows(v: Json, i: nat, t: Observed, depth: int, limits: Limits, b: Budget)
    requires v.Obj? && i < |v.fields|
    ensures var (t', b') := ObserveField(v, i, t, depth, limits, b); var e := v.fields[i].value;
      Follows(Under(v.fields[i].key, Visits(e, depth + 1, limits)), HasOverfull(e, depth + 1, limits), Nodes(t), b, Nodes(t'), b', limits)
    decreases v, 0, 0
  {
    hide Nodes, Follows, HasOverfull, Visits, Observe;
    var k, e := v.fields[i].key, v.fields[i].value;
    var (child, b1) := Child(t, k, limits, b);
    if child.None? {
      RefusedFollows(t, k, limits, b, Visits(e, depth + 1, limits), HasOverfull(e, depth + 1, limits));
    } else {
      var (c, b2) := Observe(e, child.value, depth + 1, limits, b1);
      ObserveFollows(e, child.value, depth + 1, limits, b1);
      ChildFollows(t, k, limits, b, Visits(e, depth + 1, limits), HasOverfull(e, depth + 1, limits), child.value, b1, c, b2);
      NodesWith(t, k, c);
    }
  }

  lemma {:induction false} ItemsFollow(v: Json, n: nat, c: Observed, depth: int, limits: Limits, b: Budget)
    requires v.Arr? && n <= |v.items|
    ensures var (c', b') := ObserveItems(v, n, c, depth, limits, b);
      Follows(ItemVisits(v, n, depth, limits), HasOverfullBelow(v, n, depth, limits), Nodes(c), b, Nodes(c'), b', limits)
    decreases v, 0, n
  {
    hide Nodes, Follows, HasOverfullBelow, HasOverfull, Observe, Visits;
    if n == 0 {
      NothingFollows(v, c, depth, limits, b);
    } else {
      var m := n - 1;
      ItemsFollow(v, m, c, depth, limits, b);
      var (c1, b1) := ObserveItems(v, m, c, depth, limits, b);
      ObserveFollows(v.items[m], c1, depth + 1, limits, b1);
      var (c2, b2) := Observe(v.items[m], c1, depth + 1, limits, b1);
      OverfullSnoc(v, m, depth, limits);
      FollowsOn(ItemVisits(v, m, depth, limits), HasOverfullBelow(v, m, depth, limits), Nodes(c), b, Nodes(c1), b1,
                Visits(v.items[m], depth + 1, limits), HasOverfull(v.items[m], depth + 1, limits), Nodes(c2), b2, limits);
    }
  }

  lemma {:induction false} ArrayFollows(v: Json, t: Observed, depth: int, limits: Limits, b: Budget)
    requires v.Arr?
    ensures var (t', b') := ObserveArray(v, t, depth, limits, b);
      var n := Looked(v, limits); var b1 := if |v.items| > limits.maxArrayItems then Mark(b) else b;
      Follows(EntryVisits(v, n, depth, limits), HasOverfullBelow(v, n, depth, limits), Nodes(t), b1, Nodes(t'), b', limits)
    decreases v, 0, |v.items| + 2
  {
    hide Nodes, Follows, HasOverfullBelow, ObserveItems, EntryVisits, ItemVisits, Under;
    var n, b1 := Looked(v, limits), if |v.items| > limits.maxArrayItems then Mark(b) else b;
    var t2 := NoteArray(v, t, n);
    SameNodes(t, t2);
    if n == 0 {
      NothingFollows(v, t, depth, limits, b1);
    } else {
      ItemVisitsUnder(v, n, depth, limits);
      var (child, b2) := Child(t2, ITEM, limits, b1);
      var overfull := HasOverfullBelow(v, n, depth, limits);
      if child.None? {
        RefusedFollows(t2, ITEM, limits, b1, ItemVisits(v, n, depth, limits), overfull);
      } else {
        var (c, b3) := ObserveItems(v, n, child.value, depth, limits, b2);
        ItemsFollow(v, n, child.value, depth, limits, b2);
        ChildFollows(t2, ITEM, limits, b1, ItemVisits(v, n, depth, limits), overfull, child.value, b2, c, b3);
        NodesWith(t2, ITEM, c);
      }
    }
  }

  // ---- theorems -------------------------------------------------------------------------------------------------------

  /** The paths that had no node before. */
  function Others(paths: seq<Path>, nodes: set<Path>): set<Path> {
    Distinct(paths) - nodes
  }

  lemma OthersSnoc(paths: seq<Path>, nodes: set<Path>)
    requires paths != []
    ensures var before, last := Others(paths[..|paths| - 1], nodes), paths[|paths| - 1];
      if last in nodes || last in before then Others(paths, nodes) == before
      else Others(paths, nodes) == before + {last} && |Others(paths, nodes)| == |before| + 1
  {
    assert paths == paths[..|paths| - 1] + [paths[|paths| - 1]];
  }

  /** With room for `left` more, those get a node that have one, and the first `left` others. */
  lemma {:induction false} AdmittedCount(r: Room, paths: seq<Path>)
    requires r.left >= 0
    ensures var others := Others(paths, r.nodes); var r' := AdmittedAll(r, paths);
      if |others| <= r.left then r' == Room(r.nodes + others, r.left - |others|) else r'.left == 0
  {
    hide Others, Distinct;
    if paths == [] {
      assert Others([], r.nodes) == {} by { OthersNone(r.nodes); }
    } else {
      AdmittedCount(r, paths[..|paths| - 1]);
      OthersSnoc(paths, r.nodes);
    }
  }

  lemma OthersNone(nodes: set<Path>)
    ensures Others([], nodes) == {}
  {
  }

  /** Nobody is refused exactly if there is room for all. */
  lemma RefusesExactly(r: Room, paths: seq<Path>)
    requires r.left >= 0
    ensures Refuses(r, paths) <==> |Others(paths, r.nodes)| > r.left
  {
    hide AdmittedAll;
    AdmittedCount(r, paths);
    AdmittedGrows(r, paths);
    AdmittedSize(r, paths);
    if !Refuses(r, paths) {
      assert Distinct(paths) - r.nodes <= AdmittedAll(r, paths).nodes - r.nodes;
      Text.SubsetSize(Distinct(paths) - r.nodes, AdmittedAll(r, paths).nodes - r.nodes);
    }
  }

  lemma {:induction false} AdmittedSize(r: Room, paths: seq<Path>)
    requires r.left >= 0
    ensures var r' := AdmittedAll(r, paths); |r'.nodes - r.nodes| == r.left - r'.left && r'.left >= 0
  {
    if paths != [] {
      AdmittedSize(r, paths[..|paths| - 1]);
      AdmittedGrows(r, paths[..|paths| - 1]);
      var r1, last := AdmittedAll(r, paths[..|paths| - 1]), paths[|paths| - 1];
      if last !in r1.nodes {
        assert (r1.nodes + {last}) - r.nodes == (r1.nodes - r.nodes) + {last};
      }
    } else {
      assert r.nodes - r.nodes == {};
    }
  }

  /** The paths of all reached positions of a document. */
  function Paths(v: Json, limits: Limits): set<Path> {
    Distinct(Visits(v, 0, limits))
  }

  /** A document exceeds its limits: a reached container is too deep or too wide, or the reached positions have more
      different paths than nodes may be made. The root is made in any case. */
  ghost predicate Exceeds(v: Json, limits: Limits) {
    || HasOverfull(v, 0, limits)
    || |Paths(v, limits)| > AtLeastOne(limits.maxTotalNodes)
  }

  function AtLeastOne(n: int): nat {
    if n >= 1 then n else 1
  }

  lemma RootRoom(v: Json, limits: Limits)
    ensures Nodes(Root()) == {[]} && [] in Paths(v, limits)
    ensures |Paths(v, limits) - {[]}| == |Paths(v, limits)| - 1
  {
    NodesFresh("$", []);
    assert Visits(v, 0, limits)[0] in Visits(v, 0, limits);
  }

  /** With no room at all, the same happens as with none. */
  lemma FullRoom(nodes: set<Path>, left: int, paths: seq<Path>)
    requires left <= 0
    ensures AdmittedAll(Room(nodes, left), paths).nodes == AdmittedAll(Room(nodes, 0), paths).nodes
    ensures Refuses(Room(nodes, left), paths) <==> Refuses(Room(nodes, 0), paths)
  {
    hide AdmittedAll;
    AdmittedGrows(Room(nodes, left), paths);
    AdmittedGrows(Room(nodes, 0), paths);
  }

  /** The result says that it was truncated exactly if the document exceeds its limits. */
  lemma TruncatedExactly(v: Json, limits: Limits)
    ensures ObserveRoot(v, limits).1.truncated <==> Exceeds(v, limits)
  {
    hide Nodes, Observe, HasOverfull, AdmittedAll, Refuses, Paths;
    ObserveFollows(v, Root(), 0, limits, Budget(1, false));
    RootRoom(v, limits);
    var paths, left := Visits(v, 0, limits), limits.maxTotalNodes - 1;
    assert Paths(v, limits) == Distinct(paths) by { PathsAre(v, limits); }
    if left <= 0 {
      FullRoom({[]}, left, paths);
      RefusesExactly(Room({[]}, 0), paths);
    } else {
      RefusesExactly(Room({[]}, left), paths);
    }
  }

  lemma PathsAre(v: Json, limits: Limits)
    ensures Paths(v, limits) == Distinct(Visits(v, 0, limits))
  {
  }

  lemma {:induction false} AdmittedEarly(r: Room, paths: seq<Path>, p: Path)
    requires r.left >= 0 && p !in r.nodes
    ensures p in AdmittedAll(r, paths).nodes <==> exists i :: EarlyIn(paths, i, p, r)
  {
    hide EarlyIn;
    if paths == [] {
      forall i ensures !EarlyIn(paths, i, p, r) { EarlySnoc(paths, i, p, r); }
    } else {
      var n := |paths| - 1;
      var init := paths[..n];
      AdmittedEarly(r, init, p);
      AdmittedCount(r, init);
      forall i ensures EarlyIn(paths, i, p, r) <==> EarlyIn(init, i, p, r) || (i == n && paths[n] == p && |Others(init, r.nodes)| < r.left) {
        EarlySnoc(paths, i, p, r);
      }
      LastEarly(r, paths, p);
      if i :| EarlyIn(init, i, p, r) {
        assert EarlyIn(paths, i, p, r);
      }
      assert paths[n] == p && |Others(init, r.nodes)| < r.left ==> EarlyIn(paths, n, p, r);
    }
  }

  /** `p` is at index `i`, and fewer than `left` others come before it. */
  ghost predicate EarlyIn(paths: seq<Path>, i: int, p: Path, r: Room) {
    0 <= i < |paths| && paths[i] == p && |Others(paths[..i], r.nodes)| < r.left
  }

  lemma EarlySnoc(paths: seq<Path>, i: int, p: Path, r: Room)
    ensures paths == [] ==> !EarlyIn(paths, i, p, r)
    ensures paths != [] ==> var n := |paths| - 1;
      EarlyIn(paths, i, p, r) <==> EarlyIn(paths[..n], i, p, r) || (i == n && paths[n] == p && |Others(paths[..n], r.nodes)| < r.left)
  {
    if 0 <= i < |paths| - 1 {
      assert paths[..|paths| - 1][..i] == paths[..i];
    }
  }

  lemma LastEarly(r: Room, paths: seq<Path>, p: Path)
    requires r.left >= 0 && p !in r.nodes && paths != []
    ensures var n := |paths| - 1; var r1 := AdmittedAll(r, paths[..n]);
      p in AdmittedAll(r, paths).nodes <==> p in r1.nodes || (paths[n] == p && |Others(paths[..n], r.nodes)| < r.left)
  {
    hide Others;
    var n := |paths| - 1;
    var r1 := AdmittedAll(r, paths[..n]);
    AdmittedCount(r, paths[..n]);
    AdmittedSize(r, paths[..n]);
  }

  /** The position at index `i` is among the first `n` different ones. */
  predicate Early(paths: seq<Path>, i: nat, n: int)
    requires i < |paths|
  {
    |Distinct(paths[..i])| < n
  }

  ghost predicate IsEarly(paths: seq<Path>, i: int, p: Path, n: int) {
    0 <= i < |paths| && paths[i] == p && Early(paths, i, n)
  }

  /** A path has a node exactly if it is the root, or a position with it is reached before `maxTotalNodes` other paths
      were: whatever else is truncated, a container less deep than `maxDepth` is taken apart as long as there is room. */
  lemma NodesExactly(v: Json, limits: Limits, p: Path)
    ensures p in Nodes(ObserveRoot(v, limits).0) <==>
      p == [] || exists i :: IsEarly(Visits(v, 0, limits), i, p, limits.maxTotalNodes)
  {
    hide Nodes, Observe, HasOverfull, AdmittedAll, Refuses;
    ObserveFollows(v, Root(), 0, limits, Budget(1, false));
    RootRoom(v, limits);
    var paths, left := Visits(v, 0, limits), limits.maxTotalNodes - 1;
    AdmittedGrows(Room({[]}, left), paths);
    if p != [] {
      forall i | left >= 0 ensures EarlyIn(paths, i, p, Room({[]}, left)) <==> IsEarly(paths, i, p, limits.maxTotalNodes) {
        EarlyRoot(paths, i, p, left);
      }
      if left >= 0 {
        AdmittedEarly(Room({[]}, left), paths, p);
      }
    }
  }

  lemma EarlyRoot(paths: seq<Path>, i: int, p: Path, left: int)
    requires paths != [] && paths[0] == [] && p != []
    ensures EarlyIn(paths, i, p, Room({[]}, left)) <==> IsEarly(paths, i, p, left + 1)
  {
    if 0 < i < |paths| {
      assert paths[..i][0] == [];
      assert Distinct(paths[..i]) == Others(paths[..i], {[]}) + {[]};
    }
  }
}
