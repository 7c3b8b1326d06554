/** The migration graph validator: depth-first cycle detection with an explicit active path, and
    the single-base and single-head checks (scripts/.pre_commit/check_migration_revisions.py). */
module RevisionGraph {
  import opened Options

  datatype RevisionInfo = RevisionInfo(path: string, revision: string, down: seq<string>, dependencies: seq<string>)

  type Revisions = map<string, RevisionInfo>

  /** `(*info.down_revisions, *info.dependencies)`. */
  function Parents(rs: Revisions, r: string): seq<string>
    requires r in rs
  {
    rs[r].down + rs[r].dependencies
  }

  /** An edge is a parent or a dependency. */
  lemma EdgeExactly(rs: Revisions, a: string, b: string)
    ensures Edge(rs, a, b) <==> a in rs && (b in rs[a].down || b in rs[a].dependencies)
  {
  }

  ghost predicate KnownReferences(rs: Revisions) {
    forall r, t :: r in rs && t in Parents(rs, r) ==> t in rs
  }

  ghost predicate Edge(rs: Revisions, a: string, b: string) {
    a in rs && b in Parents(rs, a)
  }

  ghost predicate IsPath(rs: Revisions, p: seq<string>) {
    && p != []
    && (forall i :: 0 <= i < |p| ==> p[i] in rs)
    && forall i :: 0 <= i < |p| - 1 ==> Edge(rs, p[i], p[i + 1])
  }

  /** A closed walk through at least one edge. */
  ghost predicate IsCycle(rs: Revisions, p: seq<string>) {
    IsPath(rs, p) && |p| >= 2 && p[0] == p[|p| - 1]
  }

  ghost predicate Acyclic(rs: Revisions) {
    forall p :: !IsCycle(rs, p)
  }

  // ---- depth-first search ------------------------------------------------------------------

  ghost predicate ClosedUnderParents(rs: Revisions, done: set<string>) {
    done <= rs.Keys && forall r, t :: r in done && t in Parents(rs, r) ==> t in done
  }

  ghost predicate Inside(p: seq<string>, done: set<string>) {
    forall i :: 0 <= i < |p| ==> p[i] in done
  }

  ghost predicate CycleFree(rs: Revisions, done: set<string>) {
    forall p :: IsCycle(rs, p) ==> !Inside(p, done)
  }

  lemma {:induction false} WalksStayInside(rs: Revisions, done: set<string>, p: seq<string>, i: nat, j: nat)
    requires ClosedUnderParents(rs, done) && IsPath(rs, p) && i <= j < |p| && p[i] in done
    ensures p[j] in done
    decreases j
  {
    if i < j {
      WalksStayInside(rs, done, p, i, j - 1);
      assert Edge(rs, p[j - 1], p[j]);
    }
  }

  /** A vertex whose parents are all finished can be finished too: no cycle runs through it. */
  lemma FinishVertex(rs: Revisions, done: set<string>, r: string)
    requires KnownReferences(rs) && ClosedUnderParents(rs, done) && CycleFree(rs, done)
    requires r in rs && r !in done && forall t :: t in Parents(rs, r) ==> t in done
    ensures ClosedUnderParents(rs, done + {r}) && CycleFree(rs, done + {r})
  {
    forall p | IsCycle(rs, p) ensures !Inside(p, done + {r}) {
      var k :| 0 <= k < |p| && p[k] !in done;
      if p[k] == r {
        var i, last := if k == |p| - 1 then 0 else k, |p| - 1;
        assert Edge(rs, p[i], p[i + 1]);
        WalksStayInside(rs, done, p, i + 1, last);
        WalksStayInside(rs, done, p, 0, i);
        assert false;
      }
    }
  }

  function Elements(s: seq<string>): set<string> {
    set x | x in s
  }

  class CycleFinder {
    const revisions: Revisions
    var visited: set<string>
    var active: seq<string>
    var activeSet: set<string>

    constructor (revisions: Revisions)
      requires KnownReferences(revisions)
      ensures this.revisions == revisions && Valid() && active == [] && visited == {}
    {
      this.revisions := revisions;
      visited, active, activeSet := {}, [], {};
    }

    ghost predicate Valid()
      reads this
    {
      && KnownReferences(revisions)
      && activeSet == Elements(active)
      && (forall i, j :: 0 <= i < j < |active| ==> active[i] != active[j])
      && (active != [] ==> IsPath(revisions, active))
      && visited !! activeSet
      && ClosedUnderParents(revisions, visited)
      && CycleFree(revisions, visited)
    }

    /** `visit`: finishes everything above a revision, or returns a closed walk. */
    method Visit(revision: string) returns (cycle: Option<seq<string>>)
      requires Valid() && revision in revisions
      requires active != [] ==> Edge(revisions, active[|active| - 1], revision)
      modifies this
      ensures cycle.Some? ==> IsCycle(revisions, cycle.value)
      ensures cycle.None? ==>
        Valid() && active == old(active) && old(visited) <= visited && revision in visited
      decreases revisions.Keys - activeSet
    {
      if revision in activeSet {
        var start := IndexOf(revision);
        cycle := Some(active[start..] + [revision]);
        return;
      }
      if revision in visited {
        return None;
      }
      ghost var path := active;
      active := active + [revision];
      activeSet := activeSet + {revision};
      var parents := Parents(revisions, revision);
      for i := 0 to |parents|
        invariant Valid() && active == path + [revision] && old(visited) <= visited
        invariant forall j :: 0 <= j < i ==> parents[j] in visited
      {
        assert parents[i] in parents;
        assert activeSet == Elements(path) + {revision};
        var found := Visit(parents[i]);
        if found.Some? {
          return found;
        }
      }
      FinishVertex(revisions, visited, revision);
      active := active[..|active| - 1];
      activeSet := activeSet - {revision};
      visited := visited + {revision};
      assert active == path;
      return None;
    }

    /** `active.index(revision)`. */
    method IndexOf(revision: string) returns (start: nat)
      requires revision in active
      ensures start < |active| && active[start] == revision
    {
      start := 0;
      while active[start] != revision
        invariant start < |active| && revision in active[start..]
        decreases |active| - start
      {
        start := start + 1;
      }
    }
  }

  /** `_find_cycle`, for any order of the outer loop: it finds a genuine closed walk of the graph
      unless there is none. */
  method FindCycle(revisions: Revisions, order: seq<string>) returns (cycle: Option<seq<string>>)
    requires KnownReferences(revisions) && Elements(order) == revisions.Keys
    ensures cycle.Some? ==> IsCycle(revisions, cycle.value)
    ensures cycle.None? <==> Acyclic(revisions)
  {
    var finder := new CycleFinder(revisions);
    for i := 0 to |order|
      invariant fresh(finder) && finder.revisions == revisions && finder.Valid() && finder.active == []
      invariant forall j :: 0 <= j < i ==> order[j] in finder.visited
    {
      assert order[i] in Elements(order);
      cycle := finder.Visit(order[i]);
      if cycle.Some? {
        return;
      }
    }
    assert finder.visited == revisions.Keys by {
      forall r | r in revisions ensures r in finder.visited {
        assert r in Elements(order);
      }
    }
    assert forall p :: IsPath(revisions, p) ==> Inside(p, finder.visited);
    return None;
  }

  // ---- validation --------------------------------------------------------------------------------

  datatype Outcome =
    | Accepted(base: string, head: string)
    | NoFiles
    | DuplicateRevision(revision: string)
    | BadReference(revision: string, target: string)
    | CycleFound(cycle: seq<string>)
    | WrongBases(bases: set<string>)
    | WrongHeads(heads: set<string>)

  ghost predicate Distinct(infos: seq<RevisionInfo>) {
    forall i, j :: 0 <= i < j < |infos| ==> infos[i].revision != infos[j].revision
  }

  /** `{info.revision: info for info in infos}`. */
  function ByRevision(infos: seq<RevisionInfo>): Revisions {
    if infos == [] then map[]
    else ByRevision(infos[..|infos| - 1])[infos[|infos| - 1].revision := infos[|infos| - 1]]
  }

  lemma {:induction false} ByRevisionIs(infos: seq<RevisionInfo>)
    requires Distinct(infos)
    ensures forall i :: 0 <= i < |infos| ==>
      infos[i].revision in ByRevision(infos) && ByRevision(infos)[infos[i].revision] == infos[i]
    ensures forall r :: r in ByRevision(infos) ==>
      exists i :: 0 <= i < |infos| && infos[i].revision == r
    ensures forall r :: r in ByRevision(infos) ==> ByRevision(infos)[r].revision == r
  {
    if infos != [] {
      var init := infos[..|infos| - 1];
      ByRevisionIs(init);
      forall i | 0 <= i < |infos|
        ensures infos[i].revision in ByRevision(infos) && ByRevision(infos)[infos[i].revision] == infos[i]
      {
        if i < |init| { assert init[i] == infos[i]; }
      }
      forall r | r in ByRevision(infos) ensures exists i :: 0 <= i < |infos| && infos[i].revision == r {
        if r in ByRevision(init) {
          var i :| 0 <= i < |init| && init[i].revision == r;
          assert infos[i].revision == r;
        } else {
          assert infos[|infos| - 1].revision == r;
        }
      }
    }
  }

  ghost predicate GoodReferences(rs: Revisions) {
    forall r, t :: r in rs && t in Parents(rs, r) ==> t != r && t in rs
  }

  function Bases(rs: Revisions): set<string> {
    set r | r in rs && rs[r].down == []
  }

  /** `known_revisions - referenced_as_parent`. */
  ghost function Heads(rs: Revisions): set<string> {
    set r | r in rs && !ReferencedAsParent(rs, r)
  }

  ghost predicate ReferencedAsParent(rs: Revisions, r: string) {
    exists child :: child in rs && r in rs[child].down
  }

  /** Everything the validator demands. */
  ghost predicate WellFormedGraph(rs: Revisions, base: string, head: string) {
    rs != map[] && GoodReferences(rs) && Acyclic(rs) && Bases(rs) == {base} && Heads(rs) == {head}
  }

  // ---- local checks make the graph connected through its ends -------------------------------------

  /** A walk along `down_revision` only. */
  ghost predicate IsDownPath(rs: Revisions, p: seq<string>) {
    && p != []
    && (forall i :: 0 <= i < |p| ==> p[i] in rs)
    && forall i :: 0 <= i < |p| - 1 ==> p[i + 1] in rs[p[i]].down
  }

  ghost predicate Descends(rs: Revisions, a: string, b: string) {
    exists p :: IsDownPath(rs, p) && p[0] == a && p[|p| - 1] == b
  }

  lemma DownPathIsPath(rs: Revisions, p: seq<string>)
    requires IsDownPath(rs, p)
    ensures IsPath(rs, p)
  {
    forall i | 0 <= i < |p| - 1 ensures Edge(rs, p[i], p[i + 1]) {
      assert p[i + 1] in rs[p[i]].down + rs[p[i]].dependencies;
    }
  }

  lemma {:induction false} DistinctFits(p: seq<string>, s: set<string>)
    requires forall i, j :: 0 <= i < j < |p| ==> p[i] != p[j]
    requires forall i :: 0 <= i < |p| ==> p[i] in s
    ensures |p| <= |s|
  {
    if p != [] {
      var n := |p| - 1;
      assert |s - {p[n]}| == |s| - 1;
      DistinctFits(p[..n], s - {p[n]});
    }
  }

  /** Without cycles a walk never repeats a vertex, so it is no longer than the graph is large. */
  lemma WalksAreShort(rs: Revisions, p: seq<string>)
    requires Acyclic(rs) && IsDownPath(rs, p)
    ensures |p| <= |rs|
  {
    DownPathIsPath(rs, p);
    forall i, j | 0 <= i < j < |p| ensures p[i] != p[j] {
      var part := p[i..j + 1];
      assert IsPath(rs, part) by {
        forall k | 0 <= k < |part| - 1 ensures Edge(rs, part[k], part[k + 1]) {
          assert part[k] == p[i + k] && part[k + 1] == p[i + k + 1];
        }
      }
      assert !IsCycle(rs, part);
    }
    DistinctFits(p, rs.Keys);
    assert |rs| == |rs.Keys|;
  }

  lemma {:induction false} DescendToBase(rs: Revisions, base: string, head: string, p: seq<string>)
    requires WellFormedGraph(rs, base, head) && IsDownPath(rs, p)
    ensures Descends(rs, p[0], base)
    decreases |rs| - |p|
  {
    WalksAreShort(rs, p);
    var last := p[|p| - 1];
    if last != base {
      assert last !in Bases(rs);
      var next := rs[last].down[0];
      assert next in Parents(rs, last);
      var longer := p + [next];
      assert IsDownPath(rs, longer);
      WalksAreShort(rs, longer);
      DescendToBase(rs, base, head, longer);
    }
  }

  lemma {:induction false} ClimbToHead(rs: Revisions, base: string, head: string, p: seq<string>)
    requires WellFormedGraph(rs, base, head) && IsDownPath(rs, p)
    ensures Descends(rs, head, p[|p| - 1])
    decreases |rs| - |p|
  {
    WalksAreShort(rs, p);
    if p[0] != head {
      assert p[0] !in Heads(rs);
      var child :| child in rs && p[0] in rs[child].down;
      var longer := [child] + p;
      assert IsDownPath(rs, longer) by {
        forall i | 0 <= i < |longer| - 1 ensures longer[i + 1] in rs[longer[i]].down {
          if i > 0 { assert longer[i] == p[i - 1] && longer[i + 1] == p[i]; }
        }
      }
      WalksAreShort(rs, longer);
      ClimbToHead(rs, base, head, longer);
    }
  }

  /** Although only degrees and acyclicity are checked, every revision of an accepted graph lies
      on a chain of `down_revision` links from the head to the base. */
  lemma ConnectedThroughEnds(rs: Revisions, base: string, head: string, r: string)
    requires WellFormedGraph(rs, base, head) && r in rs
    ensures Descends(rs, head, r) && Descends(rs, r, base)
  {
    assert IsDownPath(rs, [r]);
    DescendToBase(rs, base, head, [r]);
    ClimbToHead(rs, base, head, [r]);
  }

  // ---- the validator ----------------------------------------------------------------------------------

  method FindDuplicate(infos: seq<RevisionInfo>) returns (duplicate: Option<string>)
    ensures duplicate.None? <==> Distinct(infos)
  {
    var seen: set<string> := {};
    for i := 0 to |infos|
      invariant seen == set j | 0 <= j < i :: infos[j].revision
      invariant Distinct(infos[..i])
    {
      if infos[i].revision in seen {
        var j :| 0 <= j < i && infos[j].revision == infos[i].revision;
        assert !Distinct(infos);
        return Some(infos[i].revision);
      }
      seen := seen + {infos[i].revision};
    }
    assert infos[..|infos|] == infos;
    return None;
  }

  ghost predicate GoodReferencesOf(info: RevisionInfo, known: set<string>) {
    forall t :: t in info.down + info.dependencies ==> t != info.revision && t in known
  }

  /** The nested loops over references: a self-reference or an unknown target is reported. */
  method FindBadReference(infos: seq<RevisionInfo>, known: set<string>) returns (bad: Option<(string, string)>)
    ensures bad.None? <==> forall i :: 0 <= i < |infos| ==> GoodReferencesOf(infos[i], known)
  {
    for i := 0 to |infos|
      invariant forall k :: 0 <= k < i ==> GoodReferencesOf(infos[k], known)
    {
      var targets := infos[i].down + infos[i].dependencies;
      for j := 0 to |targets|
        invariant forall k :: 0 <= k < j ==> targets[k] != infos[i].revision && targets[k] in known
      {
        if targets[j] == infos[i].revision || targets[j] !in known {
          assert targets[j] in targets;
          assert !GoodReferencesOf(infos[i], known);
          return Some((infos[i].revision, targets[j]));
        }
      }
      assert GoodReferencesOf(infos[i], known);
    }
    return None;
  }

  lemma ReferencesAgree(infos: seq<RevisionInfo>)
    requires Distinct(infos)
    ensures (forall i :: 0 <= i < |infos| ==> GoodReferencesOf(infos[i], ByRevision(infos).Keys))
       <==> GoodReferences(ByRevision(infos))
  {
    ByRevisionIs(infos);
    var rs := ByRevision(infos);
    if GoodReferences(rs) {
      forall i | 0 <= i < |infos| ensures GoodReferencesOf(infos[i], rs.Keys) {
        forall t | t in infos[i].down + infos[i].dependencies ensures t != infos[i].revision && t in rs {
          assert t in Parents(rs, infos[i].revision);
        }
      }
    } else {
      var r, t :| r in rs && t in Parents(rs, r) && !(t != r && t in rs);
      var i :| 0 <= i < |infos| && infos[i].revision == r;
      assert t in infos[i].down + infos[i].dependencies;
      assert !GoodReferencesOf(infos[i], rs.Keys);
    }
  }

  method ParentReferences(infos: seq<RevisionInfo>) returns (referenced: set<string>)
    ensures forall r :: r in referenced <==> exists i :: 0 <= i < |infos| && r in infos[i].down
  {
    referenced := {};
    for i := 0 to |infos|
      invariant forall r :: r in referenced <==> exists k :: 0 <= k < i && r in infos[k].down
    {
      referenced := referenced + Elements(infos[i].down);
    }
  }

  lemma HeadsAgree(infos: seq<RevisionInfo>, referenced: set<string>)
    requires Distinct(infos)
    requires forall r :: r in referenced <==> exists i :: 0 <= i < |infos| && r in infos[i].down
    ensures ByRevision(infos).Keys - referenced == Heads(ByRevision(infos))
  {
    ByRevisionIs(infos);
    var rs := ByRevision(infos);
    forall r ensures r in referenced <==> ReferencedAsParent(rs, r) {
      if r in referenced {
        var i :| 0 <= i < |infos| && r in infos[i].down;
        assert infos[i].revision in rs && r in rs[infos[i].revision].down;
      }
      if ReferencedAsParent(rs, r) {
        var child :| child in rs && r in rs[child].down;
        var i :| 0 <= i < |infos| && infos[i].revision == child;
        assert r in infos[i].down;
      }
    }
  }

  lemma SingletonOf(s: set<string>, x: string)
    requires |s| == 1 && x in s
    ensures s == {x}
  {
    assert |s - {x}| == 0;
  }

  /** `validate_migration_graph` after the files are read. Each outcome is reported exactly when
      its own check is the first to fail; an accepted graph is well formed and connected. */
  method Validate(infos: seq<RevisionInfo>, order: seq<string>) returns (o: Outcome)
    requires Elements(order) == ByRevision(infos).Keys
    ensures o.NoFiles? <==> infos == []
    ensures o.DuplicateRevision? <==> !Distinct(infos)
    ensures infos != [] && Distinct(infos) ==>
      var rs := ByRevision(infos);
      && (o.BadReference? <==> !GoodReferences(rs))
      && (o.CycleFound? <==> GoodReferences(rs) && !Acyclic(rs))
      && (o.CycleFound? ==> IsCycle(rs, o.cycle))
      && (o.WrongBases? <==> GoodReferences(rs) && Acyclic(rs) && |Bases(rs)| != 1)
      && (o.WrongHeads? <==> GoodReferences(rs) && Acyclic(rs) && |Bases(rs)| == 1 && |Heads(rs)| != 1)
      && (o.Accepted? ==> WellFormedGraph(rs, o.base, o.head))
      && (o.Accepted? ==> forall r :: r in rs ==> Descends(rs, o.head, r) && Descends(rs, r, o.base))
  {
    if infos == [] {
      return NoFiles;
    }
    var duplicate := FindDuplicate(infos);
    if duplicate.Some? {
      return DuplicateRevision(duplicate.value);
    }
    var rs := ByRevision(infos);
    ByRevisionIs(infos);
    ReferencesAgree(infos);
    var bad := FindBadReference(infos, rs.Keys);
    if bad.Some? {
      return BadReference(bad.value.0, bad.value.1);
    }
    var cycle := FindCycle(rs, order);
    if cycle.Some? {
      return CycleFound(cycle.value);
    }
    var bases := Bases(rs);
    if |bases| != 1 {
      return WrongBases(bases);
    }
    var referenced := ParentReferences(infos);
    HeadsAgree(infos, referenced);
    var heads := rs.Keys - referenced;
    if |heads| != 1 {
      return WrongHeads(heads);
    }
    var base :| base in bases;
    var head :| head in heads;
    SingletonOf(bases, base);
    SingletonOf(heads, head);
    o := Accepted(base, head);
    forall r | r in rs ensures Descends(rs, head, r) && Descends(rs, r, base) {
      ConnectedThroughEnds(rs, base, head, r);
    }
  }
}
