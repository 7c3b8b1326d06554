/** What an import, a definition or an assignment of a module makes importable from it, from its statements to the end
    of the re-export chain (scripts/analysis/extension_imports_check.py:183-346). */
module ExportMeaning {
  import opened ExportIndex
  import opened ModuleExports
  import opened Options
  import opened Text

  // ---- what a module runs ------------------------------------------------------------------------------

  /** The simple statements that run when the module is imported, in order: branches for type checkers are left out,
      both branches of any other test are taken, and so are all blocks of a compound statement. */
  function Running(ss: seq<Statement>): seq<Statement>
    decreases ss, 0
  {
    if ss == [] then [] else Running(ss[..|ss| - 1]) + RunningOf(ss[|ss| - 1])
  }

  function RunningOf(s: Statement): seq<Statement>
    decreases s, 1
  {
    match s
    case If(test, body, orelse) =>
      (if TypeChecking(test) == Some(true) then [] else Running(body))
      + (if TypeChecking(test) == Some(false) then [] else Running(orelse))
    case Blocks(blocks) => RunningBlocks(blocks)
    case _ => [s]
  }

  function RunningBlocks(blocks: seq<Block>): seq<Statement>
    decreases blocks, 0
  {
    if blocks == [] then [] else RunningBlocks(blocks[..|blocks| - 1]) + Running(blocks[|blocks| - 1].statements)
  }

  predicate Renamed(i: Imported) {
    i.asname.Some? && i.asname.value != ""
  }

  /** The local name of `import a.b` is `a`; that of `import a.b as c` is `c`. */
  predicate ImportsAs(i: Imported, local: string) {
    if Renamed(i) then i.asname.value == local else Split(i.name, '.')[0] == local
  }

  /** The local name of `from m import n` is `n`; that of `from m import n as l` is `l`; a star gives none. */
  predicate TakesAs(i: Imported, local: string) {
    i.name != "*" && if Renamed(i) then i.asname.value == local else i.name == local
  }

  /** The statement gives `local` a value. */
  ghost predicate Introduces(s: Statement, local: string) {
    match s
    case DefineClass(name) => name == local
    case DefineFunction(name, _, _) => name == local
    case Import(names) => exists i :: 0 <= i < |names| && ImportsAs(names[i], local)
    case ImportFrom(_, _, names) => exists i :: 0 <= i < |names| && TakesAs(names[i], local)
    case Assign(targets) => local in AllTargetNames(targets)
    case _ => false
  }

  /** Statement `j` of those that run is the last to give `local` a value. */
  ghost predicate IsLastBinder(ss: seq<Statement>, j: nat, local: string) {
    && j < |Running(ss)| && Introduces(Running(ss)[j], local)
    && forall k :: j < k < |Running(ss)| ==> !Introduces(Running(ss)[k], local)
  }

  /** A `__getattr__` of the module answers to the name. */
  predicate Answers(s: Statement, local: string) {
    s.DefineFunction? && s.name == "__getattr__" && local in AnsweredNames(s.arguments, s.comparisons)
  }

  ghost predicate AnswersAny(ss: seq<Statement>, local: string) {
    exists s :: s in Running(ss) && Answers(s, local)
  }

  // ---- the collected dictionary ------------------------------------------------------------------------------

  /** How a list of bindings leaves a name. */
  function LastOf(binds: seq<Bind>, local: string): Option<Binding> {
    if binds == [] then None
    else if binds[|binds| - 1].name == local then Some(binds[|binds| - 1].binding)
    else LastOf(binds[..|binds| - 1], local)
  }

  lemma {:induction false} BoundLast(exports: map<string, Binding>, binds: seq<Bind>, local: string)
    ensures var r, last := Bound(exports, binds), LastOf(binds, local);
      if last.Some? then local in r && r[local] == last.value
      else (local in r <==> local in exports) && (local in r ==> r[local] == exports[local])
  {
    if binds != [] {
      BoundLast(exports, binds[..|binds| - 1], local);
    }
  }

  lemma {:induction false} LastAppend(a: seq<Bind>, b: seq<Bind>, local: string)
    ensures LastOf(a + b, local) == if LastOf(b, local).Some? then LastOf(b, local) else LastOf(a, local)
  {
    if b == [] {
      assert a + b == a;
    } else {
      LastAppend(a, b[..|b| - 1], local);
      assert (a + b)[..|a + b| - 1] == a + b[..|b| - 1];
    }
  }

  function AllBinds(at: Reader, leaves: seq<Statement>): seq<Bind> {
    if leaves == [] then [] else AllBinds(at, leaves[..|leaves| - 1]) + BindsOf(at, leaves[|leaves| - 1])
  }

  lemma {:induction false} AllBindsAppend(at: Reader, a: seq<Statement>, b: seq<Statement>)
    ensures AllBinds(at, a + b) == AllBinds(at, a) + AllBinds(at, b)
  {
    hide BindsOf;
    if b == [] {
      assert a + b == a;
    } else {
      AllBindsAppend(at, a, b[..|b| - 1]);
      assert (a + b)[..|a + b| - 1] == a + b[..|b| - 1];
    }
  }

  lemma {:induction false} BindsRun(at: Reader, ss: seq<Statement>)
    ensures Binds(at, ss) == AllBinds(at, Running(ss))
    decreases ss, 0
  {
    hide BindsOf, RunningOf;
    if ss != [] {
      BindsRun(at, ss[..|ss| - 1]);
      BindsRunOf(at, ss[|ss| - 1]);
      AllBindsAppend(at, Running(ss[..|ss| - 1]), RunningOf(ss[|ss| - 1]));
    }
  }

  lemma {:induction false} BindsRunOf(at: Reader, s: Statement)
    ensures BindsOf(at, s) == AllBinds(at, RunningOf(s))
    decreases s, 1
  {
    match s
    case If(test, body, orelse) =>
      hide Running, Binds, AllBinds, TypeChecking;
      BindsRun(at, body);
      BindsRun(at, orelse);
      var a := if TypeChecking(test) == Some(true) then [] else Running(body);
      var b := if TypeChecking(test) == Some(false) then [] else Running(orelse);
      NoBinds(at);
      AllBindsAppend(at, a, b);
    case Blocks(blocks) => BlocksRun(at, blocks);
    case _ =>
      assert [s][..0] == [];
      assert AllBinds(at, [s]) == BindsOf(at, s);
  }

  lemma NoBinds(at: Reader)
    ensures AllBinds(at, []) == []
  {
  }

  lemma {:induction false} BlocksRun(at: Reader, blocks: seq<Block>)
    ensures BlockBinds(at, blocks) == AllBinds(at, RunningBlocks(blocks))
    decreases blocks, 0
  {
    hide Binds, Running;
    if blocks != [] {
      BlocksRun(at, blocks[..|blocks| - 1]);
      BindsRun(at, blocks[|blocks| - 1].statements);
      AllBindsAppend(at, RunningBlocks(blocks[..|blocks| - 1]), Running(blocks[|blocks| - 1].statements));
    }
  }

  /** What a statement that does not mention a name leaves of it. */
  lemma {:induction false} LastBinder(at: Reader, leaves: seq<Statement>, j: nat, local: string)
    requires j < |leaves| && LastOf(BindsOf(at, leaves[j]), local).Some?
    requires forall k :: j < k < |leaves| ==> LastOf(BindsOf(at, leaves[k]), local).None?
    ensures LastOf(AllBinds(at, leaves), local) == LastOf(BindsOf(at, leaves[j]), local)
  {
    hide BindsOf, LastOf;
    var n := |leaves| - 1;
    LastAppend(AllBinds(at, leaves[..n]), BindsOf(at, leaves[n]), local);
    if j < n {
      LastBinder(at, leaves[..n], j, local);
    }
  }

  lemma {:induction false} NoBinder(at: Reader, leaves: seq<Statement>, local: string)
    requires forall k :: 0 <= k < |leaves| ==> LastOf(BindsOf(at, leaves[k]), local).None?
    ensures LastOf(AllBinds(at, leaves), local).None?
  {
    hide BindsOf;
    if leaves != [] {
      var n := |leaves| - 1;
      LastAppend(AllBinds(at, leaves[..n]), BindsOf(at, leaves[n]), local);
      NoBinder(at, leaves[..n], local);
    }
  }

  // ---- single statements -------------------------------------------------------------------------------------

  lemma {:induction false} LastNone(binds: seq<Bind>, local: string)
    ensures LastOf(binds, local).None? <==> forall i :: 0 <= i < |binds| ==> binds[i].name != local
  {
    if binds != [] {
      LastNone(binds[..|binds| - 1], local);
    }
  }

  lemma {:induction false} LastAt(binds: seq<Bind>, i: nat, local: string)
    requires i < |binds| && binds[i].name == local && forall k :: i < k < |binds| ==> binds[k].name != local
    ensures LastOf(binds, local) == Some(binds[i].binding)
  {
    if i < |binds| - 1 {
      LastAt(binds[..|binds| - 1], i, local);
    }
  }

  lemma {:induction false} NoneTaken(source: Option<string>, names: seq<Imported>, local: string)
    ensures LastOf(FromBinds(source, names), local).None? <==> forall i :: 0 <= i < |names| ==> !TakesAs(names[i], local)
  {
    hide FromBind, TakesAs, LastOf;
    if names == [] {
      LastNone(FromBinds(source, names), local);
    } else {
      var n := |names| - 1;
      NoneTaken(source, names[..n], local);
      LastAppend(FromBinds(source, names[..n]), FromBind(source, names[n]), local);
      OneTaken(source, names[n], local);
    }
  }

  /** The last of several names taken from a module decides. */
  lemma {:induction false} TakenLast(source: Option<string>, names: seq<Imported>, i: nat, local: string)
    requires i < |names| && IsLastTaken(names, i, local)
    ensures LastOf(FromBinds(source, names), local)
         == Some(if source.None? then Concrete else Alias(source.value, Some(names[i].name)))
  {
    hide FromBind, TakesAs, LastOf;
    var n := |names| - 1;
    LastAppend(FromBinds(source, names[..n]), FromBind(source, names[n]), local);
    OneTaken(source, names[n], local);
    if i < n {
      TakenLast(source, names[..n], i, local);
    }
  }

  lemma OneTaken(source: Option<string>, i: Imported, local: string)
    ensures LastOf(FromBind(source, i), local)
         == if !TakesAs(i, local) then None
            else Some(if source.None? then Concrete else Alias(source.value, Some(i.name)))
  {
    if i.name != "*" {
      assert FromBind(source, i)[..0] == [];
    }
  }

  ghost predicate IsLastTaken(names: seq<Imported>, i: nat, local: string)
    requires i < |names|
  {
    TakesAs(names[i], local) && forall k :: i < k < |names| ==> !TakesAs(names[k], local)
  }

  ghost predicate IsLastImported(names: seq<Imported>, i: nat, local: string)
    requires i < |names|
  {
    ImportsAs(names[i], local) && forall k :: i < k < |names| ==> !ImportsAs(names[k], local)
  }

  lemma ImportedName(i: Imported, local: string)
    ensures ImportBind(i).name == local <==> ImportsAs(i, local)
    ensures ImportBind(i).binding == Alias(if Renamed(i) then i.name else Split(i.name, '.')[0], None)
  {
  }

  lemma ImportBinds(at: Reader, names: seq<Imported>, local: string)
    ensures LastOf(BindsOf(at, Import(names)), local).None? <==> forall i :: 0 <= i < |names| ==> !ImportsAs(names[i], local)
  {
    hide ImportBind, ImportsAs, LastOf;
    var binds := BindsOf(at, Import(names));
    LastNone(binds, local);
    forall i | 0 <= i < |names| ensures binds[i].name == local <==> ImportsAs(names[i], local) {
      ImportedName(names[i], local);
    }
  }

  lemma ImportLast(at: Reader, names: seq<Imported>, i: nat, local: string)
    requires i < |names| && IsLastImported(names, i, local)
    ensures LastOf(BindsOf(at, Import(names)), local)
         == Some(Alias(if Renamed(names[i]) then names[i].name else Split(names[i].name, '.')[0], None))
  {
    hide ImportBind, ImportsAs, LastOf;
    var binds := BindsOf(at, Import(names));
    forall k | 0 <= k < |names| ensures binds[k].name == local <==> ImportsAs(names[k], local) {
      ImportedName(names[k], local);
    }
    ImportedName(names[i], local);
    LastAt(binds, i, local);
  }

  /** A statement binds exactly the names that it gives a value. */
  lemma BindsExactly(at: Reader, s: Statement, local: string)
    requires !s.If? && !s.Blocks?
    ensures LastOf(BindsOf(at, s), local).Some? <==> Introduces(s, local)
    ensures (s.DefineClass? || s.DefineFunction? || s.Assign?) && Introduces(s, local) ==>
      LastOf(BindsOf(at, s), local) == Some(Concrete)
  {
    match s
    case DefineClass(name) => assert BindsOf(at, s)[..0] == [];
    case DefineFunction(name, _, _) => assert BindsOf(at, s)[..0] == [];
    case Import(names) => ImportBinds(at, names, local);
    case ImportFrom(source, level, names) =>
      hide FromBinds, TakesAs;
      NoneTaken(ResolveFrom(at, source, level), names, local);
    case Assign(targets) => ConcreteLast(AllTargetNames(targets), local);
  }

  lemma {:induction false} ConcreteLast(names: seq<string>, local: string)
    ensures LastOf(ConcreteBinds(names), local) == if local in names then Some(Concrete) else None
  {
    if names != [] {
      ConcreteLast(names[..|names| - 1], local);
      assert ConcreteBinds(names)[..|names| - 1] == ConcreteBinds(names[..|names| - 1]);
    }
  }

  // ---- which names are answered --------------------------------------------------------------------------------

  lemma {:induction false} DynamicRuns(ss: seq<Statement>, local: string)
    ensures local in Dynamic(ss) <==> AnswersAny(ss, local)
    decreases ss, 0
  {
    hide DynamicOf, RunningOf, Answers;
    if ss != [] {
      DynamicRuns(ss[..|ss| - 1], local);
      DynamicRunsOf(ss[|ss| - 1], local);
    }
  }

  ghost predicate AnyAnswers(leaves: seq<Statement>, local: string) {
    exists s :: s in leaves && Answers(s, local)
  }

  lemma {:induction false} DynamicRunsOf(s: Statement, local: string)
    ensures local in DynamicOf(s) <==> AnyAnswers(RunningOf(s), local)
    decreases s, 1
  {
    match s
    case If(test, body, orelse) =>
      hide Dynamic, Running, Answers;
      DynamicRuns(body, local);
      DynamicRuns(orelse, local);
    case Blocks(blocks) => DynamicBlocks(blocks, local);
    case _ => assert s in [s];
  }

  lemma {:induction false} DynamicBlocks(blocks: seq<Block>, local: string)
    ensures local in BlockDynamic(blocks) <==> AnyAnswers(RunningBlocks(blocks), local)
    decreases blocks, 0
  {
    hide Dynamic, Running, Answers;
    if blocks != [] {
      DynamicBlocks(blocks[..|blocks| - 1], local);
      DynamicRuns(blocks[|blocks| - 1].statements, local);
    }
  }

  // ---- theorems -----------------------------------------------------------------------------------------------------

  /** The module is found, and its file can be read. */
  predicate Readable(repo: Repo, m: string) {
    var place := Locate(repo, m);
    place.Some? && !place.value.Directory? && place.value in repo.parsed
  }

  function StatementsOf(repo: Repo, m: string): seq<Statement>
    requires Readable(repo, m)
  {
    repo.parsed[Locate(repo, m).value]
  }

  function ReaderAt(repo: Repo, m: string): Reader
    requires Readable(repo, m)
  {
    ReaderOf(Locate(repo, m).value)
  }

  lemma {:induction false} RunningSimple(ss: seq<Statement>)
    ensures forall s :: s in Running(ss) ==> !s.If? && !s.Blocks?
    decreases ss, 0
  {
    hide RunningOf;
    if ss != [] {
      RunningSimple(ss[..|ss| - 1]);
      RunningOfSimple(ss[|ss| - 1]);
    }
  }

  lemma {:induction false} RunningOfSimple(s: Statement)
    ensures forall x :: x in RunningOf(s) ==> !x.If? && !x.Blocks?
    decreases s, 1
  {
    match s
    case If(test, body, orelse) =>
      hide Running;
      RunningSimple(body);
      RunningSimple(orelse);
    case Blocks(blocks) => RunningBlocksSimple(blocks);
    case _ =>
  }

  lemma {:induction false} RunningBlocksSimple(blocks: seq<Block>)
    ensures forall x :: x in RunningBlocks(blocks) ==> !x.If? && !x.Blocks?
    decreases blocks, 0
  {
    hide Running;
    if blocks != [] {
      RunningBlocksSimple(blocks[..|blocks| - 1]);
      RunningSimple(blocks[|blocks| - 1].statements);
    }
  }

  /** What the collected information says about a name: answered dynamically, bound as its last binder binds it, or not
      at all. */
  lemma InfoMeans(at: Reader, ss: seq<Statement>, local: string)
    ensures var info := InfoFrom(at, ss);
      && (local in info.dynamicExports <==> AnswersAny(ss, local))
      && (local in info.exports <==> exists j :: 0 <= j < |Running(ss)| && Introduces(Running(ss)[j], local))
      && forall j: nat :: IsLastBinder(ss, j, local) ==>
           local in info.exports && LastOf(BindsOf(at, Running(ss)[j]), local) == Some(info.exports[local])
  {
    hide BindsOf, LastOf, Bound, Binds, Dynamic, AnswersAny, Introduces, Running, AllBinds;
    DynamicRuns(ss, local);
    BindsRun(at, ss);
    RunningSimple(ss);
    var leaves := Running(ss);
    forall k | 0 <= k < |leaves| ensures LastOf(BindsOf(at, leaves[k]), local).Some? <==> Introduces(leaves[k], local) {
      assert leaves[k] in leaves;
      BindsExactly(at, leaves[k], local);
    }
    BoundLast(map[], AllBinds(at, leaves), local);
    forall j: nat | IsLastBinder(ss, j, local)
      ensures LastOf(AllBinds(at, leaves), local) == LastOf(BindsOf(at, leaves[j]), local)
    {
      LastBinder(at, leaves, j, local);
    }
    if j :| 0 <= j < |leaves| && Introduces(leaves[j], local) {
      var k := LastIntroducing(ss, j, local);
      assert IsLastBinder(ss, k, local);
    } else {
      NoBinder(at, leaves, local);
    }
  }

  lemma {:induction false} LastIntroducing(ss: seq<Statement>, j: nat, local: string) returns (k: nat)
    requires j < |Running(ss)| && Introduces(Running(ss)[j], local)
    ensures IsLastBinder(ss, k, local)
    decreases |Running(ss)| - j
  {
    hide Running, Introduces;
    if i :| j < i < |Running(ss)| && Introduces(Running(ss)[i], local) {
      k := LastIntroducing(ss, i, local);
    } else {
      k := j;
    }
  }

  /** A name that a `__getattr__` answers to can be imported; one that no statement gives a value cannot. */
  lemma AnsweredOrUnbound(repo: Repo, m: string, local: string)
    requires Readable(repo, m)
    ensures AnswersAny(StatementsOf(repo, m), local) ==> Exported(repo, Key(m, local))
    ensures
      (&& !AnswersAny(StatementsOf(repo, m), local)
       && forall s :: s in Running(StatementsOf(repo, m)) ==> !Introduces(s, local)) ==>
      !Exported(repo, Key(m, local))
  {
    hide AnswersAny, Introduces, Running, Exported, Locate, InfoFrom;
    var ss := StatementsOf(repo, m);
    InfoMeans(ReaderAt(repo, m), ss, local);
    ExportedHop(repo, Key(m, local));
    if forall s :: s in Running(ss) ==> !Introduces(s, local) {
      assert forall j :: 0 <= j < |Running(ss)| ==> Running(ss)[j] in Running(ss);
    }
  }

  /** A name whose last value is a definition or an assignment can be imported. */
  lemma DefinedIsExported(repo: Repo, m: string, j: nat, local: string)
    requires Readable(repo, m) && IsLastBinder(StatementsOf(repo, m), j, local)
    requires var s := Running(StatementsOf(repo, m))[j]; s.DefineClass? || s.DefineFunction? || s.Assign?
    ensures Exported(repo, Key(m, local))
  {
    hide AnswersAny, Introduces, Running, Exported, Locate, InfoFrom, BindsOf, LastOf;
    var ss := StatementsOf(repo, m);
    InfoMeans(ReaderAt(repo, m), ss, local);
    BindsExactly(ReaderAt(repo, m), Running(ss)[j], local);
    ExportedHop(repo, Key(m, local));
  }

  /** `from M import n as local`, where it is what gives `local` its last value: the name can be imported exactly if `M`
      is no host module, or `M.n` is a module and `M` is not `config`, or `n` can be imported from `M`; a relative import
      that names no module counts as a definition. */
  lemma TakenExactly(repo: Repo, m: string, j: nat, i: nat, local: string)
    requires Readable(repo, m) && IsLastBinder(StatementsOf(repo, m), j, local)
    requires !AnswersAny(StatementsOf(repo, m), local)
    requires var s := Running(StatementsOf(repo, m))[j]; s.ImportFrom? && i < |s.names| && IsLastTaken(s.names, i, local)
    ensures var s := Running(StatementsOf(repo, m))[j];
      var source := ResolveFrom(ReaderAt(repo, m), s.source, s.level); var n := s.names[i].name;
      Exported(repo, Key(m, local)) <==>
        || source.None?
        || !IsHost(source.value)
        || (source.value != "config" && ModuleExists(repo, source.value + "." + n))
        || Exported(repo, Key(source.value, n))
  {
    hide AnswersAny, Introduces, Running, Exported, Locate, InfoFrom, LastOf, IsLastTaken, IsHost, FromBinds, ResolveFrom;
    var ss := StatementsOf(repo, m);
    var s := Running(ss)[j];
    InfoMeans(ReaderAt(repo, m), ss, local);
    TakenLast(ResolveFrom(ReaderAt(repo, m), s.source, s.level), s.names, i, local);
    ExportedHop(repo, Key(m, local));
  }

  /** `import a.b` gives `a`, and `import a.b as c` gives the module `a.b`: it can be imported exactly if that module is
      no host module or exists. */
  lemma ImportedExactly(repo: Repo, m: string, j: nat, i: nat, local: string)
    requires Readable(repo, m) && IsLastBinder(StatementsOf(repo, m), j, local)
    requires !AnswersAny(StatementsOf(repo, m), local)
    requires var s := Running(StatementsOf(repo, m))[j]; s.Import? && i < |s.names| && IsLastImported(s.names, i, local)
    ensures var imported := Running(StatementsOf(repo, m))[j].names[i];
      var target := if Renamed(imported) then imported.name else local;
      Exported(repo, Key(m, local)) <==> !IsHost(target) || ModuleExists(repo, target)
  {
    hide AnswersAny, Introduces, Running, Exported, Locate, InfoFrom, LastOf, IsHost, Split, ImportBind;
    var ss := StatementsOf(repo, m);
    var s := Running(ss)[j];
    InfoMeans(ReaderAt(repo, m), ss, local);
    ImportLast(ReaderAt(repo, m), s.names, i, local);
    ExportedHop(repo, Key(m, local));
  }
}
