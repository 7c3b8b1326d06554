/** Which names a module binds when it runs, read off its syntax tree
    (scripts/analysis/extension_imports_check.py:259-346, 520-612). */
module ModuleExports {
  import opened Options
  import opened Text

  /** A name bound in a module: defined there, or imported from elsewhere. */
  datatype Binding = Concrete | Alias(targetModule: string, targetName: Option<string>)

  datatype Info = Info(exports: map<string, Binding>, dynamicExports: set<string>)

  datatype Imported = Imported(name: string, asname: Option<string>)

  datatype Brackets = TUPLE | LIST | SET

  /** The expressions the index tells apart. */
  datatype Expression =
    | Name(id: string)
    | Attribute(value: Expression, attr: string)
    | Not(operand: Expression)
    | Literal(text: string)
    | Listing(brackets: Brackets, items: seq<Expression>)
    | Other

  /** A comparison somewhere in a function: its operands from left to right. */
  datatype Comparison = Comparison(operands: seq<Expression>)

  /** The statements the index tells apart. A function comes with all comparisons found in it, nested ones included.
      Annotated and augmented assignments are `Assign` with one target. Loops, `with`, `try` and `match` are `Blocks`,
      in the order in which the blocks are read. */
  datatype Statement =
    | DefineClass(name: string)
    | DefineFunction(name: string, arguments: seq<string>, comparisons: seq<Comparison>)
    | Import(names: seq<Imported>)
    | ImportFrom(source: Option<string>, level: nat, names: seq<Imported>)
    | Assign(targets: seq<Expression>)
    | If(test: Expression, body: seq<Statement>, orelse: seq<Statement>)
    | Blocks(blocks: seq<Block>)

  datatype Block = Block(statements: seq<Statement>)

  /** The file that is read: its module name in parts, and whether it is a package. */
  datatype Reader = Reader(parts: seq<string>, isPackage: bool)

  function LocalName(i: Imported, otherwise: string): string {
    if i.asname.Some? && i.asname.value != "" then i.asname.value else otherwise
  }

  /** The parts that a relative import names: those of the package, without one for each level above the first,
      and those of the imported module. */
  function RelativeParts(at: Reader, imported: Option<string>, level: nat): seq<string>
    requires 0 < level <= |PackageOf(at)| + 1
  {
    PackageOf(at)[..|PackageOf(at)| + 1 - level]
    + if imported.Some? && imported.value != "" then Split(imported.value, '.') else []
  }

  function PackageOf(at: Reader): seq<string> {
    if at.isPackage || at.parts == [] then at.parts else at.parts[..|at.parts| - 1]
  }

  /** `_resolve_import_from_module`. */
  function ResolveFrom(at: Reader, imported: Option<string>, level: nat): Option<string> {
    if level == 0 then imported
    else if level - 1 > |PackageOf(at)| then None
    else
      var name := Join(RelativeParts(at, imported, level), '.');
      if name == "" then None else Some(name)
  }

  lemma {:induction false} SplitHasNoDots(s: string, c: char)
    ensures forall part :: part in Split(s, c) ==> c !in part
  {
    if s != [] {
      SplitHasNoDots(s[1..], c);
      var rest := Split(s[1..], c);
      assert rest[0] in rest && forall part :: part in rest[1..] ==> part in rest;
    }
  }

  /** A relative import names a module exactly when it does not climb above the top and names at least one part;
      the name splits into exactly the parts that it should have. */
  lemma RelativeExactly(at: Reader, imported: Option<string>, level: nat)
    requires level > 0 && forall part :: part in at.parts ==> '.' !in part
    ensures var r := ResolveFrom(at, imported, level);
      && (r.Some? <==> level <= |PackageOf(at)| + 1 && RelativeParts(at, imported, level) !in {[], [""]})
      && (r.Some? ==> Split(r.value, '.') == RelativeParts(at, imported, level))
  {
    hide Split;
    if level <= |PackageOf(at)| + 1 {
      var parts := RelativeParts(at, imported, level);
      if imported.Some? {
        SplitHasNoDots(imported.value, '.');
      }
      assert forall part :: part in parts ==> '.' !in part;
      if parts != [] {
        SplitJoin(parts, '.');
        SplitWhole("", '.');
      }
    }
  }

  // ---- reading expressions ---------------------------------------------------------------------------------

  /** `_type_checking_branch`: whether the body runs for a type checker only, or at run time only. */
  function TypeChecking(test: Expression): Option<bool> {
    match test
    case Name(id) => if id == "TYPE_CHECKING" then Some(true) else None
    case Attribute(value, attr) => if value == Name("typing") && attr == "TYPE_CHECKING" then Some(true) else None
    case Not(operand) =>
      var inner := TypeChecking(operand);
      if inner.None? then None else Some(!inner.value)
    case _ => None
  }

  /** A test below its `not`s, and how many there are. */
  function Unnegated(test: Expression): (Expression, nat) {
    if test.Not? then (Unnegated(test.operand).0, Unnegated(test.operand).1 + 1) else (test, 0)
  }

  predicate IsFlag(e: Expression) {
    e == Name("TYPE_CHECKING") || e == Attribute(Name("typing"), "TYPE_CHECKING")
  }

  /** A branch is recognised exactly when its test is the flag under any number of `not`s; their parity decides. */
  lemma {:induction false} TypeCheckingExactly(test: Expression)
    ensures TypeChecking(test) == if IsFlag(Unnegated(test).0) then Some(Unnegated(test).1 % 2 == 0) else None
  {
    if test.Not? {
      TypeCheckingExactly(test.operand);
    }
  }

  /** The names a target binds, from left to right; tuples and lists are taken apart. */
  function TargetNames(target: Expression): seq<string>
    decreases target, 1
  {
    match target
    case Name(id) => [id]
    case Listing(brackets, items) => if brackets == SET then [] else AllTargetNames(items)
    case _ => []
  }

  function AllTargetNames(targets: seq<Expression>): seq<string>
    decreases targets, 0
  {
    if targets == [] then []
    else AllTargetNames(targets[..|targets| - 1]) + TargetNames(targets[|targets| - 1])
  }

  function Names(names: seq<string>): set<string> {
    set name | name in names
  }

  /** `_assigned_names`, and the loop of `_target_names` over the items of a tuple or list. */
  method AssignedNames(targets: seq<Expression>) returns (names: set<string>)
    ensures names == Names(AllTargetNames(targets))
    decreases targets, 0
  {
    names := {};
    for i := 0 to |targets|
      invariant names == Names(AllTargetNames(targets[..i]))
    {
      assert targets[..i + 1][..i] == targets[..i];
      var more := NamesOfTarget(targets[i]);
      names := names + more;
    }
    assert targets[..|targets|] == targets;
  }

  /** `_target_names`. */
  method NamesOfTarget(target: Expression) returns (names: set<string>)
    ensures names == Names(TargetNames(target))
    decreases target, 1
  {
    match target
    case Name(id) => names := {id};
    case Listing(brackets, items) =>
      names := {};
      if brackets != SET {
        names := AssignedNames(items);
      }
    case _ => names := {};
  }

  predicate Mentions(c: Comparison, argument: string) {
    Name(argument) in c.operands
  }

  /** The texts an operand stands for: itself, or those listed in it. */
  function Texts(e: Expression): set<string> {
    match e
    case Literal(text) => {text}
    case Listing(_, items) => set item | item in items && item.Literal? :: item.text
    case _ => {}
  }

  function AllTexts(operands: seq<Expression>): set<string> {
    if operands == [] then {} else AllTexts(operands[..|operands| - 1]) + Texts(operands[|operands| - 1])
  }

  function ComparedTexts(comparisons: seq<Comparison>, argument: string): set<string> {
    if comparisons == [] then {}
    else
      var last := comparisons[|comparisons| - 1];
      ComparedTexts(comparisons[..|comparisons| - 1], argument) + if Mentions(last, argument) then AllTexts(last.operands) else {}
  }

  /** What a `__getattr__` answers to: the texts it compares its first argument with. */
  function AnsweredNames(arguments: seq<string>, comparisons: seq<Comparison>): set<string> {
    if arguments == [] then {} else ComparedTexts(comparisons, arguments[0])
  }

  lemma {:induction false} AllTextsExactly(operands: seq<Expression>, name: string)
    ensures name in AllTexts(operands) <==> exists e :: e in operands && name in Texts(e)
  {
    if operands != [] {
      var init, last := operands[..|operands| - 1], operands[|operands| - 1];
      AllTextsExactly(init, name);
      assert operands == init + [last];
    }
  }

  /** A name is answered exactly when some comparison has the first argument and that text among its operands, the
      text possibly inside a tuple, list or set. */
  lemma {:induction false} AnsweredExactly(arguments: seq<string>, comparisons: seq<Comparison>, name: string)
    ensures name in AnsweredNames(arguments, comparisons) <==>
      && arguments != []
      && exists c, e :: c in comparisons && Mentions(c, arguments[0]) && e in c.operands && name in Texts(e)
  {
    if arguments != [] && comparisons != [] {
      var init, last := comparisons[..|comparisons| - 1], comparisons[|comparisons| - 1];
      AnsweredExactly(arguments, init, name);
      AllTextsExactly(last.operands, name);
      assert comparisons == init + [last];
    }
  }

  /** `_getattr_literal_names`. */
  method LiteralNames(arguments: seq<string>, comparisons: seq<Comparison>) returns (names: set<string>)
    ensures names == AnsweredNames(arguments, comparisons)
  {
    names := {};
    if arguments == [] {
      return;
    }
    for i := 0 to |comparisons|
      invariant names == ComparedTexts(comparisons[..i], arguments[0])
    {
      assert comparisons[..i + 1][..i] == comparisons[..i];
      if Mentions(comparisons[i], arguments[0]) {
        names := AddTexts(names, comparisons[i].operands);
      }
    }
    assert comparisons[..|comparisons|] == comparisons;
  }

  method AddTexts(names0: set<string>, operands: seq<Expression>) returns (names: set<string>)
    ensures names == names0 + AllTexts(operands)
  {
    names := names0;
    for j := 0 to |operands|
      invariant names == names0 + AllTexts(operands[..j])
    {
      assert operands[..j + 1][..j] == operands[..j];
      names := names + Texts(operands[j]);
    }
    assert operands[..|operands|] == operands;
  }

  // ---- what runs, in order ---------------------------------------------------------------------------------

  datatype Bind = Bind(name: string, binding: Binding)

  function ImportBind(i: Imported): Bind {
    var root := Split(i.name, '.')[0];
    var renamed := i.asname.Some? && i.asname.value != "";
    Bind(LocalName(i, root), Alias(if renamed then i.name else root, None))
  }

  function FromBind(source: Option<string>, i: Imported): seq<Bind> {
    if i.name == "*" then []
    else [Bind(LocalName(i, i.name), if source.None? then Concrete else Alias(source.value, Some(i.name)))]
  }

  function FromBinds(source: Option<string>, names: seq<Imported>): seq<Bind> {
    if names == [] then [] else FromBinds(source, names[..|names| - 1]) + FromBind(source, names[|names| - 1])
  }

  function ConcreteBinds(names: seq<string>): seq<Bind> {
    seq(|names|, i requires 0 <= i < |names| => Bind(names[i], Concrete))
  }

  /** The bindings of a statement, in the order in which they are made; what only a type checker runs is left out. */
  function BindsOf(at: Reader, s: Statement): seq<Bind>
    decreases s, 1
  {
    match s
    case DefineClass(name) => [Bind(name, Concrete)]
    case DefineFunction(name, _, _) => [Bind(name, Concrete)]
    case Import(names) => seq(|names|, i requires 0 <= i < |names| => ImportBind(names[i]))
    case ImportFrom(source, level, names) => FromBinds(ResolveFrom(at, source, level), names)
    case Assign(targets) => ConcreteBinds(AllTargetNames(targets))
    case If(test, body, orelse) =>
      (if TypeChecking(test) == Some(true) then [] else Binds(at, body))
      + (if TypeChecking(test) == Some(false) then [] else Binds(at, orelse))
    case Blocks(blocks) => BlockBinds(at, blocks)
  }

  function Binds(at: Reader, ss: seq<Statement>): seq<Bind>
    decreases ss, 0
  {
    if ss == [] then [] else Binds(at, ss[..|ss| - 1]) + BindsOf(at, ss[|ss| - 1])
  }

  function BlockBinds(at: Reader, blocks: seq<Block>): seq<Bind>
    decreases blocks, 0
  {
    if blocks == [] then [] else BlockBinds(at, blocks[..|blocks| - 1]) + Binds(at, blocks[|blocks| - 1].statements)
  }

  /** The names that a module-level `__getattr__` answers to. */
  function DynamicOf(s: Statement): set<string>
    decreases s, 1
  {
    match s
    case DefineFunction(name, arguments, comparisons) =>
      if name == "__getattr__" then AnsweredNames(arguments, comparisons) else {}
    case If(test, body, orelse) =>
      (if TypeChecking(test) == Some(true) then {} else Dynamic(body))
      + (if TypeChecking(test) == Some(false) then {} else Dynamic(orelse))
    case Blocks(blocks) => BlockDynamic(blocks)
    case _ => {}
  }

  function Dynamic(ss: seq<Statement>): set<string>
    decreases ss, 0
  {
    if ss == [] then {} else Dynamic(ss[..|ss| - 1]) + DynamicOf(ss[|ss| - 1])
  }

  function BlockDynamic(blocks: seq<Block>): set<string>
    decreases blocks, 0
  {
    if blocks == [] then {} else BlockDynamic(blocks[..|blocks| - 1]) + Dynamic(blocks[|blocks| - 1].statements)
  }

  // ---- the last binding wins -----------------------------------------------------------------------------------

  /** The dictionary after the bindings are made one by one. */
  function Bound(exports: map<string, Binding>, binds: seq<Bind>): map<string, Binding> {
    if binds == [] then exports
    else Bound(exports, binds[..|binds| - 1])[binds[|binds| - 1].name := binds[|binds| - 1].binding]
  }

  lemma {:induction false} BoundAppend(exports: map<string, Binding>, a: seq<Bind>, b: seq<Bind>)
    ensures Bound(exports, a + b) == Bound(Bound(exports, a), b)
  {
    if b == [] {
      assert a + b == a;
    } else {
      BoundAppend(exports, a, b[..|b| - 1]);
      assert (a + b)[..|a + b| - 1] == a + b[..|b| - 1];
    }
  }

  ghost predicate IsLast(binds: seq<Bind>, i: nat, name: string)
    requires i < |binds|
  {
    binds[i].name == name && forall j :: i < j < |binds| ==> binds[j].name != name
  }

  /** A module exports exactly the names it binds at run time, each as it was bound last. */
  lemma {:induction false} LastBindingWins(binds: seq<Bind>, i: nat, name: string)
    requires i < |binds| && IsLast(binds, i, name)
    ensures name in Bound(map[], binds) && Bound(map[], binds)[name] == binds[i].binding
  {
    if i < |binds| - 1 {
      LastBindingWins(binds[..|binds| - 1], i, name);
    }
  }

  lemma {:induction false} OnlyBindings(binds: seq<Bind>, name: string)
    ensures name in Bound(map[], binds) ==> exists i :: 0 <= i < |binds| && IsLast(binds, i, name)
  {
    if binds != [] {
      var init, last := binds[..|binds| - 1], |binds| - 1;
      if binds[last].name == name {
        assert IsLast(binds, last, name);
      } else if name in Bound(map[], binds) {
        OnlyBindings(init, name);
        var i :| 0 <= i < |init| && IsLast(init, i, name);
        assert IsLast(binds, i, name);
      }
    }
  }

  // ---- collecting ---------------------------------------------------------------------------------------------------

  /** `_collect_runtime_exports`, which fills both collections as it goes. */
  method CollectRuntimeExports(at: Reader, ss: seq<Statement>, exports0: map<string, Binding>, dynamic0: set<string>)
    returns (exports: map<string, Binding>, dynamic: set<string>)
    ensures exports == Bound(exports0, Binds(at, ss)) && dynamic == dynamic0 + Dynamic(ss)
    decreases ss, 0
  {
    hide BindsOf, DynamicOf, Bound;
    exports, dynamic := exports0, dynamic0;
    BoundNothing(exports0);
    for i := 0 to |ss|
      invariant exports == Bound(exports0, Binds(at, ss[..i])) && dynamic == dynamic0 + Dynamic(ss[..i])
    {
      assert ss[..i + 1][..i] == ss[..i];
      BoundAppend(exports0, Binds(at, ss[..i]), BindsOf(at, ss[i]));
      exports, dynamic := CollectStatement(at, ss[i], exports, dynamic);
    }
    assert ss[..|ss|] == ss;
  }

  lemma BoundNothing(exports: map<string, Binding>)
    ensures Bound(exports, []) == exports
  {
  }

  /** The body of the loop over statements. */
  method CollectStatement(at: Reader, s: Statement, exports0: map<string, Binding>, dynamic0: set<string>)
    returns (exports: map<string, Binding>, dynamic: set<string>)
    ensures exports == Bound(exports0, BindsOf(at, s)) && dynamic == dynamic0 + DynamicOf(s)
    decreases s, 1
  {
    hide TypeChecking, AnsweredNames, AllTargetNames;
    exports, dynamic := exports0, dynamic0;
    match s
    case DefineClass(name) =>
      exports := exports[name := Concrete];
      BoundOne(exports0, Bind(name, Concrete));
    case DefineFunction(name, arguments, comparisons) =>
      exports := exports[name := Concrete];
      BoundOne(exports0, Bind(name, Concrete));
      if name == "__getattr__" {
        var answered := LiteralNames(arguments, comparisons);
        dynamic := dynamic + answered;
      }
    case Import(names) => exports := BindEach(exports, BindsOf(at, s));
    case ImportFrom(source, level, names) => exports := BindEach(exports, BindsOf(at, s));
    case Assign(targets) =>
      var names := AssignedNames(targets);
      exports := BindAll(exports, names);
      ConcreteBound(exports0, AllTargetNames(targets));
    case If(test, body, orelse) =>
      BranchBinds(at, s, exports0);
      var typeChecking := TypeChecking(test);
      if typeChecking != Some(true) {
        exports, dynamic := CollectRuntimeExports(at, body, exports, dynamic);
      }
      if typeChecking != Some(false) {
        exports, dynamic := CollectRuntimeExports(at, orelse, exports, dynamic);
      }
    case Blocks(blocks) => exports, dynamic := CollectBlocks(at, blocks, exports, dynamic);
  }

  lemma BoundOne(exports: map<string, Binding>, bind: Bind)
    ensures Bound(exports, [bind]) == exports[bind.name := bind.binding]
  {
    assert [bind][..0] == [];
  }

  lemma BranchBinds(at: Reader, s: Statement, exports: map<string, Binding>)
    requires s.If?
    ensures var first := if TypeChecking(s.test) == Some(true) then exports else Bound(exports, Binds(at, s.body));
      Bound(exports, BindsOf(at, s))
      == if TypeChecking(s.test) == Some(false) then first else Bound(first, Binds(at, s.orelse))
  {
    hide Binds, TypeChecking;
    var a := if TypeChecking(s.test) == Some(true) then [] else Binds(at, s.body);
    var b := if TypeChecking(s.test) == Some(false) then [] else Binds(at, s.orelse);
    BoundAppend(exports, a, b);
  }

  /** The loop over the set of assigned names, in any order. */
  method BindAll(exports0: map<string, Binding>, names: set<string>) returns (exports: map<string, Binding>)
    ensures exports == exports0 + map name | name in names :: Concrete
  {
    exports := exports0;
    var rest := names;
    while rest != {}
      invariant rest <= names && exports == exports0 + map name | name in names && name !in rest :: Concrete
      decreases rest
    {
      var name :| name in rest;
      exports := exports[name := Concrete];
      rest := rest - {name};
    }
  }

  lemma {:induction false} ConcreteBound(exports: map<string, Binding>, names: seq<string>)
    ensures Bound(exports, ConcreteBinds(names)) == exports + map name | name in Names(names) :: Concrete
  {
    if names == [] {
      assert (map name | name in Names(names) :: Concrete) == map[];
    } else {
      var init, last := names[..|names| - 1], names[|names| - 1];
      ConcreteBound(exports, init);
      assert ConcreteBinds(names)[..|names| - 1] == ConcreteBinds(init);
      assert Names(names) == Names(init) + {last};
      OneMoreName(exports, Names(init), last);
    }
  }

  lemma OneMoreName(exports: map<string, Binding>, names: set<string>, last: string)
    ensures (exports + map name | name in names :: Concrete)[last := Concrete]
         == exports + map name | name in names + {last} :: Concrete
  {
  }

  /** The loop over the names of one statement. */
  method BindEach(exports0: map<string, Binding>, binds: seq<Bind>) returns (exports: map<string, Binding>)
    ensures exports == Bound(exports0, binds)
  {
    exports := exports0;
    for i := 0 to |binds|
      invariant exports == Bound(exports0, binds[..i])
    {
      assert binds[..i + 1][..i] == binds[..i];
      exports := exports[binds[i].name := binds[i].binding];
    }
    assert binds[..|binds|] == binds;
  }

  method CollectBlocks(at: Reader, blocks: seq<Block>, exports0: map<string, Binding>, dynamic0: set<string>)
    returns (exports: map<string, Binding>, dynamic: set<string>)
    ensures exports == Bound(exports0, BlockBinds(at, blocks)) && dynamic == dynamic0 + BlockDynamic(blocks)
    decreases blocks, 0
  {
    hide Binds, Dynamic, Bound;
    exports, dynamic := exports0, dynamic0;
    BoundNothing(exports0);
    for i := 0 to |blocks|
      invariant exports == Bound(exports0, BlockBinds(at, blocks[..i])) && dynamic == dynamic0 + BlockDynamic(blocks[..i])
    {
      assert blocks[..i + 1][..i] == blocks[..i];
      BoundAppend(exports0, BlockBinds(at, blocks[..i]), Binds(at, blocks[i].statements));
      exports, dynamic := CollectRuntimeExports(at, blocks[i].statements, exports, dynamic);
    }
    assert blocks[..|blocks|] == blocks;
  }

  /** The collections of a whole module. */
  method ReadModule(at: Reader, ss: seq<Statement>) returns (info: Info)
    ensures info == InfoFrom(at, ss)
  {
    var exports, dynamic := CollectRuntimeExports(at, ss, map[], {});
    info := Info(exports, dynamic);
  }

  function InfoFrom(at: Reader, ss: seq<Statement>): Info {
    Info(Bound(map[], Binds(at, ss)), Dynamic(ss))
  }
}
