/** The static index of importable host entities (scripts/analysis/extension_imports_check.py:87-258). */
module ExportIndex {
  import opened ModuleExports
  import opened Options
  import opened Text

  /** What the index may find for a module: a source file, a package's `__init__.py`, or a directory. */
  datatype Place = SourceFile(parts: seq<string>) | PackageInit(parts: seq<string>) | Directory(parts: seq<string>)

  /** The repository on disk: what exists, and the statements of the files that can be read and parsed. */
  datatype Repo = Repo(places: set<Place>, parsed: map<Place, seq<Statement>>)

  function ReaderOf(place: Place): Reader {
    Reader(place.parts, place.PackageInit?)
  }

  const HOST_MODULE_ROOTS := {"src", "core", "config"}

  predicate IsHost(name: string) {
    Split(name, '.')[0] in HOST_MODULE_ROOTS
  }

  function Submodule(name: string, child: string): string {
    name + "." + child
  }

  /** Where Python would find a host module. */
  function Locate(repo: Repo, name: string): Option<Place> {
    var parts := Split(name, '.');
    if parts[0] !in HOST_MODULE_ROOTS then None
    else if parts[0] == "config" then
      if parts == ["config"] && SourceFile(parts) in repo.places then Some(SourceFile(parts)) else None
    else
      var base := DropEmpty(parts);
      if SourceFile(base) in repo.places then Some(SourceFile(base))
      else if PackageInit(base) in repo.places then Some(PackageInit(base))
      else if Directory(base) in repo.places then Some(Directory(base))
      else None
  }

  /** Where a module is found: `config` only as a file of its own; below `src` and `core` a file before a package before a
      plain directory; nothing else anywhere. */
  lemma LocateExactly(repo: Repo, name: string)
    ensures var parts := Split(name, '.'); var base := DropEmpty(parts); var r := Locate(repo, name);
      if parts[0] == "config" then r == if parts == ["config"] && SourceFile(["config"]) in repo.places then Some(SourceFile(["config"])) else None
      else if parts[0] != "src" && parts[0] != "core" then r == None
      else
        && (r == Some(SourceFile(base)) <==> SourceFile(base) in repo.places)
        && (r == Some(PackageInit(base)) <==> SourceFile(base) !in repo.places && PackageInit(base) in repo.places)
        && (r == Some(Directory(base)) <==>
              SourceFile(base) !in repo.places && PackageInit(base) !in repo.places && Directory(base) in repo.places)
        && (r.None? <==> SourceFile(base) !in repo.places && PackageInit(base) !in repo.places && Directory(base) !in repo.places)
  {
    hide Split, DropEmpty;
    assert |"config"| == 6 && |"src"| == 3 && |"core"| == 4;
  }

  predicate ModuleExists(repo: Repo, name: string) {
    Locate(repo, name).Some?
  }

  /** The module exists but its file cannot be read or parsed. */
  predicate Unreadable(repo: Repo, name: string) {
    var place := Locate(repo, name);
    place.Some? && !place.value.Directory? && place.value !in repo.parsed
  }

  function InfoOf(repo: Repo, name: string): Option<Info> {
    match Locate(repo, name)
    case None => None
    case Some(Directory(_)) => Some(Info(map[], {}))
    case Some(place) => if place in repo.parsed then Some(InfoFrom(ReaderOf(place), repo.parsed[place])) else None
  }

  predicate IsSubmodule(repo: Repo, name: string, child: string) {
    name != "config" && ModuleExists(repo, Submodule(name, child))
  }

  /** The dotted name that the first `k` attributes spell below a module. */
  function Below(name: string, attributes: seq<string>, k: nat): string
    requires k <= |attributes|
  {
    if k == 0 then name else Submodule(Below(name, attributes, k - 1), attributes[k - 1])
  }

  predicate AllModules(repo: Repo, name: string, attributes: seq<string>, k: nat)
    requires k <= |attributes|
  {
    k > 0 ==> AllModules(repo, name, attributes, k - 1) && IsSubmodule(repo, Below(name, attributes, k - 1), attributes[k - 1])
  }

  /** The first `k` attributes lead from module to module, and the next one, if any, does not. */
  predicate StopsAt(repo: Repo, name: string, attributes: seq<string>, k: nat, r: (string, Option<string>)) {
    && k <= |attributes| && AllModules(repo, name, attributes, k) && r.0 == Below(name, attributes, k)
    && if k == |attributes| then r.1 == None
       else r.1 == Some(attributes[k]) && !IsSubmodule(repo, r.0, attributes[k])
  }

  // ---- the re-export chain -------------------------------------------------------------------------------

  datatype Key = Key(moduleName: string, name: string)

  datatype Hop = Found | Missing | Next(key: Key)

  /** One link of the chain: the name is bound here, is not, or is passed on to another module. */
  function HopFrom(repo: Repo, key: Key): Hop {
    match InfoOf(repo, key.moduleName)
    case None => Missing
    case Some(info) =>
      if key.name in info.dynamicExports then Found
      else if key.name !in info.exports then Missing
      else
        match info.exports[key.name]
        case Concrete => Found
        case Alias(target, name) =>
          if !IsHost(target) then Found
          else if name.None? then (if ModuleExists(repo, target) then Found else Missing)
          else if target != "config" && ModuleExists(repo, Submodule(target, name.value)) then Found
          else Next(Key(target, name.value))
  }

  /** The chain ends in a binding after at most `n` links. */
  ghost predicate EndsWithin(repo: Repo, key: Key, n: nat)
    decreases n
  {
    match HopFrom(repo, key)
    case Found => true
    case Missing => false
    case Next(k) => n > 0 && EndsWithin(repo, k, n - 1)
  }

  /** The re-export chain from `key` reaches a definition, a dynamic export, a submodule or a module that
      is not the host's. */
  ghost predicate Exported(repo: Repo, key: Key) {
    exists n: nat :: EndsWithin(repo, key, n)
  }

  lemma ExportedHop(repo: Repo, key: Key)
    ensures HopFrom(repo, key).Found? ==> Exported(repo, key)
    ensures HopFrom(repo, key).Missing? ==> !Exported(repo, key)
    ensures HopFrom(repo, key).Next? ==> (Exported(repo, key) <==> Exported(repo, HopFrom(repo, key).key))
  {
    hide HopFrom;
    if HopFrom(repo, key).Found? {
      assert EndsWithin(repo, key, 0);
    }
    if HopFrom(repo, key).Next? {
      var k := HopFrom(repo, key).key;
      if Exported(repo, k) {
        var n: nat :| EndsWithin(repo, k, n);
        assert EndsWithin(repo, key, n + 1);
      }
      if Exported(repo, key) {
        var n: nat :| EndsWithin(repo, key, n);
        assert n > 0 && EndsWithin(repo, k, n - 1);
      }
    }
  }

  /** `trail` is the part of the chain that has been followed so far, up to `key`. */
  ghost predicate Trail(repo: Repo, trail: seq<Key>, key: Key) {
    && (forall i :: 0 <= i < |trail| - 1 ==> HopFrom(repo, trail[i]) == Next(trail[i + 1]))
    && (trail != [] ==> HopFrom(repo, trail[|trail| - 1]) == Next(key))
  }

  /** A chain that comes back to a key on its trail goes round forever. */
  lemma {:induction false} LoopNeverEnds(repo: Repo, trail: seq<Key>, key: Key, j: nat, i: nat, n: nat)
    requires Trail(repo, trail, key) && j <= i < |trail| && trail[j] == key
    ensures !EndsWithin(repo, trail[i], n)
    decreases n
  {
    hide HopFrom;
    var next := if i + 1 < |trail| then i + 1 else j;
    assert HopFrom(repo, trail[i]) == Next(trail[next]);
    if n > 0 {
      LoopNeverEnds(repo, trail, key, j, next, n - 1);
    }
  }

  lemma TrailExtends(repo: Repo, trail: seq<Key>, key: Key, next: Key)
    requires Trail(repo, trail, key) && HopFrom(repo, key) == Next(next)
    ensures Trail(repo, trail + [key], next)
    ensures (set k | k in trail + [key]) == (set k | k in trail) + {key}
  {
    hide HopFrom;
  }

  lemma RevisitNotExported(repo: Repo, trail: seq<Key>, key: Key)
    requires Trail(repo, trail, key) && key in trail
    ensures !Exported(repo, key)
  {
    var j :| 0 <= j < |trail| && trail[j] == key;
    forall n: nat ensures !EndsWithin(repo, key, n) {
      LoopNeverEnds(repo, trail, key, j, j, n);
    }
  }

  // ---- termination ---------------------------------------------------------------------------------------

  /** Every key that some file passes a name on to. */
  ghost function Targets(repo: Repo): set<Key> {
    set place, name | place in repo.parsed && name in ExportsAt(repo, place)
                      && IsPassedOn(ExportsAt(repo, place)[name]) :: TargetKey(ExportsAt(repo, place)[name])
  }

  function ExportsAt(repo: Repo, place: Place): map<string, Binding>
    requires place in repo.parsed
  {
    InfoFrom(ReaderOf(place), repo.parsed[place]).exports
  }

  predicate IsPassedOn(b: Binding) {
    b.Alias? && b.targetName.Some?
  }

  function TargetKey(b: Binding): Key
    requires IsPassedOn(b)
  {
    Key(b.targetModule, b.targetName.value)
  }

  lemma NextIsTarget(repo: Repo, key: Key)
    requires HopFrom(repo, key).Next?
    ensures HopFrom(repo, key).key in Targets(repo)
  {
    hide Split, DropEmpty, IsHost, InfoFrom;
    var place := Locate(repo, key.moduleName).value;
    assert place in repo.parsed && key.name in ExportsAt(repo, place);
    assert TargetKey(ExportsAt(repo, place)[key.name]) == HopFrom(repo, key).key;
  }

  ghost function Unseen(repo: Repo, key: Key, seen: set<Key>): nat {
    |Targets(repo) + {key} - seen|
  }

  lemma SeenGrows(repo: Repo, key: Key, next: Key, seen: set<Key>)
    requires key !in seen && next in Targets(repo)
    ensures Unseen(repo, next, seen + {key}) < Unseen(repo, key, seen)
  {
    var before, after := Targets(repo) + {key} - seen, Targets(repo) + {next} - (seen + {key});
    assert after <= before - {key};
    SubsetSize(after, before - {key});
    assert |before - {key}| == |before| - 1;
  }

  // ---- the index -------------------------------------------------------------------------------------------

  datatype Resolution = Resolved | NoModule | AnalysisFailed | NoEntity

  class HostRepositoryIndex {
    const repo: Repo
    var modulePaths: map<string, Option<Place>>
    var moduleInfos: map<string, Info>
    var moduleErrors: set<string>

    /** The caches agree with the repository. */
    ghost predicate Valid()
      reads this
    {
      && (forall m :: m in modulePaths ==> modulePaths[m] == Locate(repo, m))
      && (forall m :: m in moduleInfos ==> InfoOf(repo, m) == Some(moduleInfos[m]))
      && (forall m :: m in moduleErrors ==> Unreadable(repo, m))
    }

    constructor (repo: Repo)
      ensures Valid() && this.repo == repo && modulePaths == map[] && moduleInfos == map[] && moduleErrors == {}
    {
      this.repo := repo;
      modulePaths, moduleInfos, moduleErrors := map[], map[], {};
    }

    method GetModulePath(name: string) returns (r: Option<Place>)
      requires Valid()
      modifies this`modulePaths
      ensures Valid() && r == Locate(repo, name)
      ensures modulePaths == old(modulePaths)[name := r]
    {
      if name in modulePaths {
        assert modulePaths == modulePaths[name := modulePaths[name]];
        return modulePaths[name];
      }
      var parts := Split(name, '.');
      if parts[0] !in HOST_MODULE_ROOTS {
        r := None;
      } else if parts[0] == "config" {
        r := if parts == ["config"] then Some(SourceFile(parts)) else None;
        if r.Some? && r.value !in repo.places {
          r := None;
        }
      } else {
        var base := DropEmpty(parts);
        if SourceFile(base) in repo.places {
          r := Some(SourceFile(base));
        } else if PackageInit(base) in repo.places {
          r := Some(PackageInit(base));
        } else if Directory(base) in repo.places {
          r := Some(Directory(base));
        } else {
          r := None;
        }
      }
      modulePaths := modulePaths[name := r];
    }

    method GetModuleInfo(name: string) returns (r: Option<Info>)
      requires Valid()
      modifies this
      ensures Valid() && r == InfoOf(repo, name)
      ensures r.None? && ModuleExists(repo, name) ==> name in moduleErrors
      ensures old(moduleErrors) <= moduleErrors
    {
      hide Locate, InfoFrom;
      if name in moduleInfos {
        return Some(moduleInfos[name]);
      }
      var place := GetModulePath(name);
      if place.None? {
        return None;
      }
      if place.value.Directory? {
        moduleInfos := moduleInfos[name := Info(map[], {})];
        return Some(Info(map[], {}));
      }
      if place.value !in repo.parsed {
        moduleErrors := moduleErrors + {name};
        return None;
      }
      var info := ReadModule(ReaderOf(place.value), repo.parsed[place.value]);
      moduleInfos := moduleInfos[name := info];
      return Some(info);
    }

    /** `_has_export`. `trail` is the chain that filled `seen`. */
    method HasExportFrom(key: Key, seen: set<Key>, ghost trail: seq<Key>) returns (found: bool)
      requires Valid() && Trail(repo, trail, key) && seen == (set k | k in trail)
      modifies this
      ensures Valid() && old(moduleErrors) <= moduleErrors
      ensures found <==> Exported(repo, key)
      ensures key !in seen && Unreadable(repo, key.moduleName) ==> key.moduleName in moduleErrors
      decreases Unseen(repo, key, seen)
    {
      hide Locate, IsHost, EndsWithin, Exported, Trail, Unseen, Targets;
      if key in seen {
        RevisitNotExported(repo, trail, key);
        return false;
      }
      ExportedHop(repo, key);
      var info := GetModuleInfo(key.moduleName);
      if info.None? {
        return false;
      }
      if key.name in info.value.dynamicExports {
        return true;
      }
      if key.name !in info.value.exports {
        return false;
      }
      var binding := info.value.exports[key.name];
      if binding.Concrete? {
        return true;
      }
      if !IsHost(binding.targetModule) {
        return true;
      }
      if binding.targetName.None? {
        var place := GetModulePath(binding.targetModule);
        return place.Some?;
      }
      if binding.targetModule != "config" {
        var place := GetModulePath(Submodule(binding.targetModule, binding.targetName.value));
        if place.Some? {
          return true;
        }
      }
      var next := Key(binding.targetModule, binding.targetName.value);
      assert HopFrom(repo, key) == Next(next);
      NextIsTarget(repo, key);
      SeenGrows(repo, key, next, seen);
      TrailExtends(repo, trail, key, next);
      found := HasExportFrom(next, seen + {key}, trail + [key]);
    }

    /** The longest prefix of the attributes that names host modules, and the attribute after it. */
    method DependencyForAttributeChain(baseModule: string, attributes: seq<string>) returns (r: (string, Option<string>))
      requires Valid()
      modifies this
      ensures Valid()
      ensures exists k :: StopsAt(repo, baseModule, attributes, k, r)
    {
      hide Locate;
      var current := baseModule;
      for i := 0 to |attributes|
        invariant Valid() && current == Below(baseModule, attributes, i) && AllModules(repo, baseModule, attributes, i)
      {
        var candidate := Submodule(current, attributes[i]);
        if current != "config" {
          var place := GetModulePath(candidate);
          if place.Some? {
            current := candidate;
            continue;
          }
        }
        r := (current, Some(attributes[i]));
        assert StopsAt(repo, baseModule, attributes, i, r);
        return;
      }
      r := (current, None);
      assert StopsAt(repo, baseModule, attributes, |attributes|, r);
    }

    method HasExplicitExport(name: string, entity: string) returns (found: bool)
      requires Valid()
      modifies this
      ensures Valid()
      ensures found <==> ModuleExists(repo, name) && Exported(repo, Key(name, entity))
    {
      var place := GetModulePath(name);
      if place.None? {
        return false;
      }
      found := HasExportFrom(Key(name, entity), {}, []);
    }

    method Resolve(name: string, entity: Option<string>) returns (r: Resolution)
      requires Valid()
      modifies this
      ensures Valid()
      ensures r == NoModule <==> !ModuleExists(repo, name)
      ensures r == Resolved <==>
                && ModuleExists(repo, name)
                && (entity.None?
                    || (name != "config" && ModuleExists(repo, Submodule(name, entity.value)))
                    || Exported(repo, Key(name, entity.value)))
      ensures r == AnalysisFailed ==> Unreadable(repo, name)
      ensures r == NoEntity ==> !Unreadable(repo, name)
    {
      var place := GetModulePath(name);
      if place.None? {
        return NoModule;
      }
      if entity.None? {
        return Resolved;
      }
      if name != "config" {
        var child := GetModulePath(Submodule(name, entity.value));
        if child.Some? {
          return Resolved;
        }
      }
      var found := HasExportFrom(Key(name, entity.value), {}, []);
      if found {
        return Resolved;
      }
      return if name in moduleErrors then AnalysisFailed else NoEntity;
    }
  }
}
