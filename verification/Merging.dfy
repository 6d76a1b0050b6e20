/** The module manager itself (include/frontend/module_manager.hpp, src/frontend/module_manager.cpp):
    the resolving walk over its fields, and the merge that puts every import before its importer. */
module Merging {
  import opened Modules
  import opened Combining
  import opened ImportPaths

  // ---------------------------------------------------------------- from resolving to merging

  /** The modules after those of `names` that have a file have been loaded. */
  function Preloaded(disk: Disk, modules: map<Name, File>, names: seq<Name>): map<Name, File>
    decreases |names|
  {
    if names == [] then modules
    else if names[0] in disk.found && names[0] !in modules then
      Preloaded(disk, modules[disk.found[names[0]].name := disk.found[names[0]]], names[1..])
    else Preloaded(disk, modules, names[1..])
  }

  /** Of the names of `area`, an import path that has a file has the file's name for its base name,
      and one that has none has the base name of no file and of nothing loaded beforehand. */
  ghost predicate PathsNameFiles(disk: Disk, area: iset<Name>, pre: map<Name, File>) {
    forall n, i | n in area && n in disk.found && 0 <= i < |disk.found[n].imports| ::
      PathNamesFile(disk, area, pre, Unquoted(disk.found[n].imports[i]))
  }

  ghost predicate PathNamesFile(disk: Disk, area: iset<Name>, pre: map<Name, File>, path: Name) {
    if path in disk.found then disk.found[path].name == BaseName(path)
    else BaseName(path) !in pre && forall n | n in area && n in disk.found :: disk.found[n].name != BaseName(path)
  }

  /** No two files of the area are registered under one name. */
  ghost predicate OneFileEach(disk: Disk, area: iset<Name>) {
    forall m, n | m in area && n in area && m in disk.found && n in disk.found
               && disk.found[m].name == disk.found[n].name ::
      m == n
  }

  /** What is loaded under the name of a file of the area has the content of that file. */
  ghost predicate SameContents(disk: Disk, area: iset<Name>, modules: map<Name, File>) {
    forall n | n in area && n in disk.found && disk.found[n].name in modules ::
      modules[disk.found[n].name] == disk.found[n]
  }

  /** What a program can count on when each module has one file: the names that it reaches, and what
      was loaded beforehand, do not get in each other's way. */
  ghost predicate NamesApart(disk: Disk, main: Name, pre: map<Name, File>) {
    var area := Reachable(disk, main);
    && NoneHides(disk, area) && OneFileEach(disk, area)
    && Settled(disk, area, {}, pre) && PathsNameFiles(disk, area, pre)
  }

  /** What the files on a path are registered under. */
  ghost predicate Registers(disk: Disk, p: seq<Name>, chain: seq<Name>) {
    |p| == |chain| && forall i | 0 <= i < |p| :: p[i] in disk.found && disk.found[p[i]].name == chain[i]
  }

  /** The loaded modules as they are after a walk: what the area leads to, and what was there. */
  ghost predicate LoadedFrom(disk: Disk, area: iset<Name>, pre: map<Name, File>, modules: map<Name, File>) {
    && SameContents(disk, area, modules)
    && forall name | name in modules :: name in pre || RegisteredIn(disk, area, name)
  }

  ghost predicate RegisteredIn(disk: Disk, area: iset<Name>, name: Name) {
    exists n :: n in area && n in disk.found && disk.found[n].name == name
  }

  /** A chain of imports among the loaded modules is a path of imports on the disk. */
  lemma {:induction false} ChainIsPath(disk: Disk, area: iset<Name>, pre: map<Name, File>, modules: map<Name, File>,
        chain: seq<Name>, n: Name) returns (p: seq<Name>)
    requires Closed(disk, area) && PathsNameFiles(disk, area, pre) && LoadedFrom(disk, area, pre, modules)
    requires IsChain(modules, chain) && n in area && n in disk.found && disk.found[n].name == chain[0]
    ensures IsPath(disk, p) && p[0] == n && Registers(disk, p, chain) && forall i | 0 <= i < |p| :: p[i] in area
    decreases |chain|
  {
    if |chain| == 1 {
      return [n];
    }
    assert Imports(modules, chain[0], chain[1]);
    var f := modules[chain[0]];
    var k :| 0 <= k < |f.imports| && Dependency(f, k) == chain[1];
    var path := Unquoted(f.imports[k]);
    assert f == disk.found[n] && PathNamesFile(disk, area, pre, path);
    assert AllUnquoted(f.imports)[k] == path && path == Requests(f)[k];
    assert chain[1] in pre || RegisteredIn(disk, area, chain[1]);
    assert path in disk.found && Follows(disk, n, path);
    var rest := chain[1..];
    assert forall i | 0 < i < |rest| :: rest[i - 1] == chain[i] && rest[i] == chain[i + 1];
    var q := ChainIsPath(disk, area, pre, modules, rest, path);
    PathGrows(disk, n, q);
    p := [n] + q;
    assert forall i | 0 < i < |p| :: p[i] == q[i - 1] && chain[i] == rest[i - 1];
  }

  lemma ResolvedIsLoaded(disk: Disk, pre: map<Name, File>, main: Name)
    requires NamesApart(disk, main, pre) && main in disk.found && Walk(disk, {}, pre, main).error.None?
    ensures LoadedFrom(disk, Reachable(disk, main), pre, Walk(disk, {}, pre, main).modules)
  {
    var area, modules := Reachable(disk, main), Walk(disk, {}, pre, main).modules;
    forall name | name in modules && name !in pre ensures RegisteredIn(disk, area, name) {
      LoadsWhatItReaches(disk, {}, pre, main, name);
    }
    forall n | n in area && n in disk.found && disk.found[n].name in modules
      ensures modules[disk.found[n].name] == disk.found[n]
    {
      LoadsWhatItReaches(disk, {}, pre, main, disk.found[n].name);
    }
  }

  /** After a normal resolution the loaded modules can be merged exactly when no module of those
      that were loaded beforehand, without being resolved, starts a circle of imports. */
  lemma ResolvedIsMergeable(disk: Disk, pre: map<Name, File>, main: Name)
    requires NamesApart(disk, main, pre) && main in disk.found && Walk(disk, {}, pre, main).error.None?
    ensures var modules := Walk(disk, {}, pre, main).modules;
            && NoCircles(modules) <==> (forall p | IsChain(modules, p) && p[0] in pre :: Distinct(p))
    ensures pre == map[] ==> NoCircles(Walk(disk, {}, pre, main).modules)
  {
    var area, modules := Reachable(disk, main), Walk(disk, {}, pre, main).modules;
    ReachableIsClosed(disk, main);
    WalkIff(disk, area, {}, pre, main);
    ResolvedIsLoaded(disk, pre, main);
    forall chain | IsChain(modules, chain) && chain[0] !in pre ensures Distinct(chain) {
      assert RegisteredIn(disk, area, chain[0]);
      var n :| n in area && n in disk.found && disk.found[n].name == chain[0];
      var p := ChainIsPath(disk, area, pre, modules, chain, n);
      ReachedIsClean(disk, main, p[0]);
      assert PathClean(disk, {}, p);
      assert forall i, j | 0 <= i < j < |p| :: p[i] != p[j] && p[i] in area && p[j] in area;
    }
  }

  /** So after a normal resolution the merge of a program with its prelude comes to an end exactly
      when no prelude module starts a circle of imports. */
  lemma CompiledEndsIff(disk: Disk, main: Name, todo: seq<Part>)
    requires var pre := Preloaded(disk, map[], BUILTINS);
      NamesApart(disk, main, pre) && main in disk.found && Walk(disk, {}, pre, main).error.None?
    requires InOrder(Walk(disk, {}, Preloaded(disk, map[], BUILTINS), main).modules, main, todo)
    ensures var pre := Preloaded(disk, map[], BUILTINS);
      var modules := Walk(disk, {}, pre, main).modules;
      (exists depth: nat :: MergeAll(depth, modules, [], todo).Done?)
      <==> forall p | IsChain(modules, p) && p[0] in pre :: Distinct(p)
  {
    var pre := Preloaded(disk, map[], BUILTINS);
    ResolvedIsMergeable(disk, pre, main);
    MergeEndsIff(Walk(disk, {}, pre, main).modules, todo);
  }

  /** The resolution does not look at the imports of the prelude: a circle among them passes it in a
      program that imports nothing, and the merge does not end. */
  lemma PreludeEscapesCycleCheck(disk: Disk, main: Name, p: seq<Name>, depth: nat, todo: seq<Part>)
    requires var pre := Preloaded(disk, map[], BUILTINS); main !in pre && IsChain(pre, p) && !Distinct(p)
    requires main in disk.found && disk.found[main] == File(main, [], [])
    requires InOrder(Walk(disk, {}, Preloaded(disk, map[], BUILTINS), main).modules, main, todo)
    ensures var r := Walk(disk, {}, Preloaded(disk, map[], BUILTINS), main);
            r.error.None? && MergeAll(depth, r.modules, [], todo).TooDeep?
  {
    var pre := Preloaded(disk, map[], BUILTINS);
    LeafWalk(disk, {}, pre, main);
    var modules := Walk(disk, {}, pre, main).modules;
    forall i | 0 < i < |p| ensures Imports(modules, p[i - 1], p[i]) {
      assert Imports(pre, p[i - 1], p[i]);
    }
    assert IsChain(modules, p);
    MergeEndsIff(modules, todo);
  }

  lemma {:induction false} PreloadedHas(disk: Disk, modules: map<Name, File>, names: seq<Name>)
    requires forall i | 0 <= i < |names| && names[i] in disk.found :: disk.found[names[i]].name == names[i]
    requires forall n | n in modules :: n in disk.found && modules[n] == disk.found[n]
    ensures var pre := Preloaded(disk, modules, names);
            && (forall n :: n in pre <==> n in modules || (n in names && n in disk.found))
            && forall n | n in pre :: pre[n] == disk.found[n]
    decreases |names|
  {
    if names == [] {
    } else {
      var n := names[0];
      var more := if n in disk.found && n !in modules then modules[n := disk.found[n]] else modules;
      PreloadedHas(disk, more, names[1..]);
      assert forall m :: m in names <==> m == n || m in names[1..];
    }
  }

  lemma BuiltinsAreBare()
    ensures forall b | b in BUILTINS :: IsBare(b)
  {
  }

  /** The input: the standard library's `strings` and `grammar` import each other, and the program is
      a file without imports. */
  lemma PreludeCircle(disk: Disk, main: Name, depth: nat, todo: seq<Part>)
    requires var a, b := BUILTINS[0], BUILTINS[1];
      && a in disk.found && disk.found[a] == File(a, [b], [])
      && b in disk.found && disk.found[b] == File(b, [a], [])
      && (BUILTINS[2] in disk.found ==> disk.found[BUILTINS[2]].name == BUILTINS[2])
    requires main !in BUILTINS && main in disk.found && disk.found[main] == File(main, [], [])
    requires InOrder(Walk(disk, {}, Preloaded(disk, map[], BUILTINS), main).modules, main, todo)
    ensures var r := Walk(disk, {}, Preloaded(disk, map[], BUILTINS), main);
            r.error.None? && MergeAll(depth, r.modules, [], todo).TooDeep?
  {
    var a, b := BUILTINS[0], BUILTINS[1];
    var pre := Preloaded(disk, map[], BUILTINS);
    PreloadedHas(disk, map[], BUILTINS);
    BuiltinsAreBare();
    MutualImports(pre, a, b);
    var p :| IsChain(pre, p) && !Distinct(p);
    PreludeEscapesCycleCheck(disk, main, p, depth, todo);
  }

  /** Two modules that import each other by their bare names are such a circle. */
  lemma MutualImports(modules: map<Name, File>, a: Name, b: Name)
    requires a in modules && b in modules && modules[a].imports == [b] && modules[b].imports == [a]
    requires IsBare(a) && IsBare(b)
    ensures exists p :: IsChain(modules, p) && !Distinct(p)
  {
    BareName(a);
    BareName(b);
    assert Dependency(modules[a], 0) == b && Dependency(modules[b], 0) == a;
    assert Imports(modules, a, b) && Imports(modules, b, a);
    NeedsSelf(modules, a);
    NeedsStep(modules, b, a, a);
    BackIsCircle(modules, a, b);
  }

  /** The calls for the first `i` imports of `n` turn `before` into `parts`. */
  ghost predicate ImportsMerged(depth: nat, modules: map<Name, File>, before: seq<Part>, n: Name, i: nat,
        parts: seq<Part>) {
    && n in modules && i <= |modules[n].imports|
    && MergeAll(depth, modules, before, Dependencies(modules[n])[..i]) == Done(parts)
  }

  lemma ImportIsCalled(modules: map<Name, File>, stack: seq<Name>, n: Name, i: nat)
    requires n in modules && i < |modules[n].imports| && IsChain(modules, stack + [n])
    ensures CalledFrom(modules, stack + [n], Dependency(modules[n], i))
  {
    assert (stack + [n])[|stack|] == n;
  }

  /** One more import of `n`, for which there is a call if the module is loaded. */
  lemma ImportStep(depth: nat, modules: map<Name, File>, before: seq<Part>, n: Name, i: nat, parts: seq<Part>,
        more: seq<Part>)
    requires ImportsMerged(depth, modules, before, n, i, parts) && i < |modules[n].imports| && depth > 0
    requires var d := Dependency(modules[n], i);
      if d in modules then MergeOne(depth, modules, parts, Part(d, false)) == Done(more) else more == parts
    ensures ImportsMerged(depth, modules, before, n, i + 1, more)
  {
    var d, todo := Dependency(modules[n], i), Dependencies(modules[n]);
    assert todo[..i + 1] == todo[..i] + [Part(d, false)];
    MergeNext(depth, modules, before, todo[..i], Part(d, false));
  }

  /** After its imports, the module itself. */
  lemma ImportsDone(depth: nat, modules: map<Name, File>, before: seq<Part>, part: Part, parts: seq<Part>)
    requires part.name in modules && !Merged(before, part.name)
    requires ImportsMerged(depth, modules, before, part.name, |modules[part.name].imports|, parts)
    ensures MergeOne(depth + 1, modules, before, part) == Done(parts + [part])
    ensures forall x :: Merged(parts + [part], x) <==> Merged(parts, x) || x == part.name
  {
    var todo := Dependencies(modules[part.name]);
    assert todo[..|modules[part.name].imports|] == todo;
    OneMoreMerged(parts, part);
  }

  lemma MergedInOrder(modules: map<Name, File>, main: Name, todo: seq<Part>, parts: seq<Part>)
    requires NoCircles(modules) && InOrder(modules, main, todo)
    requires MergeAll(|modules| + 1, modules, [], todo) == Done(parts)
    ensures Once(parts) && PathsFirst(modules, parts)
  {
    CombinedOrder(|modules| + 1, modules, main, todo);
    ImportsByPathFirst(modules, parts);
  }

  class ModuleManager {
    const disk: Disk
    var modules: map<Name, File>
    var visited: set<Name>
    var processed: set<Name>
    var combined: seq<Part>

    constructor (disk: Disk)
      ensures this.disk == disk && modules == map[] && visited == {} && processed == {} && combined == []
    {
      this.disk := disk;
      modules, visited, processed, combined := map[], {}, {}, [];
    }

    method LoadModule(n: Name) returns (loaded: Option<Name>)
      modifies `modules
      ensures var l := Loaded(disk, old(modules), n);
              if l.None? then loaded.None? && modules == old(modules)
              else loaded == Some(l.value.0) && modules == l.value.1
    {
      if n in modules {
        return Some(n);
      }
      if n !in disk.found && n in disk.runtime {
        modules := modules[n := Virtual(n)];
        return Some(n);
      }
      if n !in disk.found {
        return None;
      }
      var file := disk.found[n];
      modules := modules[file.name := file];
      return Some(file.name);
    }

    method ResolveDependencies(n: Name) returns (error: Option<Error>)
      modifies `modules, `visited
      ensures Walked(visited, modules, error) == Walk(disk, old(visited), old(modules), n)
      decreases if n in disk.found then 0 else 1, disk.found.Keys - visited, 0, 0
    {
      if n in visited {
        return Some(Cycle(n));
      }
      visited := visited + {n};
      var loaded := LoadModule(n);
      if loaded.None? {
        return Some(Unreadable(n));
      }
      visited := visited + {loaded.value};
      assert visited == old(visited) + {n, loaded.value};
      var file := modules[loaded.value];
      ghost var start, ms := visited, modules;
      assert n in disk.found ==> n in (disk.found.Keys - old(visited)) && n !in (disk.found.Keys - visited);
      var requests := Asked(file);
      for i := 0 to |requests|
        invariant start <= visited
        invariant WalkAll(disk, start, ms, requests) == WalkAll(disk, visited, modules, requests[i..])
      {
        var d := requests[i];
        assert requests[i..][0] == d && requests[i..][1..] == requests[i + 1..];
        if d !in disk.found {
          if d !in disk.runtime {
            return Some(NotFound(d));
          }
        } else {
          assert disk.found.Keys - visited <= disk.found.Keys - start;
          error := ResolveDependencies(d);
          if error.Some? {
            return;
          }
        }
      }
      assert requests[|requests|..] == [];
      visited := visited - {n};
      error := None;
    }

    /** The two lists that `resolve_dependencies` goes through, one after the other. */
    method Asked(file: File) returns (requests: seq<Name>)
      ensures requests == Requests(file)
    {
      var imports: seq<Name> := [];
      for i := 0 to |file.imports|
        invariant imports == AllUnquoted(file.imports)[..i]
      {
        imports := imports + [Unquoted(file.imports[i])];
      }
      requests := imports;
      assert imports == AllUnquoted(file.imports) && file.dependencies[0..] == file.dependencies;
      for i := 0 to |file.dependencies|
        invariant requests + Remaining(imports, file.dependencies[i..]) == Requests(file)
      {
        var dep := file.dependencies[i];
        assert file.dependencies[i..][0] == dep && file.dependencies[i..][1..] == file.dependencies[i + 1..];
        if dep !in imports {
          assert requests + ([Unquoted(dep)] + Remaining(imports, file.dependencies[i + 1..]))
              == requests + [Unquoted(dep)] + Remaining(imports, file.dependencies[i + 1..]);
          requests := requests + [Unquoted(dep)];
        } else {
          assert [] + Remaining(imports, file.dependencies[i + 1..]) == Remaining(imports, file.dependencies[i + 1..]);
        }
      }
    }

    /** `processed` are the merged modules. */
    ghost predicate Merging()
      reads `processed, `combined
    {
      forall x :: x in processed <==> Merged(combined, x)
    }

    method ProcessModule(n: Name, isMain: bool, ghost stack: seq<Name>)
      requires NoCircles(modules) && Merging() && CalledFrom(modules, stack, n) && |stack| <= |modules|
      modifies `processed, `combined
      ensures Merging() && MergeOne(|modules| + 1 - |stack|, modules, old(combined), Part(n, isMain)) == Done(combined)
      decreases |modules| - |stack|
    {
      if n in processed || n !in modules {
        return;
      }
      var file := modules[n];
      StackBound(modules, stack, n);
      ghost var depth, before := |modules| - |stack|, combined;
      for i := 0 to |file.imports|
        invariant Merging() && ImportsMerged(depth, modules, before, n, i, combined)
      {
        var d := Dependency(file, i);
        ghost var parts := combined;
        if d in modules {
          ImportIsCalled(modules, stack, n, i);
          ProcessModule(d, false, stack + [n]);
        }
        ImportStep(depth, modules, before, n, i, parts, combined);
      }
      ImportsDone(depth, modules, before, Part(n, isMain), combined);
      combined := combined + [Part(n, isMain)];
      processed := processed + {n};
    }

    /** `compile_module`: the prelude is loaded without looking at what it imports, then the main
        module is resolved. */
    method CompileModule(main: Name, withStdlib: bool) returns (error: Option<Error>)
      requires modules == map[] && visited == {}
      modifies `modules, `visited
      ensures Walked(visited, modules, error)
           == Walk(disk, {}, if withStdlib then Preloaded(disk, map[], BUILTINS) else map[], main)
    {
      if withStdlib {
        assert BUILTINS[0..] == BUILTINS;
        for i := 0 to |BUILTINS|
          invariant visited == {}
          invariant Preloaded(disk, map[], BUILTINS) == Preloaded(disk, modules, BUILTINS[i..])
        {
          var b := BUILTINS[i];
          assert BUILTINS[i..][0] == b && BUILTINS[i..][1..] == BUILTINS[i + 1..];
          if b in disk.found && b !in modules {
            var loaded := LoadModule(b);
          }
        }
        assert BUILTINS[|BUILTINS|..] == [];
      }
      error := ResolveDependencies(main);
    }

    /** `get_combined_ast` on loaded modules without import circles. What the calls amount to is
        `CombinedOrder`; with a circle they would not end (`MergeEndsIff`). */
    method GetCombined(main: Name) returns (ghost todo: seq<Part>)
      requires NoCircles(modules)
      modifies `processed, `combined
      ensures Merging() && InOrder(modules, main, todo)
      ensures MergeAll(|modules| + 1, modules, [], todo) == Done(combined)
      ensures Once(combined) && PathsFirst(modules, combined)
    {
      processed, combined := {}, [];
      if main != "" && main in modules {
        MergeMain(main);
      }
      todo := MergeRest(main == "", Leading(modules, main));
      MergedInOrder(modules, main, todo, combined);
    }

    method MergeMain(main: Name)
      requires NoCircles(modules) && main in modules && processed == {} && combined == []
      modifies `processed, `combined
      ensures Merging() && MergeAll(|modules| + 1, modules, [], Prelude() + [Part(main, true)]) == Done(combined)
    {
      MergePrelude();
      MergeNext(|modules| + 1, modules, [], Prelude(), Part(main, true));
      ProcessModule(main, true, []);
    }

    method MergePrelude()
      requires NoCircles(modules) && processed == {} && combined == []
      modifies `processed, `combined
      ensures Merging() && MergeAll(|modules| + 1, modules, [], Prelude()) == Done(combined)
    {
      for i := 0 to |BUILTINS|
        invariant Merging() && MergeAll(|modules| + 1, modules, [], Prelude()[..i]) == Done(combined)
      {
        assert Prelude()[..i + 1] == Prelude()[..i] + [Part(BUILTINS[i], false)];
        MergeNext(|modules| + 1, modules, [], Prelude()[..i], Part(BUILTINS[i], false));
        if BUILTINS[i] in modules {
          ProcessModule(BUILTINS[i], false, []);
        }
      }
      assert Prelude()[..|BUILTINS|] == Prelude();
    }

    method MergeRest(isMain: bool, ghost done: seq<Part>) returns (ghost todo: seq<Part>)
      requires NoCircles(modules) && Merging() && MergeAll(|modules| + 1, modules, [], done) == Done(combined)
      modifies `processed, `combined
      ensures Merging() && MergeAll(|modules| + 1, modules, [], todo) == Done(combined)
      ensures done <= todo && forall i | |done| <= i < |todo| :: todo[i].isMain == isMain
      ensures forall x | x in modules :: Merged(todo, x)
    {
      var remaining := modules.Keys;
      todo := done;
      while remaining != {}
        invariant Merging() && MergeAll(|modules| + 1, modules, [], todo) == Done(combined)
        invariant done <= todo && forall i | |done| <= i < |todo| :: todo[i].isMain == isMain
        invariant remaining <= modules.Keys && forall x | x in modules && x !in remaining :: Merged(todo, x)
      {
        var n :| n in remaining;
        MergeNext(|modules| + 1, modules, [], todo, Part(n, isMain));
        ProcessModule(n, isMain, []);
        OneMoreMerged(todo, Part(n, isMain));
        todo := todo + [Part(n, isMain)];
        remaining := remaining - {n};
      }
    }
  }
}
