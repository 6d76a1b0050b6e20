/** Module resolution and the merge of the loaded modules (src/frontend/module_manager.cpp).
    The disk is given: which requested names have a file, what the file declares and imports,
    and which names are runtime modules without a file. */
module Modules {

  type Name = string

  datatype Option<T> = None | Some(value: T)

  datatype File = File(name: Name, imports: seq<Name>, dependencies: seq<Name>)

  datatype Disk = Disk(found: map<Name, File>, runtime: set<Name>)

  datatype Error = Cycle(name: Name) | NotFound(name: Name) | Unreadable(name: Name)

  datatype Walked = Walked(visited: set<Name>, modules: map<Name, File>, error: Option<Error>)

  function Unquoted(s: string): string {
    if s == "" then "" else (if s[0] == '"' then "" else [s[0]]) + Unquoted(s[1..])
  }

  function AllUnquoted(xs: seq<Name>): (r: seq<Name>)
    ensures |r| == |xs| && forall i | 0 <= i < |xs| :: r[i] == Unquoted(xs[i])
  {
    if xs == [] then [] else [Unquoted(xs[0])] + AllUnquoted(xs[1..])
  }

  /** The old-style dependencies that no import covers, in order. */
  function Remaining(imports: seq<Name>, dependencies: seq<Name>): seq<Name> {
    if dependencies == [] then []
    else
      (if dependencies[0] in imports then [] else [Unquoted(dependencies[0])])
      + Remaining(imports, dependencies[1..])
  }

  /** What a loaded module asks for: its imports, then the dependencies they do not cover. */
  function Requests(f: File): seq<Name> {
    var imports := AllUnquoted(f.imports);
    imports + Remaining(imports, f.dependencies)
  }

  function Virtual(n: Name): File { File(n, [], []) }

  /** `load_module`: the name registered and the modules afterwards, or nothing when there is
      neither a file nor a runtime module. */
  function Loaded(disk: Disk, modules: map<Name, File>, n: Name): Option<(Name, map<Name, File>)> {
    if n in modules then Some((n, modules))
    else if n in disk.found then Some((disk.found[n].name, modules[disk.found[n].name := disk.found[n]]))
    else if n in disk.runtime then Some((n, modules[n := Virtual(n)]))
    else None
  }

  /** `resolve_dependencies` as a function of the two fields it changes. */
  function Walk(disk: Disk, visited: set<Name>, modules: map<Name, File>, n: Name): (r: Walked)
    ensures r.error.None? ==> visited <= r.visited
    decreases if n in disk.found then 0 else 1, disk.found.Keys - visited, 0, 0
  {
    if n in visited then Walked(visited, modules, Some(Cycle(n)))
    else
      match Loaded(disk, modules, n)
      case None => Walked(visited + {n}, modules, Some(Unreadable(n)))
      case Some((name, ms)) =>
        var inside := visited + {n, name};
        assert n in disk.found ==> n in (disk.found.Keys - visited) && n !in (disk.found.Keys - inside);
        var rest := WalkAll(disk, inside, ms, Requests(ms[name]));
        if rest.error.Some? then rest else Walked(rest.visited - {n}, rest.modules, None)
  }

  function WalkAll(disk: Disk, visited: set<Name>, modules: map<Name, File>, requests: seq<Name>): (r: Walked)
    ensures r.error.None? ==> visited <= r.visited
    decreases 0, disk.found.Keys - visited, 1, |requests|
  {
    if requests == [] then Walked(visited, modules, None)
    else if requests[0] !in disk.found then
      if requests[0] in disk.runtime then WalkAll(disk, visited, modules, requests[1..])
      else Walked(visited, modules, Some(NotFound(requests[0])))
    else
      var first := Walk(disk, visited, modules, requests[0]);
      if first.error.Some? then first
      else
        assert disk.found.Keys - first.visited <= disk.found.Keys - visited;
        WalkAll(disk, first.visited, first.modules, requests[1..])
  }

  lemma {:induction false} UnquotedOnce(s: string)
    ensures '"' !in Unquoted(s)
    ensures '"' !in s ==> Unquoted(s) == s
  {
    if s == "" {
    } else {
      UnquotedOnce(s[1..]);
    }
  }

  /** No import, without its quotes, is that text. */
  predicate Uncovered(f: File, text: string) {
    text !in AllUnquoted(f.imports)
  }

  /** A module asks for what its imports and its dependencies spell ... */
  lemma RequestsIff(f: File, d: Name)
    ensures d in Requests(f) <==> exists text :: text in f.imports + f.dependencies && Unquoted(text) == d
  {
    var imports := AllUnquoted(f.imports);
    RemainingIff(imports, f.dependencies, d);
    ImportsIff(f.imports, d);
    forall text | text in f.dependencies && Unquoted(text) == d ensures d in Requests(f) {
      CoveredIsAsked(f, text);
    }
  }

  lemma ImportsIff(imports: seq<Name>, d: Name)
    ensures d in AllUnquoted(imports) <==> exists text :: text in imports && Unquoted(text) == d
  {
    forall text | text in imports ensures Unquoted(text) in AllUnquoted(imports) {
      var i :| 0 <= i < |imports| && imports[i] == text;
      assert AllUnquoted(imports)[i] == Unquoted(text);
    }
    if d in AllUnquoted(imports) {
      var i :| 0 <= i < |imports| && AllUnquoted(imports)[i] == d;
      assert imports[i] in imports && Unquoted(imports[i]) == d;
    }
  }

  lemma CoveredIsAsked(f: File, text: string)
    requires text in f.dependencies
    ensures Unquoted(text) in Requests(f)
  {
    var imports := AllUnquoted(f.imports);
    RemainingIff(imports, f.dependencies, Unquoted(text));
    if text in imports {
      var i :| 0 <= i < |imports| && imports[i] == text;
      UnquotedOnce(f.imports[i]);
      UnquotedOnce(text);
    }
  }

  /** A dependency that no import covers spells the name. */
  ghost predicate OnlyDependsOn(f: File, x: Name) {
    exists text :: text in f.dependencies && Uncovered(f, text) && Unquoted(text) == x
  }

  /** ... first for its imports, and then only for the dependencies that no import covers. */
  lemma ImportsAskedFirst(f: File)
    ensures Requests(f)[..|f.imports|] == AllUnquoted(f.imports)
    ensures forall i | |f.imports| <= i < |Requests(f)| :: OnlyDependsOn(f, Requests(f)[i])
  {
    var imports := AllUnquoted(f.imports);
    forall i | |f.imports| <= i < |Requests(f)| ensures OnlyDependsOn(f, Requests(f)[i]) {
      var x := Requests(f)[i];
      assert x == Remaining(imports, f.dependencies)[i - |f.imports|];
      RemainingIff(imports, f.dependencies, x);
      var text :| text in f.dependencies && text !in imports && Unquoted(text) == x;
      assert Uncovered(f, text);
    }
  }

  lemma {:induction false} RemainingIff(imports: seq<Name>, dependencies: seq<Name>, x: Name)
    ensures x in Remaining(imports, dependencies) <==>
            exists text :: text in dependencies && text !in imports && Unquoted(text) == x
  {
    if dependencies == [] {
    } else {
      RemainingIff(imports, dependencies[1..], x);
      assert forall text :: text in dependencies <==> text == dependencies[0] || text in dependencies[1..];
    }
  }

  /** What has been registered under a name stays so when it is asked for by that name again. */
  lemma LoadedAgain(disk: Disk, modules: map<Name, File>, n: Name)
    requires Loaded(disk, modules, n).Some?
    ensures var (name, after) := Loaded(disk, modules, n).value; Loaded(disk, after, name) == Some((name, after))
    ensures n in modules ==> Loaded(disk, modules, n).value.1 == modules
  {
  }

  /** A module that asks for nothing. */
  lemma LeafWalk(disk: Disk, visited: set<Name>, modules: map<Name, File>, n: Name)
    requires n !in visited && n !in modules && n in disk.found && Requests(disk.found[n]) == []
    ensures var r := Walk(disk, visited, modules, n);
            r.error.None? && r.visited == visited + {n, disk.found[n].name} - {n}
            && r.modules == modules[disk.found[n].name := disk.found[n]]
  {
    var name := disk.found[n].name;
    var ms := modules[name := disk.found[n]];
    assert Loaded(disk, modules, n) == Some((name, ms));
    assert WalkAll(disk, visited + {n, name}, ms, []) == Walked(visited + {n, name}, ms, None);
  }

  /** A name without a file: a runtime module is registered without contents, any other cannot be read. */
  lemma WalkWithoutFile(disk: Disk, visited: set<Name>, modules: map<Name, File>, n: Name)
    requires n !in disk.found && n !in visited && n !in modules
    ensures Walk(disk, visited, modules, n) ==
            if n in disk.runtime then Walked(visited, modules[n := File(n, [], [])], None)
            else Walked(visited + {n}, modules, Some(Unreadable(n)))
  {
    if n in disk.runtime {
      var ms := modules[n := Virtual(n)];
      assert Loaded(disk, modules, n) == Some((n, ms)) && Requests(ms[n]) == [];
      assert WalkAll(disk, visited + {n, n}, ms, []) == Walked(visited + {n, n}, ms, None);
      assert visited + {n, n} - {n} == visited;
    }
  }

  /** A module asked for as `./b` and then as `b` is reported as an import cycle, though nothing
      is imported in a cycle: `b` stayed behind in `visited`. */
  lemma StrayLooksLikeCycle(disk: Disk)
    requires disk.found ==
      map["main" := File("main", ["./b", "b"], []), "./b" := File("b", [], []), "b" := File("b", [], [])]
    ensures Walk(disk, {}, map[], "main").error == Some(Cycle("b"))
    ensures Walk(disk, {}, map[], "b").error == None && Walk(disk, {}, map[], "./b").error == None
  {
    assert Unquoted("b") == "b";
    assert Unquoted("./b") == "./b" by {
      assert "./b"[1..] == "/b" && "/b"[1..] == "b" && ['/'] + "b" == "/b" && ['.'] + "/b" == "./b";
    }
    assert Requests(File("b", [], [])) == [];
    assert Requests(disk.found["main"]) == ["./b", "b"];
    LeafWalk(disk, {}, map[], "b");
    LeafWalk(disk, {}, map[], "./b");
    var ms := map["main" := disk.found["main"]];
    LeafWalk(disk, {"main"}, ms, "./b");
    var first := Walk(disk, {"main"}, ms, "./b");
    assert "b" in first.visited;
    assert ["./b", "b"][1..] == ["b"];
    assert WalkAll(disk, first.visited, first.modules, ["b"]).error == Some(Cycle("b"));
    assert {} + {"main", "main"} == {"main"};
    assert Loaded(disk, map[], "main") == Some(("main", ms));
    assert WalkAll(disk, {"main"}, ms, ["./b", "b"]).error == Some(Cycle("b"));
  }

  // ---------------------------------------------------------------- the import graph

  /** No file of the area is asked for by two names: those that have a file are registered under
      themselves, or under a name that is not in the area. */
  ghost predicate OneNameEach(disk: Disk, area: iset<Name>) {
    forall n | n in area && n in disk.found :: disk.found[n].name == n || disk.found[n].name !in area
  }

  /** No file leads to another file that declares the name by which the first one is asked for. */
  ghost predicate NoneHides(disk: Disk, area: iset<Name>) {
    forall n, m | n in area && n in disk.found && m in area && m in disk.found
               && Reaches(disk, n, m) && disk.found[m].name == n ::
      disk.found[m] == disk.found[n]
  }

  /** What is loaded under a name of `area` that is not visited is the file that the name stands for. */
  ghost predicate Settled(disk: Disk, area: iset<Name>, visited: set<Name>, modules: map<Name, File>) {
    forall n | n in modules && n in area && n in disk.found && n !in visited ::
      disk.found[n].name == n && modules[n] == disk.found[n]
  }

  /** Imports do not lead out of `area`. */
  ghost predicate Closed(disk: Disk, area: iset<Name>) {
    forall n, d | n in area && Follows(disk, n, d) :: d in area
  }

  /** The names that imports lead to from `n`. */
  ghost function Reachable(disk: Disk, n: Name): iset<Name> {
    iset x | Reaches(disk, n, x)
  }

  predicate Missing(disk: Disk, n: Name) {
    n !in disk.found && n !in disk.runtime
  }

  function Content(disk: Disk, n: Name): File {
    if n in disk.found then disk.found[n] else Virtual(n)
  }

  /** One of the requests that a walk does not skip. */
  predicate Goes(disk: Disk, requests: seq<Name>, d: Name) {
    d in requests && (d in disk.found || d !in disk.runtime)
  }

  /** `d` is one of the modules that a walk of `n` goes on to. */
  predicate Follows(disk: Disk, n: Name, d: Name) {
    Goes(disk, Requests(Content(disk, n)), d)
  }

  ghost predicate IsPath(disk: Disk, p: seq<Name>) {
    p != [] && forall i | 0 < i < |p| :: Follows(disk, p[i - 1], p[i])
  }

  ghost predicate Distinct(p: seq<Name>) {
    forall i, j | 0 <= i < j < |p| :: p[i] != p[j]
  }

  /** No path of imports from `n` comes back to itself or to `visited`, and none ends at a module
      that does not exist. */
  ghost predicate Clean(disk: Disk, visited: set<Name>, n: Name) {
    forall p | IsPath(disk, p) && p[0] == n :: PathClean(disk, visited, p)
  }

  ghost predicate PathClean(disk: Disk, visited: set<Name>, p: seq<Name>)
    requires p != []
  {
    Distinct(p) && (forall i | 0 <= i < |p| :: p[i] !in visited) && !Missing(disk, p[|p| - 1])
  }

  ghost predicate Reaches(disk: Disk, n: Name, x: Name) {
    exists p :: IsPath(disk, p) && p[0] == n && p[|p| - 1] == x
  }

  lemma PathGrows(disk: Disk, n: Name, p: seq<Name>)
    requires IsPath(disk, p) && Follows(disk, n, p[0])
    ensures IsPath(disk, [n] + p) && ([n] + p)[0] == n && ([n] + p)[|p|] == p[|p| - 1]
  {
  }

  lemma PathShrinks(disk: Disk, p: seq<Name>)
    requires IsPath(disk, p) && |p| > 1
    ensures IsPath(disk, p[1..]) && Follows(disk, p[0], p[1])
  {
    assert forall i | 0 < i < |p[1..]| :: p[1..][i - 1] == p[i] && p[1..][i] == p[i + 1];
  }

  lemma PathCleanStep(disk: Disk, visited: set<Name>, n: Name, p: seq<Name>)
    requires p != []
    ensures PathClean(disk, visited, [n] + p) <==> n !in visited && PathClean(disk, visited + {n}, p)
  {
    var q := [n] + p;
    assert forall i | 0 < i < |q| :: q[i] == p[i - 1];
    if PathClean(disk, visited, q) {
      assert q[0] !in visited;
      forall i | 0 <= i < |p| ensures p[i] !in visited + {n} {
        assert q[i + 1] == p[i] && q[0] != q[i + 1];
      }
      forall i, j | 0 <= i < j < |p| ensures p[i] != p[j] {
        assert q[i + 1] != q[j + 1];
      }
    }
  }

  /** Cleanness of a module is cleanness of what it follows, with the module itself visited. */
  lemma CleanStep(disk: Disk, visited: set<Name>, n: Name)
    ensures Clean(disk, visited, n) <==>
            n !in visited && !Missing(disk, n) && forall d | Follows(disk, n, d) :: Clean(disk, visited + {n}, d)
  {
    if Clean(disk, visited, n) {
      assert IsPath(disk, [n]) && PathClean(disk, visited, [n]);
      forall d, p | Follows(disk, n, d) && IsPath(disk, p) && p[0] == d ensures PathClean(disk, visited + {n}, p) {
        PathGrows(disk, n, p);
        PathCleanStep(disk, visited, n, p);
      }
    }
    if n !in visited && !Missing(disk, n) && forall d | Follows(disk, n, d) :: Clean(disk, visited + {n}, d) {
      forall p | IsPath(disk, p) && p[0] == n ensures PathClean(disk, visited, p) {
        if |p| > 1 {
          PathShrinks(disk, p);
          assert Clean(disk, visited + {n}, p[1]);
          PathCleanStep(disk, visited, n, p[1..]);
          assert p == [n] + p[1..];
        }
      }
    }
  }

  lemma {:induction false} PathInside(disk: Disk, area: iset<Name>, p: seq<Name>, i: nat)
    requires Closed(disk, area) && IsPath(disk, p) && p[0] in area && i < |p|
    ensures p[i] in area
  {
    if i == 0 {
    } else {
      PathInside(disk, area, p, i - 1);
      assert Follows(disk, p[i - 1], p[i]);
    }
  }

  /** With more names visited, a module is clean if it was and leads to none of those. */
  lemma CleanWithMore(disk: Disk, v: set<Name>, w: set<Name>, n: Name)
    requires v <= w
    ensures Clean(disk, w, n) <==> Clean(disk, v, n) && forall x | x in w && x !in v :: !Reaches(disk, n, x)
  {
    if Clean(disk, w, n) {
      forall p | IsPath(disk, p) && p[0] == n ensures PathClean(disk, v, p) {
        assert PathClean(disk, w, p);
      }
      forall x | x in w && x !in v ensures !Reaches(disk, n, x) {
        if Reaches(disk, n, x) {
          CleanAvoids(disk, w, n, x);
        }
      }
    }
    if Clean(disk, v, n) && forall x | x in w && x !in v :: !Reaches(disk, n, x) {
      forall p | IsPath(disk, p) && p[0] == n ensures PathClean(disk, w, p) {
        assert PathClean(disk, v, p);
        forall i | 0 <= i < |p| ensures p[i] !in w {
          PathReaches(disk, p, i);
        }
      }
    }
  }

  lemma PathReaches(disk: Disk, p: seq<Name>, i: nat)
    requires IsPath(disk, p) && i < |p|
    ensures Reaches(disk, p[0], p[i])
  {
    var q := p[..i + 1];
    assert IsPath(disk, q) && q[0] == p[0] && q[|q| - 1] == p[i];
  }

  /** A clean module leads to nothing that is visited, and to nothing without a file. */
  lemma CleanAvoids(disk: Disk, visited: set<Name>, n: Name, x: Name)
    requires Clean(disk, visited, n) && Reaches(disk, n, x)
    ensures x !in visited && !Missing(disk, x) && (n in disk.found ==> x in disk.found)
  {
    var p :| IsPath(disk, p) && p[0] == n && p[|p| - 1] == x;
    assert PathClean(disk, visited, p);
    assert |p| > 1 ==> Follows(disk, p[|p| - 2], p[|p| - 1]);
  }

  /** What a clean module leads to is clean. */
  lemma ReachedIsClean(disk: Disk, n: Name, x: Name)
    requires Clean(disk, {}, n) && Reaches(disk, n, x)
    ensures Clean(disk, {}, x)
  {
    var q :| IsPath(disk, q) && q[0] == n && q[|q| - 1] == x;
    forall p | IsPath(disk, p) && p[0] == x ensures PathClean(disk, {}, p) {
      var whole := q + p[1..];
      assert forall i | |q| <= i < |whole| :: whole[i] == p[i - |q| + 1];
      forall i | 0 < i < |whole| ensures Follows(disk, whole[i - 1], whole[i]) {
        if i >= |q| {
          assert whole[i - 1] == p[i - |q|] && whole[i] == p[i - |q| + 1];
        }
      }
      assert PathClean(disk, {}, whole);
      forall i, j | 0 <= i < j < |p| ensures p[i] != p[j] {
        assert whole[|q| - 1 + i] == p[i] && whole[|q| - 1 + j] == p[j];
      }
    }
  }

  lemma ReachesOn(disk: Disk, n: Name, m: Name, d: Name)
    requires Reaches(disk, n, m) && Follows(disk, m, d)
    ensures Reaches(disk, n, d)
  {
    var p :| IsPath(disk, p) && p[0] == n && p[|p| - 1] == m;
    var q := p + [d];
    assert IsPath(disk, q) && q[0] == n && q[|q| - 1] == d;
  }

  /** What imports lead to is closed under imports. */
  lemma ReachableIsClosed(disk: Disk, n: Name)
    ensures Closed(disk, Reachable(disk, n)) && n in Reachable(disk, n)
  {
    ReachesStep(disk, n, n);
    forall m, d | Reaches(disk, n, m) && Follows(disk, m, d) ensures Reaches(disk, n, d) {
      ReachesOn(disk, n, m, d);
    }
  }

  ghost predicate AllIn(disk: Disk, area: iset<Name>, requests: seq<Name>) {
    forall d | Goes(disk, requests, d) :: d in area
  }

  // ---------------------------------------------------------------- the order of the walk

  /** The names that a walk asks for, in order, each with what it leads to. */
  function Asks(disk: Disk, path: set<Name>, n: Name): seq<Name>
    decreases disk.found.Keys - path, 0, 0
  {
    if n !in disk.found || n in path then [n]
    else
      assert n in disk.found.Keys - path && n !in disk.found.Keys - (path + {n});
      [n] + AsksAll(disk, path + {n}, Requests(disk.found[n]))
  }

  function AsksAll(disk: Disk, path: set<Name>, requests: seq<Name>): seq<Name>
    decreases disk.found.Keys - path, 1, |requests|
  {
    if requests == [] then []
    else (if requests[0] in disk.found then Asks(disk, path, requests[0]) else []) + AsksAll(disk, path, requests[1..])
  }

  ghost predicate AllClean(disk: Disk, visited: set<Name>, requests: seq<Name>) {
    forall d | Goes(disk, requests, d) :: Clean(disk, visited, d)
  }

  /** Without circles, what is asked for does not depend on where the walk comes from. */
  lemma {:induction false} AsksSame(disk: Disk, p: set<Name>, q: set<Name>, n: Name)
    requires n in disk.found && Clean(disk, p, n) && Clean(disk, q, n)
    ensures Asks(disk, p, n) == Asks(disk, q, n)
    decreases disk.found.Keys - p, 0, 0
  {
    CleanStep(disk, p, n);
    CleanStep(disk, q, n);
    assert n in disk.found.Keys - p && n !in disk.found.Keys - (p + {n});
    assert forall d :: Follows(disk, n, d) <==> Goes(disk, Requests(disk.found[n]), d);
    AsksAllSame(disk, p + {n}, q + {n}, Requests(disk.found[n]));
  }

  lemma {:induction false} AsksAllSame(disk: Disk, p: set<Name>, q: set<Name>, requests: seq<Name>)
    requires AllClean(disk, p, requests) && AllClean(disk, q, requests)
    ensures AsksAll(disk, p, requests) == AsksAll(disk, q, requests)
    decreases disk.found.Keys - p, 1, |requests|
  {
    if requests == [] {
    } else {
      if requests[0] in disk.found {
        assert Goes(disk, requests, requests[0]);
        AsksSame(disk, p, q, requests[0]);
      }
      AsksAllSame(disk, p, q, requests[1..]);
    }
  }

  /** A clean module asks for itself and then for what its requests ask for. */
  lemma AsksStep(disk: Disk, n: Name)
    requires n in disk.found && Clean(disk, {}, n)
    ensures AllClean(disk, {n}, Requests(disk.found[n])) && AllClean(disk, {}, Requests(disk.found[n]))
    ensures Asks(disk, {}, n) == [n] + AsksAll(disk, {}, Requests(disk.found[n]))
  {
    var requests := Requests(disk.found[n]);
    CleanStep(disk, {}, n);
    forall d | Goes(disk, requests, d) ensures Clean(disk, {n}, d) && Clean(disk, {}, d) {
      assert Follows(disk, n, d) && {} + {n} == {n};
      CleanWithMore(disk, {}, {n}, d);
    }
    AsksAllSame(disk, {n}, {}, requests);
    assert {} + {n} == {n};
  }

  /** What a clean module asks for are the files that it leads to. */
  lemma {:induction false} AskedIsReached(disk: Disk, path: set<Name>, n: Name, x: Name)
    requires n in disk.found && Clean(disk, path, n)
    ensures x in Asks(disk, path, n) <==> Reaches(disk, n, x)
    decreases disk.found.Keys - path, 0, 0
  {
    CleanStep(disk, path, n);
    assert n in disk.found.Keys - path && n !in disk.found.Keys - (path + {n});
    assert forall d :: Follows(disk, n, d) <==> Goes(disk, Requests(disk.found[n]), d);
    AskedIsReachedAll(disk, path + {n}, Requests(disk.found[n]), x);
    ReachesStep(disk, n, x);
  }

  lemma {:induction false} AskedIsReachedAll(disk: Disk, path: set<Name>, requests: seq<Name>, x: Name)
    requires AllClean(disk, path, requests)
    ensures x in AsksAll(disk, path, requests) <==> exists d :: Goes(disk, requests, d) && Reaches(disk, d, x)
    decreases disk.found.Keys - path, 1, |requests|
  {
    if requests == [] {
    } else {
      var d := requests[0];
      assert forall c :: Goes(disk, requests, c) <==>
          Goes(disk, requests[1..], c) || (c == d && Goes(disk, requests, d));
      AskedIsReachedAll(disk, path, requests[1..], x);
      if d in disk.found {
        assert Goes(disk, requests, d);
        AskedIsReached(disk, path, d, x);
      } else if Goes(disk, requests, d) {
        CleanStep(disk, path, d);
      }
    }
  }

  // ---------------------------------------------------------------- names that get in the way

  /** One of the asked names has a file that is registered under `x`. */
  ghost predicate Registered(disk: Disk, asks: seq<Name>, x: Name) {
    exists m :: m in asks && m in disk.found && disk.found[m].name == x
  }

  /** ... and is not `x` itself. */
  ghost predicate Stray(disk: Disk, asks: seq<Name>, x: Name) {
    exists m :: m in asks && m in disk.found && disk.found[m].name == x && m != x
  }

  /** No name is asked for after another name whose file is registered under it. */
  ghost predicate Orderly(disk: Disk, asks: seq<Name>) {
    forall i, j | 0 <= i < j < |asks| && asks[i] in disk.found && disk.found[asks[i]].name == asks[j] ::
      asks[i] == asks[j]
  }

  lemma OrderlyAppend(disk: Disk, asks: seq<Name>, more: seq<Name>)
    ensures Orderly(disk, asks + more) <==>
            Orderly(disk, asks) && Orderly(disk, more) && forall x | x in more :: !Stray(disk, asks, x)
  {
    var all := asks + more;
    if Orderly(disk, all) {
      assert forall i | 0 <= i < |asks| :: all[i] == asks[i];
      forall i, j | 0 <= i < j < |more| && more[i] in disk.found && disk.found[more[i]].name == more[j]
        ensures more[i] == more[j]
      {
        assert all[|asks| + i] == more[i] && all[|asks| + j] == more[j];
      }
      forall x | x in more ensures !Stray(disk, asks, x) {
        var j :| 0 <= j < |more| && more[j] == x;
        assert all[|asks| + j] == x;
        assert forall i | 0 <= i < |asks| :: all[i] == asks[i];
      }
    }
    if Orderly(disk, asks) && Orderly(disk, more) && forall x | x in more :: !Stray(disk, asks, x) {
      forall i, j | 0 <= i < j < |all| && all[i] in disk.found && disk.found[all[i]].name == all[j]
        ensures all[i] == all[j]
      {
        if i < |asks| <= j {
          assert all[i] == asks[i] && all[j] == more[j - |asks|];
          assert !Stray(disk, asks, more[j - |asks|]);
        } else if |asks| <= i {
          assert all[i] == more[i - |asks|] && all[j] == more[j - |asks|];
        }
      }
    }
  }

  /** What a walk over `asks` leaves, if it returns normally. */
  ghost predicate Leaves(disk: Disk, asks: seq<Name>, visited: set<Name>, modules: map<Name, File>, r: Walked) {
    && (forall x :: x in r.visited <==> x in visited || Stray(disk, asks, x))
    && (forall x :: x in r.modules <==> x in modules || Registered(disk, asks, x))
    && (forall x | x in modules && !Registered(disk, asks, x) :: r.modules[x] == modules[x])
    && (forall x | Registered(disk, asks, x) :: ComesFrom(disk, asks, x, r.modules[x]))
  }

  ghost predicate ComesFrom(disk: Disk, asks: seq<Name>, x: Name, f: File) {
    exists m :: m in asks && m in disk.found && disk.found[m].name == x && f == disk.found[m]
  }

  lemma LeavesAppend(disk: Disk, asks: seq<Name>, more: seq<Name>, visited: set<Name>, modules: map<Name, File>,
        first: Walked, r: Walked)
    requires Leaves(disk, asks, visited, modules, first) && Leaves(disk, more, first.visited, first.modules, r)
    ensures Leaves(disk, asks + more, visited, modules, r)
  {
    var all := asks + more;
    assert forall m :: m in all <==> m in asks || m in more;
    assert forall x :: Stray(disk, all, x) <==> Stray(disk, asks, x) || Stray(disk, more, x);
    assert forall x :: Registered(disk, all, x) <==> Registered(disk, asks, x) || Registered(disk, more, x);
    forall x | Registered(disk, all, x) ensures ComesFrom(disk, all, x, r.modules[x]) {
      if Registered(disk, more, x) {
        assert ComesFrom(disk, more, x, r.modules[x]);
      } else {
        assert ComesFrom(disk, asks, x, first.modules[x]);
      }
    }
  }

  // ---------------------------------------------------------------- what the walk does

  lemma LoadedFile(disk: Disk, area: iset<Name>, visited: set<Name>, modules: map<Name, File>, n: Name)
    requires Settled(disk, area, visited, modules) && n in area && n in disk.found && n !in visited
    ensures var name, f := disk.found[n].name, disk.found[n];
            && Loaded(disk, modules, n) == Some((name, modules[name := f]))
            && Settled(disk, area, visited + {n, name}, modules[name := f])
  {
    if n in modules {
      assert modules == modules[n := disk.found[n]];
    }
  }

  /** A module and then its requests: when that is clean and orderly. */
  lemma InsideIff(disk: Disk, visited: set<Name>, n: Name)
    requires n in disk.found && n !in visited
    ensures var inside, requests := visited + {n, disk.found[n].name}, Requests(disk.found[n]);
            AllClean(disk, inside, requests) && Orderly(disk, AsksAll(disk, {}, requests))
            <==> Clean(disk, visited, n) && Orderly(disk, Asks(disk, {}, n))
  {
    var name, requests := disk.found[n].name, Requests(disk.found[n]);
    var inside, asks := visited + {n, name}, AsksAll(disk, {}, requests);
    CleanStep(disk, visited, n);
    assert forall d :: Follows(disk, n, d) <==> Goes(disk, requests, d);
    forall d ensures Clean(disk, inside, d) <==>
      Clean(disk, visited + {n}, d) && (name in visited + {n} || !Reaches(disk, d, name))
    {
      CleanWithMore(disk, visited + {n}, inside, d);
    }
    if Clean(disk, visited, n) {
      CleanWithMore(disk, {}, visited, n);
      AsksStep(disk, n);
      OrderlyAppend(disk, [n], asks);
      AskedIsReachedAll(disk, {}, requests, name);
      forall x ensures Stray(disk, [n], x) <==> x == name && x != n {
        assert n in [n];
      }
      forall d | Goes(disk, requests, d) && name in visited ensures !Reaches(disk, d, name) {
        if Reaches(disk, d, name) {
          CleanAvoids(disk, visited + {n}, d, name);
        }
      }
      assert AllClean(disk, inside, requests) <==> name == n || name !in asks;
    }
  }

  /** No file below a clean module is registered under the module's name. */
  lemma OwnNameIsFree(disk: Disk, area: iset<Name>, n: Name)
    requires Closed(disk, area) && NoneHides(disk, area) && n in area && n in disk.found && Clean(disk, {}, n)
    ensures !Registered(disk, AsksAll(disk, {}, Requests(disk.found[n])), n)
  {
    var requests := Requests(disk.found[n]);
    AsksStep(disk, n);
    forall m | m in AsksAll(disk, {}, requests) && m in disk.found ensures disk.found[m].name != n {
      AskedIsReachedAll(disk, {}, requests, m);
      var d :| Goes(disk, requests, d) && Reaches(disk, d, m);
      ReachesStep(disk, n, m);
      var p :| IsPath(disk, p) && p[0] == d && p[|p| - 1] == m;
      assert Follows(disk, n, d);
      PathInside(disk, area, p, |p| - 1);
      if disk.found[m] == disk.found[n] {
        CircleIsNotClean(disk, d, m);
      }
    }
  }

  lemma CircleIsNotClean(disk: Disk, d: Name, m: Name)
    requires Reaches(disk, d, m) && Follows(disk, m, d)
    ensures !Clean(disk, {}, d)
  {
    var p :| IsPath(disk, p) && p[0] == d && p[|p| - 1] == m;
    var q := p + [d];
    assert IsPath(disk, q) && q[0] == d && q[|p|] == d;
  }

  /** `resolve_dependencies` returns normally exactly when what it starts from is clean (nothing
      reachable imports itself in a circle, is visited already or is missing), and no name is asked
      for after another one whose file is registered under it. It has then loaded the files that it
      asked for, and what stays in `visited` are their names if they were asked for by others. */
  lemma {:induction false} WalkIff(disk: Disk, area: iset<Name>, visited: set<Name>, modules: map<Name, File>, n: Name)
    requires Closed(disk, area) && NoneHides(disk, area) && Settled(disk, area, visited, modules)
    requires n in area && n in disk.found
    ensures var r, asks := Walk(disk, visited, modules, n), Asks(disk, {}, n);
            && (r.error.None? <==> Clean(disk, visited, n) && Orderly(disk, asks))
            && (r.error.None? ==>
                  Leaves(disk, asks, visited, modules, r) && Settled(disk, area, r.visited, r.modules))
    decreases 0, disk.found.Keys - visited, 0, 0
  {
    CleanStep(disk, visited, n);
    if n in visited {
    } else {
      LoadedFile(disk, area, visited, modules, n);
      var (name, ms) := Loaded(disk, modules, n).value;
      var inside, requests := visited + {n, name}, Requests(ms[name]);
      assert n in (disk.found.Keys - visited) && n !in (disk.found.Keys - inside);
      assert forall d :: Follows(disk, n, d) <==> Goes(disk, requests, d);
      WalkAllIff(disk, area, inside, ms, requests);
      InsideIff(disk, visited, n);
      if Walk(disk, visited, modules, n).error.None? {
        CleanWithMore(disk, {}, visited, n);
        AsksStep(disk, n);
        OwnNameIsFree(disk, area, n);
        WalkLeaves(disk, area, visited, modules, n, WalkAll(disk, inside, ms, requests));
      }
    }
  }

  /** From what the requests leave to what the module leaves. */
  lemma WalkLeaves(disk: Disk, area: iset<Name>, visited: set<Name>, modules: map<Name, File>, n: Name, rest: Walked)
    requires Settled(disk, area, visited, modules) && n in area && n in disk.found && n !in visited
    requires var asks, name := AsksAll(disk, {}, Requests(disk.found[n])), disk.found[n].name;
             && !Registered(disk, asks, n)
             && Leaves(disk, asks, visited + {n, name}, modules[name := disk.found[n]], rest)
    requires Settled(disk, area, rest.visited, rest.modules)
    ensures var asks := [n] + AsksAll(disk, {}, Requests(disk.found[n]));
            Leaves(disk, asks, visited, modules, Walked(rest.visited - {n}, rest.modules, None))
    ensures Settled(disk, area, rest.visited - {n}, rest.modules)
  {
    var below, f := AsksAll(disk, {}, Requests(disk.found[n])), disk.found[n];
    var asks := [n] + below;
    assert forall m :: m in asks <==> m == n || m in below;
    assert forall x :: Stray(disk, asks, x) <==> (x == f.name && x != n) || Stray(disk, below, x);
    assert forall x :: Registered(disk, asks, x) <==> x == f.name || Registered(disk, below, x);
    assert !Stray(disk, below, n);
    forall x | Registered(disk, asks, x) ensures ComesFrom(disk, asks, x, rest.modules[x]) {
      if Registered(disk, below, x) {
        assert ComesFrom(disk, below, x, rest.modules[x]);
      } else {
        assert n in asks && rest.modules[x] == f;
      }
    }
  }

  /** The first request and then the others: when that is clean and orderly. */
  lemma FirstThenRest(disk: Disk, visited: set<Name>, after: set<Name>, d: Name, rest: seq<Name>)
    requires d in disk.found && Clean(disk, visited, d)
    requires forall x :: x in after <==> x in visited || Stray(disk, Asks(disk, {}, d), x)
    ensures AllClean(disk, after, rest) && Orderly(disk, Asks(disk, {}, d)) && Orderly(disk, AsksAll(disk, {}, rest))
            <==> AllClean(disk, visited, rest) && Orderly(disk, Asks(disk, {}, d) + AsksAll(disk, {}, rest))
  {
    var asks, more := Asks(disk, {}, d), AsksAll(disk, {}, rest);
    OrderlyAppend(disk, asks, more);
    forall c ensures Clean(disk, after, c) <==>
      Clean(disk, visited, c) && forall x | x in after && x !in visited :: !Reaches(disk, c, x)
    {
      CleanWithMore(disk, visited, after, c);
    }
    if AllClean(disk, visited, rest) {
      forall c | Goes(disk, rest, c) ensures Clean(disk, {}, c) {
        CleanWithMore(disk, {}, visited, c);
      }
      forall x ensures x in more <==> exists c :: Goes(disk, rest, c) && Reaches(disk, c, x) {
        AskedIsReachedAll(disk, {}, rest, x);
      }
      forall c, x | Goes(disk, rest, c) && x in visited ensures !Reaches(disk, c, x) {
        if Reaches(disk, c, x) {
          CleanAvoids(disk, visited, c, x);
        }
      }
    }
  }

  ghost predicate AllDone(disk: Disk, area: iset<Name>, visited: set<Name>, modules: map<Name, File>,
        requests: seq<Name>) {
    var r, asks := WalkAll(disk, visited, modules, requests), AsksAll(disk, {}, requests);
    && (r.error.None? <==> AllClean(disk, visited, requests) && Orderly(disk, asks))
    && (r.error.None? ==> Leaves(disk, asks, visited, modules, r) && Settled(disk, area, r.visited, r.modules))
  }

  lemma {:induction false} WalkAllIff(disk: Disk, area: iset<Name>, visited: set<Name>, modules: map<Name, File>,
        requests: seq<Name>)
    requires Closed(disk, area) && NoneHides(disk, area) && Settled(disk, area, visited, modules)
    requires AllIn(disk, area, requests)
    ensures AllDone(disk, area, visited, modules, requests)
    decreases 0, disk.found.Keys - visited, 1, |requests|
  {
    if requests == [] {
    } else {
      var d, rest := requests[0], requests[1..];
      assert AllIn(disk, area, rest);
      if d !in disk.found {
        WithoutFile(disk, visited, modules, requests);
        if d in disk.runtime {
          WalkAllIff(disk, area, visited, modules, rest);
        }
      } else {
        assert Goes(disk, requests, d);
        WalkIff(disk, area, visited, modules, d);
        var first := Walk(disk, visited, modules, d);
        if first.error.None? {
          WalkAllIff(disk, area, first.visited, first.modules, rest);
        }
        FirstThenAll(disk, area, visited, modules, requests);
      }
    }
  }

  /** A request without a file is skipped or refused. */
  lemma WithoutFile(disk: Disk, visited: set<Name>, modules: map<Name, File>, requests: seq<Name>)
    requires requests != [] && requests[0] !in disk.found
    ensures if requests[0] in disk.runtime then
              && WalkAll(disk, visited, modules, requests) == WalkAll(disk, visited, modules, requests[1..])
              && AsksAll(disk, {}, requests) == AsksAll(disk, {}, requests[1..])
              && (AllClean(disk, visited, requests) <==> AllClean(disk, visited, requests[1..]))
            else WalkAll(disk, visited, modules, requests).error.Some? && !AllClean(disk, visited, requests)
  {
    CleanStep(disk, visited, requests[0]);
    AllCleanStep(disk, visited, requests);
  }

  lemma AllCleanStep(disk: Disk, visited: set<Name>, requests: seq<Name>)
    requires requests != []
    ensures AllClean(disk, visited, requests) <==>
            && AllClean(disk, visited, requests[1..])
            && (Goes(disk, requests, requests[0]) ==> Clean(disk, visited, requests[0]))
  {
    var d, rest := requests[0], requests[1..];
    assert forall c :: Goes(disk, requests, c) <==> Goes(disk, rest, c) || (c == d && Goes(disk, requests, d));
  }

  lemma FirstThenAll(disk: Disk, area: iset<Name>, visited: set<Name>, modules: map<Name, File>, requests: seq<Name>)
    requires requests != [] && requests[0] in disk.found
    requires var d := requests[0];
      var first := Walk(disk, visited, modules, d);
      && (first.error.None? <==> Clean(disk, visited, d) && Orderly(disk, Asks(disk, {}, d)))
      && (first.error.None? ==>
            Leaves(disk, Asks(disk, {}, d), visited, modules, first)
              && AllDone(disk, area, first.visited, first.modules, requests[1..]))
    ensures AllDone(disk, area, visited, modules, requests)
  {
    var d, rest := requests[0], requests[1..];
    var first := Walk(disk, visited, modules, d);
    AllCleanStep(disk, visited, requests);
    if first.error.None? {
      FirstThenRest(disk, visited, first.visited, d, rest);
      if WalkAll(disk, visited, modules, requests).error.None? {
        LeavesAppend(disk, Asks(disk, {}, d), AsksAll(disk, {}, rest), visited, modules, first,
          WalkAll(disk, first.visited, first.modules, rest));
      }
    } else {
      OrderlyAppend(disk, Asks(disk, {}, d), AsksAll(disk, {}, rest));
    }
  }

  // ---------------------------------------------------------------- what is left in `visited`

  /** A file that `n` leads to is registered under `x` although it was asked for by another name. */
  ghost predicate StrayName(disk: Disk, n: Name, x: Name) {
    exists m :: Reaches(disk, n, m) && m in disk.found && disk.found[m].name == x && x != m
  }

  lemma StrayStep(disk: Disk, n: Name, x: Name)
    requires n in disk.found
    ensures StrayName(disk, n, x) <==>
            (disk.found[n].name == x && x != n) || exists d :: Follows(disk, n, d) && StrayName(disk, d, x)
  {
    if StrayName(disk, n, x) {
      var m :| Reaches(disk, n, m) && m in disk.found && disk.found[m].name == x && x != m;
      ReachesStep(disk, n, m);
      if m != n {
        var d :| Follows(disk, n, d) && Reaches(disk, d, m);
        assert StrayName(disk, d, x);
      }
    }
    ReachesStep(disk, n, n);
    if d :| Follows(disk, n, d) && StrayName(disk, d, x) {
      var m :| Reaches(disk, d, m) && m in disk.found && disk.found[m].name == x && x != m;
      ReachesStep(disk, n, m);
    }
  }

  /** What a clean module asks for is registered under the names that it leads to. */
  lemma AskedNames(disk: Disk, n: Name, x: Name)
    requires n in disk.found && Clean(disk, {}, n)
    ensures Stray(disk, Asks(disk, {}, n), x) <==> StrayName(disk, n, x)
    ensures Registered(disk, Asks(disk, {}, n), x) <==> ReachesName(disk, n, x)
  {
    forall m ensures m in Asks(disk, {}, n) <==> Reaches(disk, n, m) {
      AskedIsReached(disk, {}, n, m);
    }
  }

  /** A walk that returns normally leaves `visited` as it found it but for the names that a file
      which it came to is registered under, though it was asked for by another one. */
  lemma {:induction false} OnlyStraysStay(disk: Disk, visited: set<Name>, modules: map<Name, File>, n: Name, x: Name)
    requires NoneHides(disk, Reachable(disk, n)) && Settled(disk, Reachable(disk, n), visited, modules)
    requires n in disk.found
    ensures var r := Walk(disk, visited, modules, n);
            r.error.None? ==> (x in r.visited <==> x in visited || StrayName(disk, n, x))
  {
    ReachableIsClosed(disk, n);
    WalkIff(disk, Reachable(disk, n), visited, modules, n);
    if Clean(disk, visited, n) {
      CleanWithMore(disk, {}, visited, n);
      AskedNames(disk, n, x);
    }
  }

  /** So `visited` is restored exactly when every file that the module leads to is asked for by the
      name that it declares, or by another one while that name is visited anyway. */
  lemma VisitedRestoredIff(disk: Disk, visited: set<Name>, modules: map<Name, File>, n: Name)
    requires NoneHides(disk, Reachable(disk, n)) && Settled(disk, Reachable(disk, n), visited, modules)
    requires n in disk.found && Walk(disk, visited, modules, n).error.None?
    ensures Walk(disk, visited, modules, n).visited == visited
       <==> forall m | Reaches(disk, n, m) && m in disk.found :: disk.found[m].name in visited + {m}
  {
    var r := Walk(disk, visited, modules, n);
    forall x ensures x in r.visited <==> x in visited || StrayName(disk, n, x) {
      OnlyStraysStay(disk, visited, modules, n, x);
    }
    if r.visited == visited {
      forall m | Reaches(disk, n, m) && m in disk.found ensures disk.found[m].name in visited + {m} {
        assert disk.found[m].name != m ==> StrayName(disk, n, disk.found[m].name);
      }
    }
  }

  // ---------------------------------------------------------------- which error, which modules

  /** The path leads to what the error names: back to where the walk has been, or to a module
      that does not exist. */
  ghost predicate ErrorAt(disk: Disk, visited: set<Name>, p: seq<Name>, e: Error)
    requires p != []
  {
    var last := p[|p| - 1];
    match e
    case Cycle(x) => last == x && x in disk.found && (x in visited || x in p[..|p| - 1])
    case NotFound(x) => last == x && Missing(disk, x)
    case Unreadable(_) => false
  }

  ghost predicate RealError(disk: Disk, visited: set<Name>, n: Name, e: Error) {
    exists p :: IsPath(disk, p) && p[0] == n && ErrorAt(disk, visited, p, e)
  }

  /** ... or the walk has come to a file which is registered under a name that is asked for as well. */
  ghost predicate NameClash(disk: Disk, n: Name, e: Error) {
    e.Cycle? && StrayName(disk, n, e.name) && Reaches(disk, n, e.name)
  }

  ghost predicate Accounted(disk: Disk, visited: set<Name>, n: Name, e: Error) {
    RealError(disk, visited, n, e) || NameClash(disk, n, e)
  }

  /** The same for a list of requests: the clash may be between two of them. */
  ghost predicate AllAccounted(disk: Disk, visited: set<Name>, requests: seq<Name>, e: Error) {
    || (exists d :: Goes(disk, requests, d) && RealError(disk, visited, d, e))
    || (e.Cycle? && StrayAmong(disk, requests, e.name)
          && exists d :: Goes(disk, requests, d) && Reaches(disk, d, e.name))
  }

  ghost predicate StrayAmong(disk: Disk, requests: seq<Name>, x: Name) {
    exists d :: Goes(disk, requests, d) && StrayName(disk, d, x)
  }

  lemma ErrorGrows(disk: Disk, visited: set<Name>, n: Name, e: Error)
    requires n in disk.found
    requires AllAccounted(disk, visited + {n, disk.found[n].name}, Requests(disk.found[n]), e)
    ensures Accounted(disk, visited, n, e)
  {
    var requests, inside := Requests(disk.found[n]), visited + {n, disk.found[n].name};
    assert forall d :: Follows(disk, n, d) <==> Goes(disk, requests, d);
    if d :| Goes(disk, requests, d) && RealError(disk, inside, d, e) {
      var p :| IsPath(disk, p) && p[0] == d && ErrorAt(disk, inside, p, e);
      PathGrows(disk, n, p);
      var q := [n] + p;
      assert q[..|q| - 1] == [n] + p[..|p| - 1];
      if e.Cycle? && e.name == disk.found[n].name && e.name != n && e.name !in visited {
        StrayStep(disk, n, e.name);
        assert Reaches(disk, n, e.name);
      } else {
        assert ErrorAt(disk, visited, q, e);
      }
    } else {
      StrayStep(disk, n, e.name);
      ReachesStep(disk, n, e.name);
    }
  }

  /** Every reported error is one: from `n`, imports lead to the module that it names, back to where
      the walk has been or to nothing; or else it is a cycle only for a name that is asked for and has
      another name's file registered under it. */
  lemma {:induction false} ErrorIsReal(disk: Disk, area: iset<Name>, visited: set<Name>,
        modules: map<Name, File>, n: Name)
    requires Closed(disk, area) && NoneHides(disk, area) && Settled(disk, area, visited, modules)
    requires n in area && n in disk.found
    ensures var r := Walk(disk, visited, modules, n); r.error.Some? ==> Accounted(disk, visited, n, r.error.value)
    decreases 0, disk.found.Keys - visited, 0, 0
  {
    var r := Walk(disk, visited, modules, n);
    if n in visited {
      assert IsPath(disk, [n]) && ErrorAt(disk, visited, [n], r.error.value);
    } else {
      LoadedFile(disk, area, visited, modules, n);
      var (name, ms) := Loaded(disk, modules, n).value;
      var inside := visited + {n, name};
      assert n in (disk.found.Keys - visited) && n !in (disk.found.Keys - inside);
      assert forall d :: Follows(disk, n, d) <==> Goes(disk, Requests(ms[name]), d);
      ErrorInRequestsIsReal(disk, area, inside, ms, Requests(ms[name]));
      if r.error.Some? {
        ErrorGrows(disk, visited, n, r.error.value);
      }
    }
  }

  lemma {:induction false} ErrorInRequestsIsReal(disk: Disk, area: iset<Name>, visited: set<Name>,
        modules: map<Name, File>, requests: seq<Name>)
    requires Closed(disk, area) && NoneHides(disk, area) && Settled(disk, area, visited, modules)
    requires AllIn(disk, area, requests)
    ensures var r := WalkAll(disk, visited, modules, requests);
            r.error.Some? ==> AllAccounted(disk, visited, requests, r.error.value)
    decreases 0, disk.found.Keys - visited, 1, |requests|
  {
    if requests == [] {
    } else {
      var d, r := requests[0], WalkAll(disk, visited, modules, requests);
      assert AllIn(disk, area, requests[1..]);
      if d !in disk.found {
        if d in disk.runtime {
          ErrorInRequestsIsReal(disk, area, visited, modules, requests[1..]);
        } else {
          assert IsPath(disk, [d]) && ErrorAt(disk, visited, [d], r.error.value);
          assert Goes(disk, requests, d);
        }
      } else {
        assert Goes(disk, requests, d);
        ErrorIsReal(disk, area, visited, modules, d);
        WalkIff(disk, area, visited, modules, d);
        var first := Walk(disk, visited, modules, d);
        if first.error.None? {
          CleanWithMore(disk, {}, visited, d);
          ErrorInRequestsIsReal(disk, area, first.visited, first.modules, requests[1..]);
          if r.error.Some? {
            ErrorCarriesOver(disk, visited, first.visited, requests, r.error.value);
          }
        }
      }
    }
  }

  lemma ErrorCarriesOver(disk: Disk, visited: set<Name>, after: set<Name>, requests: seq<Name>, e: Error)
    requires requests != [] && requests[0] in disk.found && Clean(disk, {}, requests[0])
    requires forall x :: x in after <==> x in visited || Stray(disk, Asks(disk, {}, requests[0]), x)
    requires AllAccounted(disk, after, requests[1..], e)
    ensures AllAccounted(disk, visited, requests, e)
  {
    var d := requests[0];
    assert forall c :: Goes(disk, requests[1..], c) ==> Goes(disk, requests, c);
    assert Goes(disk, requests, d);
    if c :| Goes(disk, requests[1..], c) && RealError(disk, after, c, e) {
      var p :| IsPath(disk, p) && p[0] == c && ErrorAt(disk, after, p, e);
      if e.Cycle? && e.name !in visited && e.name !in p[..|p| - 1] {
        AskedNames(disk, d, e.name);
        assert StrayName(disk, d, e.name) && Reaches(disk, c, e.name);
      } else {
        assert ErrorAt(disk, visited, p, e);
        assert RealError(disk, visited, c, e);
      }
    }
  }

  /** Where no file is asked for by two names, every reported cycle is one. */
  lemma NamedOnceIsReal(disk: Disk, visited: set<Name>, modules: map<Name, File>, n: Name)
    requires OneNameEach(disk, Reachable(disk, n)) && Settled(disk, Reachable(disk, n), visited, modules)
    requires n in disk.found
    ensures var r := Walk(disk, visited, modules, n); r.error.Some? ==> RealError(disk, visited, n, r.error.value)
  {
    ReachableIsClosed(disk, n);
    ErrorIsReal(disk, Reachable(disk, n), visited, modules, n);
  }

  /** Imports lead from `n` to a file that is registered under `name`. */
  ghost predicate ReachesName(disk: Disk, n: Name, name: Name) {
    exists m :: Reaches(disk, n, m) && m in disk.found && disk.found[m].name == name
  }

  lemma ReachesStep(disk: Disk, n: Name, x: Name)
    ensures Reaches(disk, n, x) <==> x == n || exists d :: Follows(disk, n, d) && Reaches(disk, d, x)
  {
    if x == n {
      assert IsPath(disk, [n]);
    }
    if Reaches(disk, n, x) && x != n {
      var p :| IsPath(disk, p) && p[0] == n && p[|p| - 1] == x;
      PathShrinks(disk, p);
      assert p[1..][|p| - 2] == x;
      assert Reaches(disk, p[1], x);
    }
    if d :| Follows(disk, n, d) && Reaches(disk, d, x) {
      var p :| IsPath(disk, p) && p[0] == d && p[|p| - 1] == x;
      PathGrows(disk, n, p);
      assert ([n] + p)[|[n] + p| - 1] == x;
    }
  }

  /** A walk that returns normally has loaded exactly what it can reach, and nothing else; what it
      has loaded under a name is a file that declares it. */
  lemma LoadsWhatItReaches(disk: Disk, visited: set<Name>, modules: map<Name, File>, n: Name, name: Name)
    requires NoneHides(disk, Reachable(disk, n)) && Settled(disk, Reachable(disk, n), visited, modules)
    requires n in disk.found
    ensures var r := Walk(disk, visited, modules, n);
            r.error.None? ==>
              && (name in r.modules <==> name in modules || ReachesName(disk, n, name))
              && (name in r.modules ==>
                    if ReachesName(disk, n, name) then ReachesFile(disk, n, name, r.modules[name])
                    else r.modules[name] == modules[name])
  {
    ReachableIsClosed(disk, n);
    WalkIff(disk, Reachable(disk, n), visited, modules, n);
    var r := Walk(disk, visited, modules, n);
    if r.error.None? {
      CleanWithMore(disk, {}, visited, n);
      AskedNames(disk, n, name);
      if ReachesName(disk, n, name) {
        assert ComesFrom(disk, Asks(disk, {}, n), name, r.modules[name]);
        var m :| m in Asks(disk, {}, n) && m in disk.found && disk.found[m].name == name
                 && r.modules[name] == disk.found[m];
        AskedIsReached(disk, {}, n, m);
      }
    }
  }

  ghost predicate ReachesFile(disk: Disk, n: Name, name: Name, f: File) {
    exists m :: Reaches(disk, n, m) && m in disk.found && disk.found[m].name == name && disk.found[m] == f
  }

  /** So every file that a normal walk comes to is among the modules under its name, if and only if no
      two different ones declare the same name; else one has replaced the other. */
  lemma AllKeptIff(disk: Disk, visited: set<Name>, modules: map<Name, File>, n: Name)
    requires NoneHides(disk, Reachable(disk, n)) && Settled(disk, Reachable(disk, n), visited, modules)
    requires n in disk.found && Walk(disk, visited, modules, n).error.None?
    ensures (forall m | Reaches(disk, n, m) && m in disk.found :: Kept(disk, Walk(disk, visited, modules, n), m))
       <==> forall m, k | Reaches(disk, n, m) && Reaches(disk, n, k) && m in disk.found && k in disk.found
                       && disk.found[m].name == disk.found[k].name ::
              disk.found[m] == disk.found[k]
  {
    var r := Walk(disk, visited, modules, n);
    forall m | Reaches(disk, n, m) && m in disk.found
      ensures disk.found[m].name in r.modules
      ensures ReachesFile(disk, n, disk.found[m].name, r.modules[disk.found[m].name])
    {
      LoadsWhatItReaches(disk, visited, modules, n, disk.found[m].name);
    }
    if forall m | Reaches(disk, n, m) && m in disk.found :: Kept(disk, r, m) {
      forall m, k | Reaches(disk, n, m) && Reaches(disk, n, k) && m in disk.found && k in disk.found
                 && disk.found[m].name == disk.found[k].name
        ensures disk.found[m] == disk.found[k]
      {
        assert Kept(disk, r, m) && Kept(disk, r, k);
      }
    }
  }

  ghost predicate Kept(disk: Disk, r: Walked, m: Name)
    requires m in disk.found
  {
    disk.found[m].name in r.modules && r.modules[disk.found[m].name] == disk.found[m]
  }

  /** A file that imports another one which declares the name it is asked for by: the walk returns
      normally, and the first file is not among the modules. */
  lemma HiddenIsLost(disk: Disk, n: Name, m: Name)
    requires n != m && Unquoted(m) == m && n in disk.found && m in disk.found
    requires disk.found[n] == File(n, [m], []) && disk.found[m] == File(n, [], [])
    ensures var r := Walk(disk, {}, map[], n); r.error.None? && r.modules == map[n := disk.found[m]]
  {
    var ms := map[n := disk.found[n]];
    assert Requests(disk.found[n]) == [m] && [m][1..] == [] && Requests(disk.found[m]) == [];
    assert Loaded(disk, map[], n) == Some((n, ms));
    assert {} + {n, n} == {n};
    LeafWalk(disk, {n}, ms, m);
    var first := Walk(disk, {n}, ms, m);
    assert WalkAll(disk, first.visited, first.modules, []) == Walked(first.visited, first.modules, None);
    assert WalkAll(disk, {n}, ms, [m]) == Walked(first.visited, first.modules, None);
  }
}
