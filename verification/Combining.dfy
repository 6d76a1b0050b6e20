/** The order in which loaded modules are merged (`get_combined_ast` of
    src/frontend/module_manager.cpp): the graph of their imports, and the recursion over it. */
module Combining {
  import opened Modules

  // ---------------------------------------------------------------- the graph the merge walks

  /** The last place where one of `chars` stands, or -1. */
  function LastOf(s: string, chars: set<char>): (k: int)
    ensures -1 <= k < |s|
  {
    if s == "" then -1
    else if s[|s| - 1] in chars then |s| - 1
    else LastOf(s[..|s| - 1], chars)
  }

  /** The module name in an import path: without directories and without extension. */
  function BaseName(path: string): string {
    var slash := LastOf(path, {'/', '\\'});
    var dot := LastOf(path, {'.'});
    if dot >= 0 then
      if slash < 0 then path[..dot]
      else if dot > slash then path[slash + 1..dot]
      else path[slash + 1..]
    else if slash >= 0 then path[slash + 1..]
    else path
  }

  function Dependency(f: File, i: nat): Name
    requires i < |f.imports|
  {
    BaseName(Unquoted(f.imports[i]))
  }

  /** `d` is a loaded module that `n` imports. */
  ghost predicate Imports(modules: map<Name, File>, n: Name, d: Name) {
    n in modules && d in modules && exists i :: 0 <= i < |modules[n].imports| && Dependency(modules[n], i) == d
  }

  ghost predicate IsChain(modules: map<Name, File>, p: seq<Name>) {
    p != [] && p[0] in modules && forall i | 0 < i < |p| :: Imports(modules, p[i - 1], p[i])
  }

  /** No chain of imports among the loaded modules comes back to where it has been. */
  ghost predicate NoCircles(modules: map<Name, File>) {
    forall p | IsChain(modules, p) :: Distinct(p)
  }

  ghost predicate Needs(modules: map<Name, File>, n: Name, x: Name) {
    exists p :: IsChain(modules, p) && p[0] == n && p[|p| - 1] == x
  }

  lemma ChainInside(modules: map<Name, File>, p: seq<Name>)
    requires IsChain(modules, p)
    ensures forall i | 0 <= i < |p| :: p[i] in modules
  {
    forall i | 0 <= i < |p| ensures p[i] in modules {
      if i > 0 {
        assert Imports(modules, p[i - 1], p[i]);
      }
    }
  }

  lemma {:induction false} DistinctBound(p: seq<Name>, names: set<Name>)
    requires Distinct(p) && forall i | 0 <= i < |p| :: p[i] in names
    ensures |p| <= |names|
  {
    if p == [] {
    } else {
      var last := p[|p| - 1];
      DistinctBound(p[..|p| - 1], names - {last});
    }
  }

  lemma NeedsStep(modules: map<Name, File>, n: Name, d: Name, x: Name)
    requires Imports(modules, n, d) && Needs(modules, d, x)
    ensures Needs(modules, n, x)
  {
    var p :| IsChain(modules, p) && p[0] == d && p[|p| - 1] == x;
    var q := [n] + p;
    assert forall i | 0 < i < |q| :: q[i] == p[i - 1];
    assert IsChain(modules, q) && q[|q| - 1] == x;
  }

  lemma NeedsSelf(modules: map<Name, File>, n: Name)
    requires n in modules
    ensures Needs(modules, n, n)
  {
    assert IsChain(modules, [n]);
  }

  lemma BackIsCircle(modules: map<Name, File>, n: Name, d: Name)
    requires Imports(modules, n, d) && Needs(modules, d, n)
    ensures !NoCircles(modules)
  {
    var p :| IsChain(modules, p) && p[0] == d && p[|p| - 1] == n;
    var q := [n] + p;
    assert forall i | 0 < i < |q| :: q[i] == p[i - 1];
    assert IsChain(modules, q) && q[0] == q[|p|];
    assert !Distinct(q);
  }

  lemma NotNeededBack(modules: map<Name, File>, n: Name, d: Name)
    requires NoCircles(modules) && Imports(modules, n, d)
    ensures !Needs(modules, d, n)
  {
    if Needs(modules, d, n) {
      BackIsCircle(modules, n, d);
    }
  }

  // ---------------------------------------------------------------- the merged program

  /** One module's contribution to the combined program. */
  datatype Part = Part(name: Name, isMain: bool)

  predicate Merged(parts: seq<Part>, x: Name) {
    exists i :: 0 <= i < |parts| && parts[i].name == x
  }

  ghost predicate Once(parts: seq<Part>) {
    forall i, j | 0 <= i < j < |parts| :: parts[i].name != parts[j].name
  }

  /** Everything a merged module imports has been merged before it. */
  ghost predicate ImportsFirst(modules: map<Name, File>, parts: seq<Part>) {
    forall i, d | 0 <= i < |parts| && Imports(modules, parts[i].name, d) :: Merged(parts[..i], d)
  }

  lemma MergedMore(parts: seq<Part>, more: seq<Part>, x: Name)
    requires parts <= more && Merged(parts, x)
    ensures Merged(more, x)
  {
    var i :| 0 <= i < |parts| && parts[i].name == x;
    assert more[i].name == x;
  }

  lemma MergedStay(parts: seq<Part>, more: seq<Part>)
    requires parts <= more
    ensures forall x | Merged(parts, x) :: Merged(more, x)
  {
    forall x | Merged(parts, x) ensures Merged(more, x) {
      MergedMore(parts, more, x);
    }
  }

  // ---------------------------------------------------------------- the recursion

  datatype Merge = TooDeep | Done(parts: seq<Part>)

  function Dependencies(f: File): seq<Part> {
    seq(|f.imports|, i requires 0 <= i < |f.imports| => Part(Dependency(f, i), false))
  }

  /** `process_module` for each of `todo` in turn, with at most `depth` calls inside each other. */
  function MergeAll(depth: nat, modules: map<Name, File>, parts: seq<Part>, todo: seq<Part>): Merge
    decreases depth, |todo| + 1
  {
    if todo == [] then Done(parts)
    else
      var before := MergeAll(depth, modules, parts, todo[..|todo| - 1]);
      if before.TooDeep? then before else MergeOne(depth, modules, before.parts, todo[|todo| - 1])
  }

  function MergeOne(depth: nat, modules: map<Name, File>, parts: seq<Part>, part: Part): Merge
    decreases depth, 0
  {
    if depth == 0 then TooDeep
    else if Merged(parts, part.name) || part.name !in modules then Done(parts)
    else
      var before := MergeAll(depth - 1, modules, parts, Dependencies(modules[part.name]));
      if before.TooDeep? then before else Done(before.parts + [part])
  }

  lemma MergeNext(depth: nat, modules: map<Name, File>, parts: seq<Part>, todo: seq<Part>, part: Part)
    ensures MergeAll(depth, modules, parts, todo + [part]) ==
      var before := MergeAll(depth, modules, parts, todo);
      if before.TooDeep? then before else MergeOne(depth, modules, before.parts, part)
  {
    assert (todo + [part])[..|todo|] == todo;
  }

  // ---------------------------------------------------------------- with no circle it ends

  /** What a call is made for: an import of the last module on the stack of calls. */
  ghost predicate CalledFrom(modules: map<Name, File>, stack: seq<Name>, n: Name) {
    stack == [] || (IsChain(modules, stack) && (n in modules ==> Imports(modules, stack[|stack| - 1], n)))
  }

  lemma StackBound(modules: map<Name, File>, stack: seq<Name>, n: Name)
    requires NoCircles(modules) && CalledFrom(modules, stack, n) && n in modules
    ensures IsChain(modules, stack + [n]) && |stack| < |modules|
  {
    var chain := stack + [n];
    forall i | 0 < i < |chain| ensures Imports(modules, chain[i - 1], chain[i]) {
      if i < |stack| {
        assert Imports(modules, stack[i - 1], stack[i]);
      }
    }
    ChainInside(modules, chain);
    DistinctBound(chain, modules.Keys);
  }

  lemma {:induction false} MergeOneEnds(depth: nat, modules: map<Name, File>, parts: seq<Part>, part: Part,
        stack: seq<Name>)
    requires NoCircles(modules) && CalledFrom(modules, stack, part.name) && depth + |stack| > |modules| >= |stack|
    ensures MergeOne(depth, modules, parts, part).Done?
    decreases depth, 0
  {
    var n := part.name;
    if Merged(parts, n) || n !in modules {
    } else {
      StackBound(modules, stack, n);
      var todo := Dependencies(modules[n]);
      forall i | 0 <= i < |todo| ensures CalledFrom(modules, stack + [n], todo[i].name) {
        assert todo[i].name == Dependency(modules[n], i);
      }
      MergeAllEnds(depth - 1, modules, parts, todo, stack + [n]);
    }
  }

  lemma {:induction false} MergeAllEnds(depth: nat, modules: map<Name, File>, parts: seq<Part>, todo: seq<Part>,
        stack: seq<Name>)
    requires NoCircles(modules) && forall i | 0 <= i < |todo| :: CalledFrom(modules, stack, todo[i].name)
    requires depth + |stack| > |modules| >= |stack|
    ensures MergeAll(depth, modules, parts, todo).Done?
    decreases depth, |todo| + 1
  {
    if todo == [] {
    } else {
      var last := |todo| - 1;
      MergeAllEnds(depth, modules, parts, todo[..last], stack);
      MergeOneEnds(depth, modules, MergeAll(depth, modules, parts, todo[..last]).parts, todo[last], stack);
    }
  }

  // ---------------------------------------------------------------- when it ends, there is no circle

  lemma {:induction false} MergeOneOrders(depth: nat, modules: map<Name, File>, parts: seq<Part>, part: Part)
    requires ImportsFirst(modules, parts) && MergeOne(depth, modules, parts, part).Done?
    ensures var out := MergeOne(depth, modules, parts, part).parts;
            parts <= out && ImportsFirst(modules, out) && (part.name in modules ==> Merged(out, part.name))
    decreases depth, 0
  {
    var n := part.name;
    if Merged(parts, n) || n !in modules {
    } else {
      var todo := Dependencies(modules[n]);
      MergeAllOrders(depth - 1, modules, parts, todo);
      var before := MergeAll(depth - 1, modules, parts, todo).parts;
      forall d | Imports(modules, n, d) ensures Merged(before, d) {
        var i :| 0 <= i < |modules[n].imports| && Dependency(modules[n], i) == d;
        assert todo[i].name == d;
      }
      OrderGrows(modules, before, part);
    }
  }

  lemma {:induction false} MergeAllOrders(depth: nat, modules: map<Name, File>, parts: seq<Part>, todo: seq<Part>)
    requires ImportsFirst(modules, parts) && MergeAll(depth, modules, parts, todo).Done?
    ensures var out := MergeAll(depth, modules, parts, todo).parts;
            && parts <= out && ImportsFirst(modules, out)
            && forall i | 0 <= i < |todo| && todo[i].name in modules :: Merged(out, todo[i].name)
    decreases depth, |todo| + 1
  {
    if todo == [] {
    } else {
      var last := |todo| - 1;
      MergeAllOrders(depth, modules, parts, todo[..last]);
      var before := MergeAll(depth, modules, parts, todo[..last]).parts;
      MergeOneOrders(depth, modules, before, todo[last]);
      MergedStay(before, MergeAll(depth, modules, parts, todo).parts);
      assert forall i | 0 <= i < last :: todo[..last][i] == todo[i];
    }
  }

  lemma OrderGrows(modules: map<Name, File>, parts: seq<Part>, part: Part)
    requires ImportsFirst(modules, parts) && forall d | Imports(modules, part.name, d) :: Merged(parts, d)
    ensures ImportsFirst(modules, parts + [part]) && Merged(parts + [part], part.name)
  {
    var more := parts + [part];
    assert more[|parts|] == part;
    forall i, d | 0 <= i < |more| && Imports(modules, more[i].name, d) ensures Merged(more[..i], d) {
      assert more[..i] == if i < |parts| then parts[..i] else parts;
    }
  }

  /** Where a module is first merged. */
  function Place(parts: seq<Part>, x: Name): (i: nat)
    requires Merged(parts, x)
    ensures i < |parts| && parts[i].name == x && forall j | 0 <= j < i :: parts[j].name != x
  {
    if parts[0].name == x then 0
    else
      assert forall j | 0 < j < |parts| :: parts[j] == parts[1..][j - 1];
      Place(parts[1..], x) + 1
  }

  /** Along a chain of imports the places fall, so it does not come back. */
  lemma {:induction false} PlacesFall(modules: map<Name, File>, parts: seq<Part>, p: seq<Name>, i: nat, j: nat)
    requires ImportsFirst(modules, parts) && forall x | x in modules :: Merged(parts, x)
    requires IsChain(modules, p) && i < j < |p| && p[i] in modules && p[j] in modules
    ensures Place(parts, p[j]) < Place(parts, p[i])
    decreases j
  {
    var before := p[j - 1];
    assert Imports(modules, before, p[j]);
    var k := Place(parts, before);
    assert Merged(parts[..k], p[j]);
    var m :| 0 <= m < k && parts[..k][m].name == p[j];
    assert parts[m].name == p[j];
    if i == j - 1 {
    } else {
      PlacesFall(modules, parts, p, i, j - 1);
    }
  }

  lemma OrderedMeansNoCircles(modules: map<Name, File>, parts: seq<Part>)
    requires ImportsFirst(modules, parts) && forall x | x in modules :: Merged(parts, x)
    ensures NoCircles(modules)
  {
    forall p, i, j | IsChain(modules, p) && 0 <= i < j < |p| ensures p[i] != p[j] {
      ChainInside(modules, p);
      PlacesFall(modules, parts, p, i, j);
    }
  }

  /** Merging every loaded module comes to an end exactly when no imports lead in a circle; and if
      they do not, one more call than there are modules is deep enough. */
  lemma MergeEndsIff(modules: map<Name, File>, todo: seq<Part>)
    requires forall x | x in modules :: Merged(todo, x)
    ensures (exists depth: nat :: MergeAll(depth, modules, [], todo).Done?) <==> NoCircles(modules)
    ensures NoCircles(modules) ==> MergeAll(|modules| + 1, modules, [], todo).Done?
  {
    if NoCircles(modules) {
      MergeAllEnds(|modules| + 1, modules, [], todo, []);
    }
    forall depth: nat | MergeAll(depth, modules, [], todo).Done? ensures NoCircles(modules) {
      MergeAllOrders(depth, modules, [], todo);
      OrderedMeansNoCircles(modules, MergeAll(depth, modules, [], todo).parts);
    }
  }

  // ---------------------------------------------------------------- what is merged

  /** The parts from `k` on are modules that `n` needs, and only `n` itself can be the main one. */
  ghost predicate AddedFor(modules: map<Name, File>, parts: seq<Part>, k: nat, n: Name, isMain: bool) {
    k <= |parts| && forall i | k <= i < |parts| ::
      && Needs(modules, n, parts[i].name)
      && (parts[i].isMain <==> isMain && parts[i].name == n)
      && (parts[i].name != n ==> IsImported(modules, parts[i].name))
  }

  /** What a module's import needs, the module needs; and the import does not need the module. */
  lemma AddedForImport(modules: map<Name, File>, before: seq<Part>, parts: seq<Part>, k: nat, n: Name, d: Name)
    requires NoCircles(modules) && Imports(modules, n, d) && before <= parts
    requires AddedFor(modules, before, k, n, false) && AddedFor(modules, parts, |before|, d, false)
    requires !Merged(before, n)
    ensures AddedFor(modules, parts, k, n, false) && !Merged(parts, n)
  {
    NotNeededBack(modules, n, d);
    forall i | k <= i < |parts|
      ensures Needs(modules, n, parts[i].name) && !parts[i].isMain
          && (parts[i].name != n ==> IsImported(modules, parts[i].name))
    {
      if i < |before| {
        assert parts[i] == before[i];
      } else {
        NeedsStep(modules, n, d, parts[i].name);
      }
    }
    forall i | 0 <= i < |parts| ensures parts[i].name != n {
      assert i < |before| ==> parts[i] == before[i];
    }
  }

  /** One call merges the module and what it needs, each once; nothing but the module itself can be
      the main one. */
  lemma {:induction false} MergeOneAdds(depth: nat, modules: map<Name, File>, parts: seq<Part>, part: Part)
    requires NoCircles(modules) && Once(parts) && MergeOne(depth, modules, parts, part).Done?
    ensures var out := MergeOne(depth, modules, parts, part).parts;
            parts <= out && Once(out) && AddedFor(modules, out, |parts|, part.name, part.isMain)
    decreases depth, 0
  {
    var n := part.name;
    if Merged(parts, n) || n !in modules {
    } else {
      var todo := Dependencies(modules[n]);
      assert todo[..|todo|] == todo;
      MergeImportsAdd(depth - 1, modules, parts, n, |todo|);
      NeedsSelf(modules, n);
    }
  }

  lemma {:induction false} MergeImportsAdd(depth: nat, modules: map<Name, File>, parts: seq<Part>, n: Name, k: nat)
    requires NoCircles(modules) && Once(parts) && n in modules && !Merged(parts, n) && k <= |modules[n].imports|
    requires MergeAll(depth, modules, parts, Dependencies(modules[n])[..k]).Done?
    ensures var out := MergeAll(depth, modules, parts, Dependencies(modules[n])[..k]).parts;
            parts <= out && Once(out) && !Merged(out, n) && AddedFor(modules, out, |parts|, n, false)
    decreases depth, k + 1
  {
    var todo := Dependencies(modules[n]);
    if k == 0 {
    } else {
      assert todo[..k] == todo[..k - 1] + [todo[k - 1]];
      MergeNext(depth, modules, parts, todo[..k - 1], todo[k - 1]);
      MergeImportsAdd(depth, modules, parts, n, k - 1);
      var before := MergeAll(depth, modules, parts, todo[..k - 1]).parts;
      MergeOneAdds(depth, modules, before, todo[k - 1]);
      var d := todo[k - 1].name;
      if d in modules {
        assert Dependency(modules[n], k - 1) == d && Imports(modules, n, d);
        AddedForImport(modules, before, MergeOne(depth, modules, before, todo[k - 1]).parts, |parts|, n, d);
      }
    }
  }

  /** The parts from `k` on were merged for one of `todo`. */
  ghost predicate AddedForSome(modules: map<Name, File>, parts: seq<Part>, k: nat, todo: seq<Part>) {
    k <= |parts| && forall i | k <= i < |parts| :: AddedForOneOf(modules, parts[i], todo)
  }

  ghost predicate AddedForOneOf(modules: map<Name, File>, part: Part, todo: seq<Part>) {
    exists j :: 0 <= j < |todo| && AddedBecauseOf(modules, part, todo[j])
  }

  ghost predicate AddedBecauseOf(modules: map<Name, File>, part: Part, r: Part) {
    && r.name in modules && Needs(modules, r.name, part.name)
    && (part.isMain <==> r.isMain && part.name == r.name)
    && (part.name != r.name ==> IsImported(modules, part.name))
  }

  lemma {:induction false} MergeAllAdds(depth: nat, modules: map<Name, File>, parts: seq<Part>, todo: seq<Part>)
    requires NoCircles(modules) && Once(parts) && MergeAll(depth, modules, parts, todo).Done?
    ensures var out := MergeAll(depth, modules, parts, todo).parts;
            parts <= out && Once(out) && AddedForSome(modules, out, |parts|, todo)
    decreases |todo|
  {
    if todo == [] {
    } else {
      var last := |todo| - 1;
      MergeAllAdds(depth, modules, parts, todo[..last]);
      var before := MergeAll(depth, modules, parts, todo[..last]).parts;
      MergeOneAdds(depth, modules, before, todo[last]);
      var out := MergeAll(depth, modules, parts, todo).parts;
      forall i | |parts| <= i < |out| ensures AddedForOneOf(modules, out[i], todo) {
        if i < |before| {
          assert AddedForOneOf(modules, before[i], todo[..last]);
          var j :| 0 <= j < last && AddedBecauseOf(modules, before[i], todo[..last][j]);
          assert out[i] == before[i] && todo[..last][j] == todo[j];
        } else {
          assert Needs(modules, todo[last].name, out[i].name);
          assert AddedBecauseOf(modules, out[i], todo[last]);
        }
      }
    }
  }

  // ---------------------------------------------------------------- the order of the whole

  const BUILTINS: seq<Name> := ["strings", "grammar", "file"]

  function Prelude(): (r: seq<Part>)
    ensures |r| == |BUILTINS|
  {
    seq(|BUILTINS|, i requires 0 <= i < |BUILTINS| => Part(BUILTINS[i], false))
  }

  ghost predicate InPrelude(modules: map<Name, File>, x: Name) {
    exists j :: 0 <= j < |BUILTINS| && BUILTINS[j] in modules && Needs(modules, BUILTINS[j], x)
  }

  ghost predicate IsImported(modules: map<Name, File>, x: Name) {
    exists y :: Imports(modules, y, x)
  }

  /** Nothing comes before a prelude module but what the prelude itself needs. */
  ghost predicate PreludeFirst(modules: map<Name, File>, parts: seq<Part>) {
    forall i, j | 0 <= i < j < |parts| && InPrelude(modules, parts[j].name) :: InPrelude(modules, parts[i].name)
  }

  /** Nothing comes before the program but the prelude and what the program itself needs. */
  ghost predicate MainNext(modules: map<Name, File>, parts: seq<Part>, main: Name) {
    forall i, j | 0 <= i < j < |parts| && Needs(modules, main, parts[j].name) ::
      InPrelude(modules, parts[i].name) || Needs(modules, main, parts[i].name)
  }

  /** The calls before those for every module: with a main module, the prelude and then that. */
  function Leading(modules: map<Name, File>, main: Name): seq<Part> {
    if main != "" && main in modules then Prelude() + [Part(main, true)] else []
  }

  /** The calls that `get_combined_ast` makes: the prelude, the main module, and then every module;
      without a main module, every module, as a main one if none was named. */
  ghost predicate InOrder(modules: map<Name, File>, main: Name, todo: seq<Part>) {
    var first := Leading(modules, main);
    && first <= todo && (forall x | x in modules :: Merged(todo, x))
    && forall i | |first| <= i < |todo| :: todo[i].isMain == (main == "")
  }

  lemma OneMoreMerged(parts: seq<Part>, part: Part)
    ensures forall x :: Merged(parts + [part], x) <==> Merged(parts, x) || x == part.name
  {
    var more := parts + [part];
    assert more[|parts|] == part;
    forall x ensures Merged(more, x) <==> Merged(parts, x) || x == part.name {
      if Merged(parts, x) {
        MergedMore(parts, more, x);
      }
    }
  }

  lemma {:induction false} ChainIsMerged(modules: map<Name, File>, parts: seq<Part>, p: seq<Name>)
    requires ImportsFirst(modules, parts) && IsChain(modules, p) && Merged(parts, p[0])
    ensures Merged(parts, p[|p| - 1])
    decreases |p|
  {
    if |p| <= 1 {
    } else {
      var i :| 0 <= i < |parts| && parts[i].name == p[0];
      assert Imports(modules, p[0], p[1]);
      MergedMore(parts[..i], parts, p[1]);
      assert forall k | 0 < k < |p[1..]| :: p[1..][k - 1] == p[k] && p[1..][k] == p[k + 1];
      ChainIsMerged(modules, parts, p[1..]);
    }
  }

  lemma NeededIsMerged(modules: map<Name, File>, parts: seq<Part>, n: Name, x: Name)
    requires ImportsFirst(modules, parts) && Merged(parts, n) && Needs(modules, n, x)
    ensures Merged(parts, x)
  {
    var p :| IsChain(modules, p) && p[0] == n && p[|p| - 1] == x;
    ChainIsMerged(modules, parts, p);
  }

  lemma NeededAreMerged(modules: map<Name, File>, parts: seq<Part>, n: Name)
    requires ImportsFirst(modules, parts) && Merged(parts, n)
    ensures forall x | Needs(modules, n, x) :: Merged(parts, x)
  {
    forall x | Needs(modules, n, x) ensures Merged(parts, x) {
      NeededIsMerged(modules, parts, n, x);
    }
  }

  /** A name merged within a prefix does not turn up after it. */
  lemma StaysInPrefix(parts: seq<Part>, prefix: seq<Part>, j: nat)
    requires Once(parts) && prefix <= parts && j < |parts| && Merged(prefix, parts[j].name)
    ensures j < |prefix|
  {
    var i :| 0 <= i < |prefix| && prefix[i].name == parts[j].name;
    assert parts[i].name == parts[j].name;
  }

  lemma PrefixIsFirst(modules: map<Name, File>, prelude: seq<Part>, program: seq<Part>, parts: seq<Part>, main: Name)
    requires Once(parts) && prelude <= program <= parts
    requires forall x :: Merged(prelude, x) <==> InPrelude(modules, x)
    requires forall x :: Merged(program, x) <==> InPrelude(modules, x) || Needs(modules, main, x)
    ensures PreludeFirst(modules, parts) && MainNext(modules, parts, main)
  {
    forall i, j | 0 <= i < j < |parts| && InPrelude(modules, parts[j].name) ensures InPrelude(modules, parts[i].name) {
      StaysInPrefix(parts, prelude, j);
      assert Merged(prelude, prelude[i].name) && prelude[i] == parts[i];
    }
    forall i, j | 0 <= i < j < |parts| && Needs(modules, main, parts[j].name)
      ensures InPrelude(modules, parts[i].name) || Needs(modules, main, parts[i].name)
    {
      StaysInPrefix(parts, program, j);
      assert Merged(program, program[i].name) && program[i] == parts[i];
    }
  }

  lemma MainIsMain(modules: map<Name, File>, prelude: seq<Part>, program: seq<Part>, parts: seq<Part>, main: Name,
        i: nat)
    requires Once(parts) && prelude <= program <= parts && i < |parts| && Merged(program, main)
    requires Merged(prelude, main) <==> InPrelude(modules, main)
    requires forall j | 0 <= j < |prelude| :: !prelude[j].isMain
    requires forall j | |prelude| <= j < |program| :: program[j].isMain <==> program[j].name == main
    requires forall j | |program| <= j < |parts| :: !parts[j].isMain
    ensures parts[i].isMain <==> parts[i].name == main && !InPrelude(modules, main)
  {
    if i < |prelude| {
      assert prelude[i] == parts[i] && Merged(prelude, prelude[i].name);
    }
    if parts[i].name == main {
      StaysInPrefix(parts, program, i);
      if InPrelude(modules, main) {
        StaysInPrefix(parts, prelude, i);
      }
    } else if i < |program| {
      assert program[i] == parts[i];
    }
  }

  /** What the first calls have merged comes first. */
  lemma {:induction false} FirstCalls(depth: nat, modules: map<Name, File>, first: seq<Part>, todo: seq<Part>)
    requires first <= todo && MergeAll(depth, modules, [], todo).Done?
    ensures MergeAll(depth, modules, [], first).Done?
    ensures MergeAll(depth, modules, [], first).parts <= MergeAll(depth, modules, [], todo).parts
    decreases |todo|
  {
    if first == todo {
    } else {
      var last := |todo| - 1;
      FirstCalls(depth, modules, first, todo[..last]);
      MergeAllOrders(depth, modules, [], todo[..last]);
      MergeOneOrders(depth, modules, MergeAll(depth, modules, [], todo[..last]).parts, todo[last]);
    }
  }

  /** The prelude's calls merge exactly what the prelude needs. */
  lemma PreludeMerges(depth: nat, modules: map<Name, File>)
    requires NoCircles(modules) && MergeAll(depth, modules, [], Prelude()).Done?
    ensures var out := MergeAll(depth, modules, [], Prelude()).parts;
            && (forall x :: Merged(out, x) <==> InPrelude(modules, x))
            && forall i | 0 <= i < |out| :: !out[i].isMain
  {
    MergeAllAdds(depth, modules, [], Prelude());
    MergeAllOrders(depth, modules, [], Prelude());
    var out := MergeAll(depth, modules, [], Prelude()).parts;
    forall i | 0 <= i < |out| ensures !out[i].isMain && InPrelude(modules, out[i].name) {
      assert AddedForOneOf(modules, out[i], Prelude());
      var j :| 0 <= j < |Prelude()| && AddedBecauseOf(modules, out[i], Prelude()[j]);
      assert BUILTINS[j] == Prelude()[j].name;
    }
    forall x | InPrelude(modules, x) ensures Merged(out, x) {
      var j :| 0 <= j < |BUILTINS| && BUILTINS[j] in modules && Needs(modules, BUILTINS[j], x);
      assert Prelude()[j].name == BUILTINS[j];
      NeededIsMerged(modules, out, BUILTINS[j], x);
    }
  }

  /** The main module's call adds what the main module needs. */
  lemma MainMerges(depth: nat, modules: map<Name, File>, main: Name)
    requires NoCircles(modules) && main in modules && MergeAll(depth, modules, [], Prelude() + [Part(main, true)]).Done?
    ensures var prelude := MergeAll(depth, modules, [], Prelude());
            var program := MergeAll(depth, modules, [], Prelude() + [Part(main, true)]).parts;
            && prelude.Done? && prelude.parts <= program
            && (forall x :: Merged(program, x) <==> InPrelude(modules, x) || Needs(modules, main, x))
            && forall i | |prelude.parts| <= i < |program| :: program[i].isMain <==> program[i].name == main
  {
    MergeNext(depth, modules, [], Prelude(), Part(main, true));
    PreludeMerges(depth, modules);
    MergeAllAdds(depth, modules, [], Prelude());
    MergeAllOrders(depth, modules, [], Prelude());
    var prelude := MergeAll(depth, modules, [], Prelude()).parts;
    MergeOneAdds(depth, modules, prelude, Part(main, true));
    MergeOneOrders(depth, modules, prelude, Part(main, true));
    var program := MergeOne(depth, modules, prelude, Part(main, true)).parts;
    NeededAreMerged(modules, program, main);
    MergedStay(prelude, program);
    forall i | 0 <= i < |program| ensures InPrelude(modules, program[i].name) || Needs(modules, main, program[i].name) {
      if i < |prelude| {
        assert program[i] == prelude[i] && Merged(prelude, prelude[i].name);
      }
    }
  }

  /** `get_combined_ast` on loaded modules without import circles: every module once, each import
      before its importer; the prelude first, then the main module and what it needs, then the
      rest; and the main module alone is marked as such, unless the prelude needs it. */
  lemma CombinedOrder(depth: nat, modules: map<Name, File>, main: Name, todo: seq<Part>)
    requires NoCircles(modules) && InOrder(modules, main, todo) && MergeAll(depth, modules, [], todo).Done?
    ensures var parts := MergeAll(depth, modules, [], todo).parts;
            Once(parts) && ImportsFirst(modules, parts) && forall x :: Merged(parts, x) <==> x in modules
    ensures var parts := MergeAll(depth, modules, [], todo).parts;
            if main == "" then forall i | 0 <= i < |parts| :: parts[i].isMain || IsImported(modules, parts[i].name)
            else if main !in modules then forall i | 0 <= i < |parts| :: !parts[i].isMain
            else
              && PreludeFirst(modules, parts) && MainNext(modules, parts, main)
              && forall i | 0 <= i < |parts| :: parts[i].isMain <==> parts[i].name == main && !InPrelude(modules, main)
  {
    var parts := MergeAll(depth, modules, [], todo).parts;
    MergeAllAdds(depth, modules, [], todo);
    MergeAllOrders(depth, modules, [], todo);
    AllMerged(modules, parts, todo);
    if main == "" || main !in modules {
      forall i | 0 <= i < |parts|
        ensures if main == "" then parts[i].isMain || IsImported(modules, parts[i].name) else !parts[i].isMain
      {
        assert AddedForOneOf(modules, parts[i], todo);
      }
    } else {
      MainInOrder(depth, modules, main, todo);
    }
  }

  lemma AllMerged(modules: map<Name, File>, parts: seq<Part>, todo: seq<Part>)
    requires AddedForSome(modules, parts, 0, todo) && forall x | x in modules :: Merged(todo, x)
    requires forall i | 0 <= i < |todo| && todo[i].name in modules :: Merged(parts, todo[i].name)
    ensures forall x :: Merged(parts, x) <==> x in modules
  {
    forall x | Merged(parts, x) ensures x in modules {
      var i :| 0 <= i < |parts| && parts[i].name == x;
      assert AddedForOneOf(modules, parts[i], todo);
      var j :| 0 <= j < |todo| && AddedBecauseOf(modules, parts[i], todo[j]);
      var p :| IsChain(modules, p) && p[0] == todo[j].name && p[|p| - 1] == x;
      ChainInside(modules, p);
    }
  }

  lemma MainInOrder(depth: nat, modules: map<Name, File>, main: Name, todo: seq<Part>)
    requires NoCircles(modules) && InOrder(modules, main, todo) && MergeAll(depth, modules, [], todo).Done?
    requires main != "" && main in modules
    ensures var parts := MergeAll(depth, modules, [], todo).parts;
            && PreludeFirst(modules, parts) && MainNext(modules, parts, main)
            && forall i | 0 <= i < |parts| :: parts[i].isMain <==> parts[i].name == main && !InPrelude(modules, main)
  {
    var first := Prelude() + [Part(main, true)];
    var parts := MergeAll(depth, modules, [], todo).parts;
    FirstCalls(depth, modules, first, todo);
    MainMerges(depth, modules, main);
    PreludeMerges(depth, modules);
    MergeAllAdds(depth, modules, [], todo);
    var prelude, program := MergeAll(depth, modules, [], Prelude()).parts, MergeAll(depth, modules, [], first).parts;
    RestIsNotMain(depth, modules, main, todo, first);
    NeedsSelf(modules, main);
    forall i | 0 <= i < |parts|
      ensures parts[i].isMain <==> parts[i].name == main && !InPrelude(modules, main)
    {
      MainIsMain(modules, prelude, program, parts, main, i);
    }
    PrefixIsFirst(modules, prelude, program, parts, main);
  }

  /** No call after the main module's marks anything as the main one. */
  lemma {:induction false} RestIsNotMain(depth: nat, modules: map<Name, File>, main: Name, todo: seq<Part>,
        first: seq<Part>)
    requires NoCircles(modules) && first <= todo && MergeAll(depth, modules, [], todo).Done?
    requires MergeAll(depth, modules, [], first).Done? && forall i | |first| <= i < |todo| :: !todo[i].isMain
    ensures var parts, program := MergeAll(depth, modules, [], todo).parts, MergeAll(depth, modules, [], first).parts;
            program <= parts && forall i | |program| <= i < |parts| :: !parts[i].isMain
    decreases |todo|
  {
    if first == todo {
    } else {
      var last := |todo| - 1;
      RestIsNotMain(depth, modules, main, todo[..last], first);
      MergeAllAdds(depth, modules, [], todo[..last]);
      MergeOneAdds(depth, modules, MergeAll(depth, modules, [], todo[..last]).parts, todo[last]);
    }
  }
}
