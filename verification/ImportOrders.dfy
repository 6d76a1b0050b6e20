/** Resolution whatever the order in which the files list their imports: a program with the lists in
    another order is the same program, and yet one walk may fail where the other does not. */
module ImportOrders {
  import opened Modules

  // ---------------------------------------------------------------- other orders

  /** Each file makes the same requests as before, in some order. */
  ghost predicate Reorders(how: File -> File) {
    forall f :: how(f).name == f.name && SameRequests(f, how(f))
  }

  ghost predicate SameRequests(f: File, g: File) {
    multiset(Requests(f)) == multiset(Requests(g))
  }

  ghost function Reordered(disk: Disk, how: File -> File): Disk {
    Disk(map n | n in disk.found :: how(disk.found[n]), disk.runtime)
  }

  lemma SameImports(disk: Disk, how: File -> File, n: Name, d: Name)
    requires Reorders(how)
    ensures Follows(disk, n, d) <==> Follows(Reordered(disk, how), n, d)
  {
    if n in disk.found {
      var f, g := disk.found[n], how(disk.found[n]);
      assert SameRequests(f, g);
      assert d in Requests(f) <==> d in multiset(Requests(f));
      assert d in Requests(g) <==> d in multiset(Requests(g));
    }
  }

  lemma SamePaths(disk: Disk, how: File -> File)
    requires Reorders(how)
    ensures forall p :: IsPath(disk, p) <==> IsPath(Reordered(disk, how), p)
  {
    var other := Reordered(disk, how);
    forall p ensures IsPath(disk, p) <==> IsPath(other, p) {
      forall i | 0 < i < |p| ensures Follows(disk, p[i - 1], p[i]) <==> Follows(other, p[i - 1], p[i]) {
        SameImports(disk, how, p[i - 1], p[i]);
      }
    }
  }

  lemma SameReach(disk: Disk, how: File -> File)
    requires Reorders(how)
    ensures forall n, x :: Reaches(Reordered(disk, how), n, x) <==> Reaches(disk, n, x)
  {
    var other := Reordered(disk, how);
    SamePaths(disk, how);
    forall n, x ensures Reaches(disk, n, x) <==> Reaches(other, n, x) {
      if Reaches(disk, n, x) {
        var p :| IsPath(disk, p) && p[0] == n && p[|p| - 1] == x;
        assert IsPath(other, p);
      }
      if Reaches(other, n, x) {
        var p :| IsPath(other, p) && p[0] == n && p[|p| - 1] == x;
        assert IsPath(disk, p);
      }
    }
  }

  lemma SameClean(disk: Disk, how: File -> File, visited: set<Name>, n: Name)
    requires Reorders(how)
    ensures Clean(Reordered(disk, how), visited, n) <==> Clean(disk, visited, n)
  {
    SamePaths(disk, how);
    forall p | p != [] ensures PathClean(disk, visited, p) <==> PathClean(Reordered(disk, how), visited, p) {
    }
  }

  lemma ReorderedWalk(disk: Disk, how: File -> File, n: Name)
    requires Reorders(how) && n in disk.found && NoneHides(disk, Reachable(disk, n))
    ensures var other := Reordered(disk, how);
      Walk(other, {}, map[], n).error.None? <==> Clean(disk, {}, n) && Orderly(other, Asks(other, {}, n))
  {
    var other := Reordered(disk, how);
    SameReach(disk, how);
    SameClean(disk, how, {}, n);
    ReachableIsClosed(other, n);
    WalkIff(other, Reachable(other, n), {}, map[], n);
  }

  // ---------------------------------------------------------------- one name in front

  /** The names of `xs` that lead to `m` first. */
  ghost function Fronted(disk: Disk, m: Name, xs: seq<Name>): seq<Name> {
    Leading(disk, m, xs, true) + Leading(disk, m, xs, false)
  }

  ghost function Leading(disk: Disk, m: Name, xs: seq<Name>, leads: bool): (r: seq<Name>)
    ensures forall x :: x in r <==> x in xs && Reaches(disk, x, m) == leads
  {
    if xs == [] then []
    else (if Reaches(disk, xs[0], m) == leads then [xs[0]] else []) + Leading(disk, m, xs[1..], leads)
  }

  lemma {:induction false} FrontedIsSame(disk: Disk, m: Name, xs: seq<Name>)
    ensures multiset(Fronted(disk, m, xs)) == multiset(xs)
  {
    if xs == [] {
    } else {
      FrontedIsSame(disk, m, xs[1..]);
      assert xs == [xs[0]] + xs[1..];
    }
  }

  lemma {:induction false} UnquotedTwice(s: string)
    ensures Unquoted(Unquoted(s)) == Unquoted(s)
  {
    if s == "" {
    } else {
      UnquotedTwice(s[1..]);
      var rest := Unquoted(s[1..]);
      if s[0] == '"' {
        assert "" + rest == rest;
      } else {
        assert ([s[0]] + rest)[0] == s[0] && ([s[0]] + rest)[1..] == rest;
      }
    }
  }

  ghost predicate Bare(xs: seq<Name>) {
    forall x | x in xs :: Unquoted(x) == x
  }

  lemma {:induction false} RemainingAreBare(imports: seq<Name>, dependencies: seq<Name>)
    ensures Bare(Remaining(imports, dependencies))
  {
    if dependencies == [] {
    } else {
      UnquotedTwice(dependencies[0]);
      RemainingAreBare(imports, dependencies[1..]);
    }
  }

  lemma RequestsAreBare(f: File)
    ensures Bare(Requests(f))
  {
    forall x | x in AllUnquoted(f.imports) ensures Unquoted(x) == x {
      var i :| 0 <= i < |f.imports| && AllUnquoted(f.imports)[i] == x;
      UnquotedTwice(f.imports[i]);
    }
    RemainingAreBare(AllUnquoted(f.imports), f.dependencies);
  }

  lemma BareRequests(name: Name, xs: seq<Name>)
    requires Bare(xs)
    ensures Requests(File(name, xs, [])) == xs
  {
    assert forall i | 0 <= i < |xs| :: xs[i] in xs;
    assert AllUnquoted(xs) == xs && Remaining(xs, []) == [];
  }

  /** Every request that leads to `m` before those that do not. */
  ghost function Front(disk: Disk, m: Name): File -> File {
    (f: File) => File(f.name, Fronted(disk, m, Requests(f)), [])
  }

  lemma FrontedRequests(disk: Disk, m: Name, f: File)
    ensures Requests(Front(disk, m)(f)) == Fronted(disk, m, Requests(f))
  {
    RequestsAreBare(f);
    BareRequests(f.name, Fronted(disk, m, Requests(f)));
  }

  lemma FrontReorders(disk: Disk, m: Name)
    ensures Reorders(Front(disk, m))
  {
    forall f ensures SameRequests(f, Front(disk, m)(f)) {
      FrontedRequests(disk, m, f);
      FrontedIsSame(disk, m, Requests(f));
    }
  }

  ghost predicate Ahead(asks: seq<Name>, m: Name, k: Name) {
    exists i, j :: 0 <= i < j < |asks| && asks[i] == m && asks[j] == k
  }

  lemma AheadInAppend(xs: seq<Name>, ys: seq<Name>, m: Name, k: Name)
    ensures Ahead(xs, m, k) || Ahead(ys, m, k) || (m in xs && k in ys) ==> Ahead(xs + ys, m, k)
  {
    var all := xs + ys;
    if Ahead(xs, m, k) {
      var i, j :| 0 <= i < j < |xs| && xs[i] == m && xs[j] == k;
      assert all[i] == m && all[j] == k;
    } else if Ahead(ys, m, k) {
      var i, j :| 0 <= i < j < |ys| && ys[i] == m && ys[j] == k;
      assert all[|xs| + i] == m && all[|xs| + j] == k;
    } else if m in xs && k in ys {
      var i :| 0 <= i < |xs| && xs[i] == m;
      var j :| 0 <= j < |ys| && ys[j] == k;
      assert all[i] == m && all[|xs| + j] == k;
    }
  }

  lemma {:induction false} AsksAllAppend(disk: Disk, path: set<Name>, xs: seq<Name>, ys: seq<Name>)
    ensures AsksAll(disk, path, xs + ys) == AsksAll(disk, path, xs) + AsksAll(disk, path, ys)
    decreases |xs|
  {
    if xs == [] {
      assert xs + ys == ys;
    } else {
      assert (xs + ys)[0] == xs[0] && (xs + ys)[1..] == xs[1..] + ys;
      AsksAllAppend(disk, path, xs[1..], ys);
    }
  }

  lemma AheadInAll(disk: Disk, path: set<Name>, requests: seq<Name>, d: Name, m: Name, k: Name)
    requires d in requests && d in disk.found && Ahead(Asks(disk, path, d), m, k)
    ensures Ahead(AsksAll(disk, path, requests), m, k)
  {
    var i :| 0 <= i < |requests| && requests[i] == d;
    assert requests == requests[..i] + ([d] + requests[i + 1..]);
    AsksAllAppend(disk, path, requests[..i], [d] + requests[i + 1..]);
    AsksAllAppend(disk, path, [d], requests[i + 1..]);
    assert [d][1..] == [];
    assert AsksAll(disk, path, [d]) == Asks(disk, path, d);
    AheadInAppend(Asks(disk, path, d), AsksAll(disk, path, requests[i + 1..]), m, k);
    AheadInAppend(AsksAll(disk, path, requests[..i]), AsksAll(disk, path, [d] + requests[i + 1..]), m, k);
  }

  /** The requests that lead to `m`, and then the others. */
  ghost predicate Parts(disk: Disk, m: Name, xs: seq<Name>, ys: seq<Name>) {
    (forall x | x in xs :: Reaches(disk, x, m)) && forall y | y in ys :: !Reaches(disk, y, m)
  }

  /** Every file makes the requests that lead to `m` first. */
  ghost predicate InFront(disk: Disk, m: Name) {
    forall n | n in disk.found :: exists xs, ys :: Requests(disk.found[n]) == xs + ys && Parts(disk, m, xs, ys)
  }

  lemma FrontIsInFront(disk: Disk, m: Name)
    ensures InFront(Reordered(disk, Front(disk, m)), m)
  {
    var front := Reordered(disk, Front(disk, m));
    FrontReorders(disk, m);
    SameReach(disk, Front(disk, m));
    forall n | n in disk.found
      ensures exists xs, ys :: Requests(front.found[n]) == xs + ys && Parts(front, m, xs, ys)
    {
      var requests := Requests(disk.found[n]);
      FrontedRequests(disk, m, disk.found[n]);
      assert Parts(front, m, Leading(disk, m, requests, true), Leading(disk, m, requests, false));
    }
  }

  /** Then `m` is asked for before `k`, unless `k` leads to `m`. */
  lemma {:induction false} FrontAsksFirst(disk: Disk, path: set<Name>, n: Name, m: Name, k: Name)
    requires n in disk.found && InFront(disk, m) && Clean(disk, path, n)
    requires Reaches(disk, n, m) && Reaches(disk, n, k) && m != k && !Reaches(disk, k, m)
    ensures Ahead(Asks(disk, path, n), m, k)
    decreases disk.found.Keys - path
  {
    var more := path + {n};
    var xs, ys :| Requests(disk.found[n]) == xs + ys && Parts(disk, m, xs, ys);
    CleanStep(disk, path, n);
    assert n in disk.found.Keys - path && n !in disk.found.Keys - more;
    assert forall d :: Follows(disk, n, d) <==> Goes(disk, xs + ys, d);
    ReachesStep(disk, n, m);
    ReachesStep(disk, n, k);
    var leadsToBoth, d := FrontCases(disk, more, xs, ys, n, m, k);
    if leadsToBoth {
      FrontAsksFirst(disk, more, d, m, k);
      AheadInAll(disk, more, xs + ys, d, m, k);
      AheadInAppend([n], AsksAll(disk, more, xs + ys), m, k);
    }
  }

  /** Some request leads to both names, or they are asked for in this order. */
  lemma FrontCases(disk: Disk, path: set<Name>, xs: seq<Name>, ys: seq<Name>, n: Name, m: Name, k: Name)
      returns (leadsToBoth: bool, d: Name)
    requires AllClean(disk, path, xs + ys) && Parts(disk, m, xs, ys)
    requires n == m || exists c :: Goes(disk, xs + ys, c) && Reaches(disk, c, m)
    requires exists c :: Goes(disk, xs + ys, c) && Reaches(disk, c, k)
    ensures if leadsToBoth then
        && d in xs + ys && d in disk.found && Clean(disk, path, d)
        && Reaches(disk, d, m) && Reaches(disk, d, k)
      else Ahead([n] + AsksAll(disk, path, xs + ys), m, k)
  {
    leadsToBoth, d := false, n;
    if n == m {
      AskedIsReachedAll(disk, path, xs + ys, k);
      AheadInAppend([n], AsksAll(disk, path, xs + ys), m, k);
    } else {
      var c :| Goes(disk, xs + ys, c) && Reaches(disk, c, k);
      if Reaches(disk, c, m) {
        CleanStep(disk, path, c);
        leadsToBoth, d := true, c;
      } else {
        assert c in ys && Goes(disk, ys, c);
        var b :| Goes(disk, xs + ys, b) && Reaches(disk, b, m);
        assert b in xs && Goes(disk, xs, b);
        AsksAllAppend(disk, path, xs, ys);
        AskedIsReachedAll(disk, path, xs, m);
        AskedIsReachedAll(disk, path, ys, k);
        AheadInAppend(AsksAll(disk, path, xs), AsksAll(disk, path, ys), m, k);
        AheadInAppend([n], AsksAll(disk, path, xs + ys), m, k);
      }
    }
  }

  // ---------------------------------------------------------------- when no order matters

  /** Whatever the order of the imports in the files, the walk returns normally, if and only if what
      it starts from is clean and no file that it leads to is asked for by two names. */
  lemma OrdersIff(disk: Disk, n: Name)
    requires n in disk.found && NoneHides(disk, Reachable(disk, n))
    ensures (forall how | Reorders(how) :: Walk(Reordered(disk, how), {}, map[], n).error.None?)
       <==> Clean(disk, {}, n) && OneNameEach(disk, Reachable(disk, n))
  {
    if Clean(disk, {}, n) && OneNameEach(disk, Reachable(disk, n)) {
      forall how | Reorders(how) ensures Walk(Reordered(disk, how), {}, map[], n).error.None? {
        ReorderedWalk(disk, how, n);
        OneNameIsOrderly(disk, how, n);
      }
    } else if Clean(disk, {}, n) {
      var m :| m in Reachable(disk, n) && m in disk.found
               && disk.found[m].name != m && disk.found[m].name in Reachable(disk, n);
      FrontReorders(disk, m);
      TwoNamesClash(disk, n, m);
      ReorderedWalk(disk, Front(disk, m), n);
    } else {
      var same := (f: File) => f;
      assert Reorders(same);
      ReorderedWalk(disk, same, n);
    }
  }

  lemma OneNameIsOrderly(disk: Disk, how: File -> File, n: Name)
    requires Reorders(how) && n in disk.found && Clean(disk, {}, n) && OneNameEach(disk, Reachable(disk, n))
    ensures var other := Reordered(disk, how); Orderly(other, Asks(other, {}, n))
  {
    var asks := Asks(Reordered(disk, how), {}, n);
    forall i, j | 0 <= i < j < |asks| && asks[i] in disk.found && disk.found[asks[i]].name == asks[j]
      ensures asks[i] == asks[j]
    {
      AskedInAnyOrder(disk, how, n, asks[i]);
      AskedInAnyOrder(disk, how, n, asks[j]);
    }
  }

  lemma AskedInAnyOrder(disk: Disk, how: File -> File, n: Name, x: Name)
    requires Reorders(how) && n in disk.found && Clean(disk, {}, n) && x in Asks(Reordered(disk, how), {}, n)
    ensures x in Reachable(disk, n)
  {
    SameReach(disk, how);
    SameClean(disk, how, {}, n);
    AskedIsReached(Reordered(disk, how), {}, n, x);
  }

  lemma TwoNamesClash(disk: Disk, n: Name, m: Name)
    requires n in disk.found && NoneHides(disk, Reachable(disk, n)) && Clean(disk, {}, n)
    requires Reaches(disk, n, m) && m in disk.found && disk.found[m].name != m && Reaches(disk, n, disk.found[m].name)
    ensures var front := Reordered(disk, Front(disk, m)); !Orderly(front, Asks(front, {}, n))
  {
    var k, front := disk.found[m].name, Reordered(disk, Front(disk, m));
    FrontReorders(disk, m);
    SameClean(disk, Front(disk, m), {}, n);
    CleanAvoids(disk, {}, n, k);
    if Reaches(disk, k, m) {
      ReachedIsClean(disk, n, k);
      ReachableIsClosed(disk, n);
      OwnNameIsFree(disk, Reachable(disk, n), k);
      AsksStep(disk, k);
      AskedIsReached(disk, {}, k, m);
    }
    SameReach(disk, Front(disk, m));
    FrontIsInFront(disk, m);
    FrontAsksFirst(front, {}, n, m, k);
    assert front.found[m].name == k;
  }
}
