/** The conditionals that are generated as selects (src/backend/nir/codegen/statements/nir_if_stmt.cpp):
    when what the selects define is what the taken branch would have assigned. */
module BranchSelects {
  import opened Statements

  // ---------------------------------------------------------------- paths through a branch

  /** What a run through a convertible branch comes across, in order. */
  datatype Item = Test(expr: Expr) | Set(name: Name, expr: Expr)

  /** Every way through a branch. */
  function AllPaths(b: Block): set<seq<Item>> {
    if b == [] then {[]} else set p, q | p in StmtPaths(b[0]) && q in AllPaths(b[1..]) :: p + q
  }

  function StmtPaths(s: Stmt): set<seq<Item>> {
    match s
    case Assignment(t, e, _) => if t.Identifier? then {[Set(t.symbol, e)]} else {[]}
    case If(c, yes, no) => set p | p in AllPaths(yes) + AllPaths(no) :: [Test(c)] + p
    case _ => {[]}
  }

  /** The way that is taken if all conditions are tested in the store `start`. */
  function Path(sem: Semantics, b: Block, start: Store): seq<Item> {
    if b == [] then [] else StmtPath(sem, b[0], start) + Path(sem, b[1..], start)
  }

  function StmtPath(sem: Semantics, s: Stmt, start: Store): seq<Item> {
    match s
    case Assignment(t, e, _) => if t.Identifier? then [Set(t.symbol, e)] else []
    case If(c, yes, no) => [Test(c)] + (if sem.holds(c, start) then Path(sem, yes, start) else Path(sem, no, start))
    case _ => []
  }

  predicate SetIn(p: seq<Item>, x: Name) {
    exists i :: 0 <= i < |p| && p[i].Set? && p[i].name == x
  }

  ghost predicate Before(order: seq<Name>, x: Name, y: Name) {
    exists i, j :: 0 <= i < j < |order| && order[i] == x && order[j] == y
  }

  /** A condition reads nothing that is set before it. What the last value of a visible name reads is
      either selected before that name and settled by then, or not touched until then. */
  ghost predicate ItemRight(order: seq<Name>, live: set<Name>, p: seq<Item>, k: nat)
    requires k < |p|
  {
    match p[k]
    case Test(c) => forall x | x in c.uses :: !SetIn(p[..k], x)
    case Set(n, e) =>
      n in live && !SetIn(p[k + 1..], n) ==>
        forall x | x in e.uses :: ReadRight(order, live, p, k, x)
  }

  ghost predicate ReadRight(order: seq<Name>, live: set<Name>, p: seq<Item>, k: nat, x: Name)
    requires k < |p| && p[k].Set?
  {
    if x in live && Before(order, x, p[k].name) then !SetIn(p[k..], x) else !SetIn(p[..k], x)
  }

  ghost predicate PathRight(order: seq<Name>, live: set<Name>, p: seq<Item>) {
    forall k | 0 <= k < |p| :: ItemRight(order, live, p, k)
  }

  /** Every expression of a branch reads names that are visible where it stands, as the checker of
      names demands. */
  predicate ReadsVisible(b: Block, live: set<Name>) {
    b == [] || (StmtReadsVisible(b[0], live) && ReadsVisible(b[1..], LiveAfter(b[0], live)))
  }

  predicate StmtReadsVisible(s: Stmt, live: set<Name>) {
    match s
    case Assignment(_, e, _) => e.uses <= live
    case If(c, yes, no) => c.uses <= live && ReadsVisible(yes, live) && ReadsVisible(no, live)
    case _ => true
  }

  ghost predicate BranchRight(order: seq<Name>, live: set<Name>, b: Block) {
    ReadsVisible(b, live) && forall p | p in AllPaths(b) :: PathRight(order, live, p)
  }

  /** The selects of the conditional do what its branches do. */
  ghost predicate SelectsRight(st: Stmt, live: set<Name>)
    requires st.If?
  {
    BranchRight(Handed(st), live, st.consequent) && BranchRight(Handed(st), live, st.alternate)
  }

  lemma {:induction false} TakenIsPath(sem: Semantics, b: Block, start: Store)
    ensures Path(sem, b, start) in AllPaths(b)
  {
    if b == [] {
    } else {
      StmtTakenIsPath(sem, b[0], start);
      TakenIsPath(sem, b[1..], start);
    }
  }

  lemma {:induction false} StmtTakenIsPath(sem: Semantics, s: Stmt, start: Store)
    ensures StmtPath(sem, s, start) in StmtPaths(s)
  {
    if s.If? {
      TakenIsPath(sem, s.consequent, start);
      TakenIsPath(sem, s.alternate, start);
    }
  }

  // ---------------------------------------------------------------- along a path

  /** What assigning along a path leads to. */
  function RunPath(sem: Semantics, p: seq<Item>, s: Store): Store
    decreases |p|
  {
    if p == [] then s
    else
      var w := RunPath(sem, p[..|p| - 1], s);
      match p[|p| - 1]
      case Test(_) => w
      case Set(n, e) => w[n := sem.value(e, w)]
  }

  /** What a select makes of a path: the last value of the name, computed in `now`. */
  function PathValue(sem: Semantics, p: seq<Item>, x: Name, current: Value, now: Store): Value
    decreases |p|
  {
    if p == [] then current
    else
      match p[|p| - 1]
      case Test(_) => PathValue(sem, p[..|p| - 1], x, current, now)
      case Set(n, e) => if n == x then sem.value(e, now) else PathValue(sem, p[..|p| - 1], x, current, now)
  }

  lemma {:induction false} PathValueAppend(sem: Semantics, p: seq<Item>, q: seq<Item>, x: Name, current: Value,
        now: Store)
    ensures PathValue(sem, p + q, x, current, now) == PathValue(sem, q, x, PathValue(sem, p, x, current, now), now)
    decreases |q|
  {
    if q == [] {
      assert p + q == p;
    } else {
      assert (p + q)[..|p + q| - 1] == p + q[..|q| - 1];
      PathValueAppend(sem, p, q[..|q| - 1], x, current, now);
    }
  }

  lemma {:induction false} ValueAfterIsPathValue(sem: Semantics, b: Block, top: bool, x: Name, current: Value,
        now: Store, start: Store)
    requires Convertible(b, top)
    ensures ValueAfter(sem, b, x, current, now, start) == PathValue(sem, Path(sem, b, start), x, current, now)
  {
    if b == [] {
    } else {
      StmtValueAfterIsPathValue(sem, b[0], top, x, current, now, start);
      var next := ValueAfterStmt(sem, b[0], x, current, now, start);
      ValueAfterIsPathValue(sem, b[1..], top, x, next, now, start);
      PathValueAppend(sem, StmtPath(sem, b[0], start), Path(sem, b[1..], start), x, current, now);
    }
  }

  lemma {:induction false} StmtValueAfterIsPathValue(sem: Semantics, s: Stmt, top: bool, x: Name, current: Value,
      now: Store, start: Store)
    requires ConvertibleStmt(s, top)
    ensures ValueAfterStmt(sem, s, x, current, now, start) == PathValue(sem, StmtPath(sem, s, start), x, current, now)
  {
    match s
    case Assignment(t, e, _) =>
      var p := [Set(t.symbol, e)];
      assert p[..|p| - 1] == [];
      assert TargetName(t) == [x] <==> [t.symbol][0] == [x][0];
    case If(c, yes, no) =>
      var taken := if sem.holds(c, start) then yes else no;
      ValueAfterIsPathValue(sem, taken, false, x, current, now, start);
      var head := [Test(c)];
      assert head[..|head| - 1] == [];
      PathValueAppend(sem, head, Path(sem, taken, start), x, current, now);
    case _ =>
  }

  lemma {:induction false} RunPathAppend(sem: Semantics, p: seq<Item>, q: seq<Item>, s: Store)
    ensures RunPath(sem, p + q, s) == RunPath(sem, q, RunPath(sem, p, s))
    decreases |q|
  {
    if q == [] {
      assert p + q == p;
    } else {
      assert (p + q)[..|p + q| - 1] == p + q[..|q| - 1];
      RunPathAppend(sem, p, q[..|q| - 1], s);
    }
  }

  /** A name that a path does not set is as it was. */
  lemma {:induction false} UnsetStays(sem: Semantics, p: seq<Item>, s: Store, x: Name, current: Value, now: Store)
    requires !SetIn(p, x)
    ensures Agree({x}, RunPath(sem, p, s), s)
    ensures PathValue(sem, p, x, current, now) == current
    decreases |p|
  {
    if p == [] {
    } else {
      var less := p[..|p| - 1];
      assert !SetIn(less, x) by {
        assert forall i | 0 <= i < |less| :: less[i] == p[i];
      }
      assert p[|p| - 1].Set? ==> p[|p| - 1].name != x;
      UnsetStays(sem, less, s, x, current, now);
    }
  }

  /** The last place that sets a name decides its value, for the run and for the select. */
  lemma {:induction false} LastSet(sem: Semantics, p: seq<Item>, s: Store, x: Name, current: Value, now: Store)
      returns (k: nat)
    requires SetIn(p, x)
    ensures k < |p| && p[k].Set? && p[k].name == x && !SetIn(p[k + 1..], x)
    ensures x in RunPath(sem, p, s) && RunPath(sem, p, s)[x] == sem.value(p[k].expr, RunPath(sem, p[..k], s))
    ensures PathValue(sem, p, x, current, now) == sem.value(p[k].expr, now)
    decreases |p|
  {
    var m := |p| - 1;
    if p[m].Set? && p[m].name == x {
      k := m;
    } else {
      var less := p[..m];
      assert SetIn(less, x) by {
        var i :| 0 <= i < |p| && p[i].Set? && p[i].name == x;
        assert less[i] == p[i];
      }
      k := LastSet(sem, less, s, x, current, now);
      assert less[..k] == p[..k];
      assert !SetIn(p[k + 1..], x) by {
        assert p[k + 1..] == less[k + 1..] + [p[m]];
      }
    }
  }

  // ---------------------------------------------------------------- the branch runs along its path

  /** The tests from `k` on read nothing that the path sets before them. */
  ghost predicate TestsRight(p: seq<Item>, k: nat) {
    forall j | k <= j < |p| && p[j].Test? :: forall x | x in p[j].expr.uses :: !SetIn(p[..j], x)
  }

  lemma TestsRightSplit(p: seq<Item>, q: seq<Item>, k: nat)
    requires TestsRight(p + q, k)
    ensures TestsRight(p, k) && (k <= |p| ==> TestsRight(p + q, |p|))
  {
    forall j | k <= j < |p| && p[j].Test? ensures forall x | x in p[j].expr.uses :: !SetIn(p[..j], x) {
      assert (p + q)[j] == p[j] && (p + q)[..j] == p[..j];
    }
  }

  /** A convertible branch that has come along `before` from `start` goes on along its path, and the
      names it can see have the values of the path. */
  lemma {:induction false} BranchRuns(n: nat, sem: Semantics, b: Block, top: bool, s: Store, before: seq<Item>,
        start: Store)
    requires Faithful(sem) && Convertible(b, top) && ReadsVisible(b, s.Keys)
    requires Agree(s.Keys, s, RunPath(sem, before, start))
    requires TestsRight(before + Path(sem, b, start), |before|)
    ensures var out := Exec(n, sem, false, b, s);
            out.Done? ==>
              out.signal.Normal? && Agree(out.store.Keys, out.store, RunPath(sem, before + Path(sem, b, start), start))
    decreases n
  {
    if n > 0 && b == [] {
      assert before + [] == before;
    } else if n > 0 {
      var first, rest := StmtPath(sem, b[0], start), Path(sem, b[1..], start);
      assert before + (first + rest) == before + first + rest;
      TestsRightSplit(before + first, rest, |before|);
      StmtRuns(n - 1, sem, b[0], top, s, before, start);
      ExecStmtSound(n - 1, sem, false, b[0], s);
      var out := ExecStmt(n - 1, sem, false, b[0], s);
      if out.Done? {
        BranchRuns(n - 1, sem, b[1..], top, out.store, before + first, start);
      }
    }
  }

  lemma {:induction false} StmtRuns(n: nat, sem: Semantics, st: Stmt, top: bool, s: Store, before: seq<Item>,
        start: Store)
    requires Faithful(sem) && ConvertibleStmt(st, top) && StmtReadsVisible(st, s.Keys)
    requires Agree(s.Keys, s, RunPath(sem, before, start))
    requires TestsRight(before + StmtPath(sem, st, start), |before|)
    ensures var out := ExecStmt(n, sem, false, st, s);
            out.Done? ==>
              out.signal.Normal?
                  && Agree(out.store.Keys, out.store, RunPath(sem, before + StmtPath(sem, st, start), start))
    decreases n
  {
    match st
    case Assignment(t, e, _) =>
      var p := before + [Set(t.symbol, e)];
      assert p[..|p| - 1] == before;
      assert Agree(e.uses, s, RunPath(sem, before, start));
    case If(_, _, _) => IfRuns(n, sem, st, s, before, start);
    case Call => assert before + [] == before;
  }

  lemma {:induction false} IfRuns(n: nat, sem: Semantics, st: Stmt, s: Store, before: seq<Item>, start: Store)
    requires Faithful(sem) && st.If? && ConvertibleStmt(st, false) && StmtReadsVisible(st, s.Keys)
    requires Agree(s.Keys, s, RunPath(sem, before, start))
    requires TestsRight(before + StmtPath(sem, st, start), |before|)
    ensures var out := ExecStmt(n, sem, false, st, s);
            out.Done? ==>
              out.signal.Normal?
                  && Agree(out.store.Keys, out.store, RunPath(sem, before + StmtPath(sem, st, start), start))
    decreases n, 0
  {
    IfIsScoped(n, sem, st, s);
    if n > 2 {
      var taken := if sem.holds(st.condition, s) then st.consequent else st.alternate;
      TakenRuns(n - 3, sem, st, s, before, start);
      ScopeRuns(n - 2, sem, taken, s, RunPath(sem, before + StmtPath(sem, st, start), start));
    }
  }

  /** The taken branch of a nested conditional runs along the path of the conditional. */
  lemma {:induction false} TakenRuns(n: nat, sem: Semantics, st: Stmt, s: Store, before: seq<Item>, start: Store)
    requires Faithful(sem) && st.If? && ConvertibleStmt(st, false) && StmtReadsVisible(st, s.Keys)
    requires Agree(s.Keys, s, RunPath(sem, before, start))
    requires TestsRight(before + StmtPath(sem, st, start), |before|)
    ensures var out := Exec(n, sem, false, if sem.holds(st.condition, s) then st.consequent else st.alternate, s);
            out.Done? ==>
              out.signal.Normal?
                  && Agree(out.store.Keys, out.store, RunPath(sem, before + StmtPath(sem, st, start), start))
    decreases n + 1
  {
    var c := st.condition;
    TestHolds(sem, c, s, before, StmtPath(sem, st, start)[1..], start);
    var taken := if sem.holds(c, s) then st.consequent else st.alternate;
    var here := before + [Test(c)];
    assert before + StmtPath(sem, st, start) == here + Path(sem, taken, start);
    TestsRightSplit(here, Path(sem, taken, start), |before|);
    TestStays(sem, before, c, start);
    BranchRuns(n, sem, taken, false, s, here, start);
  }

  lemma TestStays(sem: Semantics, before: seq<Item>, c: Expr, start: Store)
    ensures RunPath(sem, before + [Test(c)], start) == RunPath(sem, before, start)
  {
    var here := before + [Test(c)];
    assert here[..|here| - 1] == before;
  }

  lemma IfIsScoped(n: nat, sem: Semantics, st: Stmt, s: Store)
    requires st.If?
    ensures var taken := if sem.holds(st.condition, s) then st.consequent else st.alternate;
      ExecStmt(n, sem, false, st, s) == if n < 2 then OutOfFuel else ExecScoped(n - 2, sem, false, All, taken, s)
  {
    if n > 0 {
      assert ExecStmt(n, sem, false, st, s) == ExecIf(n - 1, sem, false, st, s);
    }
  }

  lemma ScopeRuns(n: nat, sem: Semantics, b: Block, s: Store, w: Store)
    requires n > 0
    requires var inner := Exec(n - 1, sem, false, b, s);
      inner.Done? ==> inner.signal.Normal? && Agree(inner.store.Keys, inner.store, w)
    ensures var out := ExecScoped(n, sem, false, All, b, s);
      out.Done? ==> out.signal.Normal? && Agree(out.store.Keys, out.store, w)
  {
    ExecSound(n - 1, sem, false, b, s);
  }

  /** A nested condition that reads nothing set before it holds where it stands as it does at the start. */
  lemma TestHolds(sem: Semantics, c: Expr, s: Store, before: seq<Item>, rest: seq<Item>, start: Store)
    requires Faithful(sem) && c.uses <= s.Keys && Agree(s.Keys, s, RunPath(sem, before, start))
    requires TestsRight(before + ([Test(c)] + rest), |before|)
    ensures sem.holds(c, s) == sem.holds(c, start)
  {
    var p := before + ([Test(c)] + rest);
    assert p[|before|] == Test(c) && p[..|before|] == before;
    forall x | x in c.uses ensures (x in s <==> x in start) && (x in s ==> s[x] == start[x]) {
      UnsetStays(sem, before, start, x, Number(0), start);
    }
    assert Agree(c.uses, s, start);
  }

  // ---------------------------------------------------------------- the selects do the same

  /** What the last value of `x` on the path reads is as it should be. */
  ghost predicate NameRight(order: seq<Name>, live: set<Name>, p: seq<Item>, x: Name) {
    forall k | 0 <= k < |p| && p[k].Set? && p[k].name == x :: ItemRight(order, live, p, k)
  }

  /** In `now` the visible names of `order[..i]` are what the path makes of them, and the others are
      as they were. */
  ghost predicate Follows(sem: Semantics, order: seq<Name>, i: nat, p: seq<Item>, now: Store, start: Store)
    requires i <= |order|
  {
    now.Keys == start.Keys && forall x | x in start ::
      if x in order[..i] then Agree({x}, now, RunPath(sem, p, start)) else now[x] == start[x]
  }

  /** As long as the names are right, the selects follow the path. */
  lemma {:induction false} SelectsFollowPath(sem: Semantics, order: seq<Name>, i: nat, branch: Block, p: seq<Item>,
      start: Store) returns (now: Store)
    requires Faithful(sem) && NoDuplicates(order) && i <= |order| && Convertible(branch, true)
    requires p == Path(sem, branch, start)
    requires forall j | 0 <= j < i && order[j] in start :: NameRight(order, start.Keys, p, order[j])
    ensures Follows(sem, order, i, p, now, start)
    ensures Selected(sem, order, branch, start, start) == Selected(sem, order[i..], branch, now, start)
    decreases i
  {
    if i == 0 {
      assert order[0..] == order;
      return start;
    }
    var before := SelectsFollowPath(sem, order, i - 1, branch, p, start);
    var x := order[i - 1];
    assert order[i - 1..][0] == x && order[i - 1..][1..] == order[i..];
    assert order[..i] == order[..i - 1] + [x];
    now := before;
    if x in start {
      ValueAfterIsPathValue(sem, branch, true, x, start[x], before, start);
      SelectIsRun(sem, order, i - 1, p, before, start);
      now := before[x := PathValue(sem, p, x, start[x], before)];
    }
  }

  lemma SelectIsRun(sem: Semantics, order: seq<Name>, i: nat, p: seq<Item>, now: Store, start: Store)
    requires Faithful(sem) && NoDuplicates(order) && i < |order| && order[i] in start
    requires NameRight(order, start.Keys, p, order[i]) && Follows(sem, order, i, p, now, start)
    ensures var x := order[i];
            x in RunPath(sem, p, start) && PathValue(sem, p, x, start[x], now) == RunPath(sem, p, start)[x]
  {
    var x := order[i];
    if !SetIn(p, x) {
      UnsetStays(sem, p, start, x, start[x], now);
    } else {
      var k := LastSet(sem, p, start, x, start[x], now);
      var at := RunPath(sem, p[..k], start);
      forall y | y in p[k].expr.uses ensures (y in now <==> y in at) && (y in now ==> now[y] == at[y]) {
        assert ReadRight(order, start.Keys, p, k, y);
        ReadAgrees(sem, order, i, p, now, start, k, y);
      }
      assert Agree(p[k].expr.uses, now, at);
    }
  }

  /** A right read finds in the selects so far what it finds on the path. */
  lemma ReadAgrees(sem: Semantics, order: seq<Name>, i: nat, p: seq<Item>, now: Store, start: Store, k: nat, y: Name)
    requires NoDuplicates(order) && i < |order| && Follows(sem, order, i, p, now, start)
    requires k < |p| && p[k].Set? && p[k].name == order[i] && ReadRight(order, start.Keys, p, k, y)
    ensures Agree({y}, now, RunPath(sem, p[..k], start))
  {
    var at := RunPath(sem, p[..k], start);
    InPrefix(order, i, y);
    if y in start && Before(order, y, order[i]) {
      UnsetStays(sem, p[k..], at, y, Number(0), now);
      RunPathAppend(sem, p[..k], p[k..], start);
      assert p == p[..k] + p[k..];
    } else {
      UnsetStays(sem, p[..k], start, y, Number(0), now);
    }
  }

  lemma InPrefix(order: seq<Name>, i: nat, y: Name)
    requires NoDuplicates(order) && i < |order|
    ensures Before(order, y, order[i]) <==> y in order[..i]
  {
    if y in order[..i] {
      var j :| 0 <= j < i && order[j] == y;
    }
    if Before(order, y, order[i]) {
      var j, k :| 0 <= j < k < |order| && order[j] == y && order[k] == order[i];
      assert k == i;
      assert order[..i][j] == y;
    }
  }

  /** A path sets only names that the branch assigns. */
  lemma {:induction false} PathSets(sem: Semantics, b: Block, top: bool, start: Store, x: Name)
    requires Convertible(b, top) && SetIn(Path(sem, b, start), x)
    ensures x in Collected(b)
  {
    var first, rest := StmtPath(sem, b[0], start), Path(sem, b[1..], start);
    var whole: seq<Item> := first + rest;
    var i :| 0 <= i < |whole| && whole[i].Set? && whole[i].name == x;
    if i >= |first| {
      assert rest[i - |first|] == whole[i];
      PathSets(sem, b[1..], top, start, x);
    } else {
      assert first[i] == whole[i];
      StmtPathSets(sem, b[0], top, start, x);
    }
  }

  lemma {:induction false} StmtPathSets(sem: Semantics, s: Stmt, top: bool, start: Store, x: Name)
    requires ConvertibleStmt(s, top) && SetIn(StmtPath(sem, s, start), x)
    ensures x in StmtCollected(s)
  {
    if s.If? {
      var p := StmtPath(sem, s, start);
      var i :| 0 <= i < |p| && p[i].Set? && p[i].name == x;
      var taken := if sem.holds(s.condition, start) then s.consequent else s.alternate;
      assert Path(sem, taken, start)[i - 1] == p[i];
      PathSets(sem, taken, false, start, x);
    }
  }

  lemma TestsOfPath(order: seq<Name>, live: set<Name>, p: seq<Item>)
    requires PathRight(order, live, p)
    ensures TestsRight(p, 0)
  {
    forall j | 0 <= j < |p| && p[j].Test? ensures forall x | x in p[j].expr.uses :: !SetIn(p[..j], x) {
      assert ItemRight(order, live, p, j);
    }
  }

  /** What the selects of a conditional make of a visible name. */
  lemma SelectedAt(sem: Semantics, st: Stmt, branch: Block, s: Store, x: Name)
    requires Faithful(sem) && st.If? && Selects(st) && SelectsRight(st, s.Keys)
    requires x in s && (branch == st.consequent || branch == st.alternate)
    ensures var selected := Selected(sem, Handed(st), branch, s, s);
            selected.Keys == s.Keys && Agree({x}, selected, RunPath(sem, Path(sem, branch, s), s))
  {
    var p, order := Path(sem, branch, s), Handed(st);
    TakenIsPath(sem, branch, s);
    assert PathRight(order, s.Keys, p);
    HandedNames(st, x);
    forall j | 0 <= j < |order| ensures NameRight(order, s.Keys, p, order[j]) {
      assert forall k | 0 <= k < |p| :: ItemRight(order, s.Keys, p, k);
    }
    var now := SelectsFollowPath(sem, order, |order|, branch, p, s);
    assert order[|order|..] == [] && order[..|order|] == order;
    if x !in order {
      if SetIn(p, x) {
        PathSets(sem, branch, true, s, x);
      }
      UnsetStays(sem, p, s, x, s[x], s);
    }
  }

  lemma BranchRunsFromStart(n: nat, sem: Semantics, order: seq<Name>, b: Block, s: Store)
    requires Faithful(sem) && Convertible(b, true) && BranchRight(order, s.Keys, b)
    ensures var out := Exec(n, sem, false, b, s);
            out.Done? ==> out.signal.Normal? && s.Keys <= out.store.Keys
    ensures var out := Exec(n, sem, false, b, s);
            out.Done? ==> Agree(out.store.Keys, out.store, RunPath(sem, Path(sem, b, s), s))
  {
    var p := Path(sem, b, s);
    TakenIsPath(sem, b, s);
    TestsOfPath(order, s.Keys, p);
    assert [] + p == p;
    BranchRuns(n, sem, b, true, s, [], s);
    ExecSound(n, sem, false, b, s);
  }

  lemma SelectedIsScoped(sem: Semantics, st: Stmt, branch: Block, s: Store, w: Store)
    requires Faithful(sem) && st.If? && Selects(st) && SelectsRight(st, s.Keys)
    requires branch == st.consequent || branch == st.alternate
    requires s.Keys <= w.Keys && Agree(w.Keys, w, RunPath(sem, Path(sem, branch, s), s))
    ensures Scoped(s, w) == Selected(sem, Handed(st), branch, s, s)
  {
    SelectedKeeps(sem, Handed(st), branch, s, s);
    forall x | x in s ensures Scoped(s, w)[x] == Selected(sem, Handed(st), branch, s, s)[x] {
      SelectedAt(sem, st, branch, s, x);
    }
  }

  /** A conditional whose selects are right defines through them exactly what running the taken
      branch in a scope of its own leaves of the visible names. */
  lemma SelectedIsRun(n: nat, sem: Semantics, st: Stmt, branch: Block, s: Store)
    requires Faithful(sem) && st.If? && Selects(st) && SelectsRight(st, s.Keys)
    requires branch == st.consequent || branch == st.alternate
    ensures var out := Exec(n, sem, false, branch, s);
            out.Done? ==> out.signal.Normal? && Scoped(s, out.store) == Selected(sem, Handed(st), branch, s, s)
  {
    BranchRunsFromStart(n, sem, Handed(st), branch, s);
    if Exec(n, sem, false, branch, s).Done? {
      SelectedIsScoped(sem, st, branch, s, Exec(n, sem, false, branch, s).store);
    }
  }
}
