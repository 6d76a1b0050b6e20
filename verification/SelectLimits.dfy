/** When a conditional that is generated as selects (nir_if_stmt.cpp) does what its branch does:
    exactly, for a branch of straight-line code. */
module SelectLimits {
  import opened Statements
  import opened BranchSelects
  import opened LoopCarried
  import opened Chains

  // ---------------------------------------------------------------- straight-line branches

  /** Assignments only, and no expression occurs twice. */
  ghost predicate Plain(b: Block) {
    && Convertible(b, true)
    && (forall i | 0 <= i < |b| :: b[i].Assignment?)
    && (forall i, j | 0 <= i < j < |b| :: b[i].value != b[j].value)
  }

  /** The one way through such a branch. */
  function Way(b: Block): seq<Item> {
    seq(|b|, i requires 0 <= i < |b| =>
      if b[i].Assignment? && b[i].target.Identifier? then Set(b[i].target.symbol, b[i].value)
      else Set("", Expr(0, {}, true)))
  }

  lemma {:induction false} OneWay(sem: Semantics, b: Block, start: Store)
    requires Plain(b)
    ensures AllPaths(b) == {Way(b)} && Path(sem, b, start) == Way(b)
  {
    if b == [] {
      assert Way(b) == [];
    } else {
      var rest := b[1..];
      assert Plain(rest) by {
        assert forall i | 0 <= i < |rest| :: rest[i] == b[i + 1];
      }
      OneWay(sem, rest, start);
      assert ConvertibleStmt(b[0], true);
      assert Way(b) == [Set(b[0].target.symbol, b[0].value)] + Way(rest);
    }
  }

  /** The semantics in which every value tells how it came about, and every condition holds, or none. */
  function Free(holds: bool): Semantics {
    Semantics(
      (e: Expr, s: Store) => Computed(e, map x | x in e.uses && x in s :: s[x]),
      (e, s) => holds,
      (e, s) => [],
      (e, p, s) => true)
  }

  lemma FreeIsFaithful(h: bool)
    ensures Faithful(Free(h))
  {
    forall e: Expr, s: Store, t: Store | Agree(e.uses, s, t) ensures Free(h).value(e, s) == Free(h).value(e, t) {
      var u: Store, v: Store := map x | x in e.uses && x in s :: s[x], map x | x in e.uses && x in t :: t[x];
      assert u == v;
    }
  }

  // ---------------------------------------------------------------- where it goes wrong

  lemma WayAt(b: Block, k: nat)
    requires Plain(b) && k < |b|
    ensures b[k].target.Identifier? && Way(b)[k] == Set(b[k].target.symbol, b[k].value)
  {
    assert ConvertibleStmt(b[k], true);
  }

  /** The last place that sets a name is not before another that does. */
  lemma NotBefore(p: seq<Item>, k: nat, y: Name, last: nat)
    requires k <= |p| && SetIn(p[k..], y) && last < |p| && !SetIn(p[last + 1..], y)
    ensures last >= k
  {
    var j :| 0 <= j < |p[k..]| && p[k..][j].Set? && p[k..][j].name == y;
    assert p[k + j] == p[k..][j];
    assert forall i | last + 1 <= i < |p| :: p[last + 1..][i - last - 1] == p[i];
  }

  /** Before place `k` a name has the value it started with or that of an expression before `k`. */
  lemma EarlierValue(h: bool, b: Block, start: Store, k: nat, y: Name)
    requires Plain(b) && k <= |b|
    ensures var p, at := Way(b), RunPath(Free(h), Way(b)[..k], start);
      if SetIn(p[..k], y) then y in at && at[y].Computed? && exists j :: 0 <= j < k && at[y].expr == b[j].value
      else (y in at <==> y in start) && (y in start ==> at[y] == start[y])
  {
    var p := Way(b);
    if SetIn(p[..k], y) {
      var j := LastSet(Free(h), p[..k], start, y, Number(0), start);
      WayAt(b, j);
      assert p[..k][j] == p[j];
    } else {
      UnsetStays(Free(h), p[..k], start, y, Number(0), start);
    }
  }

  /** At the end a name that is set from place `k` on has the value of an expression from `k` on. */
  lemma LaterValue(h: bool, b: Block, start: Store, k: nat, y: Name)
    requires Plain(b) && k <= |b| && SetIn(Way(b)[k..], y)
    ensures var end := RunPath(Free(h), Way(b), start);
      y in end && end[y].Computed? && exists j :: k <= j < |b| && end[y].expr == b[j].value
  {
    var p := Way(b);
    assert SetIn(p, y) by {
      var j :| 0 <= j < |p[k..]| && p[k..][j].Set? && p[k..][j].name == y;
      assert p[k + j] == p[k..][j];
    }
    var last := LastSet(Free(h), p, start, y, Number(0), start);
    NotBefore(p, k, y, last);
    WayAt(b, last);
  }

  /** A read that is not right finds something else in the selects so far than on the path. */
  lemma WrongRead(h: bool, order: seq<Name>, i: nat, b: Block, now: Store, start: Store, k: nat, y: Name)
    requires Plain(b) && NoDuplicates(order) && i < |order| && Follows(Free(h), order, i, Way(b), now, start)
    requires k < |b| && Way(b)[k].name == order[i]
    requires !ReadRight(order, start.Keys, Way(b), k, y) && forall x | x in start :: start[x].Number?
    ensures !Agree({y}, now, RunPath(Free(h), Way(b)[..k], start))
  {
    InPrefix(order, i, y);
    EarlierValue(h, b, start, k, y);
    if y in start && Before(order, y, order[i]) {
      LaterValue(h, b, start, k, y);
      assert Agree({y}, now, RunPath(Free(h), Way(b), start));
    }
  }

  lemma FreeDiffers(h: bool, e: Expr, s: Store, t: Store, y: Name)
    requires y in e.uses && !Agree({y}, s, t)
    ensures Free(h).value(e, s) != Free(h).value(e, t)
  {
    var u: Store, v: Store := map x | x in e.uses && x in s :: s[x], map x | x in e.uses && x in t :: t[x];
    assert (y in u <==> y in s) && (y in v <==> y in t);
  }

  lemma {:induction false} WayIsCollected(b: Block, k: nat)
    requires Plain(b) && k < |b|
    ensures Way(b)[k].name in Collected(b)
  {
    WayAt(b, k);
    assert ConvertibleStmt(b[k], true);
    if k == 0 {
      assert StmtCollected(b[0]) == [b[0].target.symbol];
    } else {
      var rest := b[1..];
      assert Plain(rest) by {
        assert forall i | 0 <= i < |rest| :: rest[i] == b[i + 1];
      }
      WayIsCollected(rest, k - 1);
      WayAt(rest, k - 1);
    }
  }

  /** The first name of a list that fails a test, if one does. */
  lemma {:induction false} FirstFailing(order: seq<Name>, fails: Name -> bool) returns (i: nat)
    requires exists j :: 0 <= j < |order| && fails(order[j])
    ensures i < |order| && fails(order[i]) && forall j | 0 <= j < i :: !fails(order[j])
  {
    i := 0;
    while !fails(order[i])
      invariant i < |order| && forall j | 0 <= j < i :: !fails(order[j])
      decreases |order| - i
    {
      i := i + 1;
    }
  }

  /** A name with a last value that reads wrong is among those that are handed on. */
  lemma WrongName(st: Stmt, b: Block, start: Store) returns (x: Name)
    requires st.If? && (b == st.consequent || b == st.alternate) && Plain(b)
    requires !PathRight(Handed(st), start.Keys, Way(b))
    ensures x in Handed(st) && x in start && !NameRight(Handed(st), start.Keys, Way(b), x)
  {
    var order, p, live := Handed(st), Way(b), start.Keys;
    var k :| 0 <= k < |p| && !ItemRight(order, live, p, k);
    WayAt(b, k);
    WayIsCollected(b, k);
    x := p[k].name;
    HandedNames(st, x);
  }

  /** If some last value reads wrong, there is a first such name in the order of the selects. */
  lemma FirstWrong(st: Stmt, b: Block, start: Store) returns (i: nat)
    requires st.If? && (b == st.consequent || b == st.alternate) && Plain(b)
    requires !PathRight(Handed(st), start.Keys, Way(b))
    ensures i < |Handed(st)| && Handed(st)[i] in start && !NameRight(Handed(st), start.Keys, Way(b), Handed(st)[i])
    ensures forall j | 0 <= j < i && Handed(st)[j] in start :: NameRight(Handed(st), start.Keys, Way(b), Handed(st)[j])
  {
    var order, p, live := Handed(st), Way(b), start.Keys;
    var x := WrongName(st, b, start);
    var fails: Name ~> bool := y => y in live && !NameRight(order, live, p, y);
    i := FirstFailing(order, fails);
  }

  lemma SameLast(p: seq<Item>, x: Name, k: nat, l: nat)
    requires k < |p| && p[k].Set? && p[k].name == x && !SetIn(p[k + 1..], x)
    requires l < |p| && p[l].Set? && p[l].name == x && !SetIn(p[l + 1..], x)
    ensures k == l
  {
    NotBefore(p, k, x, l) by {
      assert p[k..][0] == p[k];
    }
    NotBefore(p, l, x, k) by {
      assert p[l..][0] == p[l];
    }
  }

  /** Selects whose reads are not all right make something else of a visible name than the branch. */
  lemma WrongSelect(h: bool, st: Stmt, b: Block, start: Store) returns (x: Name)
    requires st.If? && (b == st.consequent || b == st.alternate) && Plain(b)
    requires forall y | y in start :: start[y].Number?
    requires !PathRight(Handed(st), start.Keys, Way(b))
    ensures x in start
    ensures !Agree({x}, Selected(Free(h), Handed(st), b, start, start), RunPath(Free(h), Way(b), start))
  {
    var order, p := Handed(st), Way(b);
    HandedNames(st, "");
    FreeIsFaithful(h);
    OneWay(Free(h), b, start);
    var i := FirstWrong(st, b, start);
    x := order[i];
    var now := SelectsFollowPath(Free(h), order, i, b, p, start);
    var v := PathValue(Free(h), p, x, start[x], now);
    WrongValue(h, order, i, b, now, start);
    ValueAfterIsPathValue(Free(h), b, true, x, start[x], now, start);
    assert order[i..][0] == x && order[i..][1..] == order[i + 1..];
    SelectedKeeps(Free(h), order[i + 1..], b, now[x := v], start);
    assert x !in order[i + 1..];
  }

  lemma WrongValue(h: bool, order: seq<Name>, i: nat, b: Block, now: Store, start: Store)
    requires Plain(b) && NoDuplicates(order) && i < |order| && Follows(Free(h), order, i, Way(b), now, start)
    requires order[i] in start && forall x | x in start :: start[x].Number?
    requires !NameRight(order, start.Keys, Way(b), order[i])
    ensures var x, end := order[i], RunPath(Free(h), Way(b), start);
      x in end && PathValue(Free(h), Way(b), x, start[x], now) != end[x]
  {
    var p, x := Way(b), order[i];
    var k :| 0 <= k < |p| && p[k].Set? && p[k].name == x && !ItemRight(order, start.Keys, p, k);
    assert SetIn(p, x);
    var last := LastSet(Free(h), p, start, x, start[x], now);
    SameLast(p, x, k, last);
    var y :| y in p[k].expr.uses && !ReadRight(order, start.Keys, p, k, y);
    WrongRead(h, order, i, b, now, start, k, y);
    FreeDiffers(h, p[k].expr, now, RunPath(Free(h), p[..k], start), y);
  }

  // ---------------------------------------------------------------- the exact condition

  lemma {:induction false} PlainIsCovered(b: Block, live: set<Name>)
    requires Plain(b)
    ensures Covered(b, live)
  {
    if b == [] {
    } else {
      var rest := b[1..];
      assert Plain(rest) by {
        assert forall i | 0 <= i < |rest| :: rest[i] == b[i + 1];
      }
      PlainIsCovered(rest, LiveAfter(b[0], live));
    }
  }

  /** A conditional over straight-line code that is generated as selects does what its branches do,
      whatever its expressions compute from what they read, exactly when in both the last value of
      each visible name reads only names that are selected before it and settled, or untouched so
      far. The order of the selects is that of both branches, one after the other. */
  lemma SelectIff(c: Expr, yes: Block, no: Block, live: set<Name>)
    requires Plain(yes) && Plain(no) && ReadsVisible(yes, live) && ReadsVisible(no, live)
    ensures var st := If(c, yes, no);
      SameOutcomes(st, live) <==> PathRight(Handed(st), live, Way(yes)) && PathRight(Handed(st), live, Way(no))
  {
    var st := If(c, yes, no);
    if PathRight(Handed(st), live, Way(yes)) && PathRight(Handed(st), live, Way(no)) {
      RightSelects(st, live);
    } else {
      WrongBranch(st, !PathRight(Handed(st), live, Way(yes)), live);
    }
  }

  lemma RightSelects(st: Stmt, live: set<Name>)
    requires st.If? && Plain(st.consequent) && Plain(st.alternate)
    requires ReadsVisible(st.consequent, live) && ReadsVisible(st.alternate, live)
    requires PathRight(Handed(st), live, Way(st.consequent)) && PathRight(Handed(st), live, Way(st.alternate))
    ensures SameOutcomes(st, live)
  {
    OneWay(Free(true), st.consequent, map[]);
    OneWay(Free(true), st.alternate, map[]);
    assert SelectsRight(st, live);
    PlainIsCovered(st.consequent, live);
    PlainIsCovered(st.alternate, live);
    forall sem, s: Store | Faithful(sem) && s.Keys == live ensures EndAlike(sem, st, s) {
      forall n: nat ensures ExecStmt(n, sem, true, st, s) == ExecStmt(n, sem, false, st, s) {
        CarryingSufficesStmt(n, sem, st, s);
      }
      assert AlikeFrom(0, sem, st, s);
    }
  }

  lemma WrongBranch(st: Stmt, h: bool, live: set<Name>)
    requires st.If? && Plain(st.consequent) && Plain(st.alternate)
    requires var b := if h then st.consequent else st.alternate;
      ReadsVisible(b, live) && !PathRight(Handed(st), live, Way(b))
    ensures !SameOutcomes(st, live)
  {
    var b, s := if h then st.consequent else st.alternate, Zeros(live);
    assert s.Keys == live;
    var x := WrongSelect(h, st, b, s);
    FreeIsFaithful(h);
    var enough := |b| + 4;
    forall n: nat | n >= enough ensures ExecStmt(n, Free(h), true, st, s) != ExecStmt(n, Free(h), false, st, s) {
      SelectDiffers(n, h, st, s, x);
    }
    DifferFrom(enough, Free(h), st, s);
  }

  lemma SelectDiffers(n: nat, h: bool, st: Stmt, s: Store, x: Name)
    requires st.If? && Plain(st.consequent) && Plain(st.alternate) && x in s
    requires var b := if h then st.consequent else st.alternate;
      && ReadsVisible(b, s.Keys) && n >= |b| + 4
      && !Agree({x}, Selected(Free(h), Handed(st), b, s, s), RunPath(Free(h), Way(b), s))
    ensures ExecStmt(n, Free(h), true, st, s) != ExecStmt(n, Free(h), false, st, s)
  {
    var b := if h then st.consequent else st.alternate;
    SelectRuns(n, Free(h), st, b, s);
    BranchIsRun(n, Free(h), st, b, s);
    StraightKeeps(Free(h), b, s);
    StraightFollowsWay(h, b, s);
    SelectedKeeps(Free(h), Handed(st), b, s, s);
  }

  lemma SelectRuns(n: nat, sem: Semantics, st: Stmt, b: Block, s: Store)
    requires st.If? && Selects(st) && Straight(b) && n >= |b| + 4
    requires b == if sem.holds(st.condition, s) then st.consequent else st.alternate
    ensures ExecStmt(n, sem, true, st, s) == Done(Selected(sem, Handed(st), b, s, s), Normal)
  {
    StraightRuns(n - 3, sem, true, b, s);
    assert ExecStmt(n, sem, true, st, s) == ExecIf(n - 1, sem, true, st, s);
    assert ExecScoped(n - 2, sem, true, Only(Handed(st)), b, s).Done?;
  }

  lemma BranchIsRun(n: nat, sem: Semantics, st: Stmt, b: Block, s: Store)
    requires st.If? && Straight(b) && n >= |b| + 4
    requires b == if sem.holds(st.condition, s) then st.consequent else st.alternate
    ensures ExecStmt(n, sem, false, st, s) == Done(Scoped(s, RunStraight(sem, b, s)), Normal)
  {
    StraightRuns(n - 3, sem, false, b, s);
    IfIsScoped(n, sem, st, s);
  }

  lemma {:induction false} StraightFollowsWay(h: bool, b: Block, s: Store)
    requires Plain(b)
    ensures RunStraight(Free(h), b, s) == RunPath(Free(h), Way(b), s)
  {
    if b == [] {
      assert Way(b) == [];
    } else {
      var rest := b[1..];
      assert Plain(rest) by {
        assert forall i | 0 <= i < |rest| :: rest[i] == b[i + 1];
      }
      WayAt(b, 0);
      assert ConvertibleStmt(b[0], true);
      assert Way(b) == [Way(b)[0]] + Way(rest);
      RunPathAppend(Free(h), [Way(b)[0]], Way(rest), s);
      assert [Way(b)[0]][..0] == [];
      StraightFollowsWay(h, rest, Assign(Free(h), b[0].target, b[0].value, s));
    }
  }

  /** `if c { x = x + 1; x = x * 2 }` as selects forgets the first assignment. */
  lemma SecondUpdateForgetsFirst(c: Expr, first: Expr, second: Expr, x: Name)
    requires x != "" && first != second && first.pure && second.pure && first.uses == {x} && second.uses == {x}
    ensures var b := [Assignment(Identifier(x), first, false), Assignment(Identifier(x), second, false)];
      !SameOutcomes(If(c, b, []), {x})
  {
    var b := [Assignment(Identifier(x), first, false), Assignment(Identifier(x), second, false)];
    var st := If(c, b, []);
    assert b[1..] == [b[1]] && b[1..][1..] == [];
    assert Plain(b);
    assert ReadsVisible(b, {x}) by {
      assert LiveAfter(b[0], {x}) == {x} && LiveAfter(b[1], {x}) == {x};
      assert ReadsVisible(b[1..][1..], {x});
      assert ReadsVisible(b[1..], {x});
    }
    assert Plain([]) && ReadsVisible([], {x});
    SelectIff(c, b, [], {x});
    WayAt(b, 0);
    WayAt(b, 1);
    var p := Way(b);
    assert p[2..] == [] && p[..1][0] == p[0];
    assert SetIn(p[..1], x);
    HandedNames(st, "");
    assert !Before(Handed(st), x, x);
    assert !ReadRight(Handed(st), {x}, p, 1, x);
    assert !ItemRight(Handed(st), {x}, p, 1);
  }
}
