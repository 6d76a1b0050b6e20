/** Where generated statements do not end as the language means them, shape by shape
    (src/backend/nir/codegen/statements): the exact condition for each, over chains of assignments,
    increments and deferred statements, and inputs that fail it. */
module CodegenLimits {
  import opened Statements
  import opened LoopCarried
  import opened Chains

  lemma AllAlike(st: Stmt, s: Store, sem: Semantics)
    requires forall n: nat :: ExecStmt(n, sem, true, st, s) == ExecStmt(n, sem, false, st, s)
    ensures EndAlike(sem, st, s)
  {
    assert AlikeFrom(0, sem, st, s);
  }

  // ---------------------------------------------------------------- loops with a condition

  /** The loop's condition reads something visible that the body writes. */
  ghost predicate Watches(c: Expr, b: Block, live: set<Name>) {
    exists y :: y in c.uses && y in live && y in Writes(b)
  }

  /** A loop around a chain is generated right exactly when the body loses nothing visible (no
      deferred statement writes it, and the walker lists it), or its condition reads nothing that the
      body writes, so that the loop does not begin or does not end. */
  lemma LoopIff(c: Expr, b: Block, live: set<Name>)
    requires Chain(b) && Once(b)
    ensures SameOutcomes(While(c, b), live) <==> NothingLost(b, Targets(b), live) || !Watches(c, b, live)
  {
    var st := While(c, b);
    if NothingLost(b, Targets(b), live) || !Watches(c, b, live) {
      forall sem, s: Store | Faithful(sem) && s.Keys == live ensures EndAlike(sem, st, s) {
        forall n: nat ensures ExecStmt(n, sem, true, st, s) == ExecStmt(n, sem, false, st, s) {
          if n > 0 && NothingLost(b, Targets(b), live) {
            LoopSame(n - 1, sem, st, s);
          } else if n > 0 && sem.holds(c, s) {
            RunsForever(n - 1, sem, true, st, s);
            RunsForever(n - 1, sem, false, st, s);
          }
        }
        AllAlike(st, s, sem);
      }
    } else {
      var y :| y in c.uses && y in live && y in Writes(b);
      var x :| x in live && x in Writes(b) && (x !in Targets(b) || x in Deferred(b));
      LoopLoses(st, x, y, live);
    }
  }

  lemma LoopLoses(st: Stmt, x: Name, y: Name, live: set<Name>)
    requires st.While? && Chain(st.body) && Once(st.body)
    requires x in live && x in Writes(st.body) && (x !in Targets(st.body) || x in Deferred(st.body))
    requires y in st.condition.uses && y in live && y in Writes(st.body)
    ensures !SameOutcomes(st, live)
  {
    var sem, s := Marks(ZeroTest(y), [], st.condition), Zeros(live);
    MarksAreFaithful(true, y, [], st.condition);
    var enough := ChainSize(st.body) + 4;
    forall n: nat | n >= enough ensures ExecStmt(n, sem, true, st, s) != ExecStmt(n, sem, false, st, s) {
      LoopDiffers(n - 1, x, y, st, s);
    }
    DifferFrom(enough, sem, st, s);
  }

  lemma {:induction false} LoopSame(n: nat, sem: Semantics, st: Stmt, s: Store)
    requires st.While? && Chain(st.body) && NothingLost(st.body, Targets(st.body), s.Keys)
    ensures ExecWhile(n, sem, true, st, s) == ExecWhile(n, sem, false, st, s)
    decreases n
  {
    if n == 0 || !sem.holds(st.condition, s) {
    } else {
      ChainRuns(n - 1, sem, true, st.body, s);
      ChainRuns(n - 1, sem, false, st.body, s);
      if Enough(n - 1, st.body) {
        SameLeft(sem, st.body, Targets(st.body), s);
        LoopSame(n - 1, sem, st, Scoped(s, RunChain(sem, false, st.body, s)));
      }
    }
  }

  /** What the condition of a loop sees changes from turn to turn only in what the turn hands on. */
  ghost predicate Unwatched(gen: bool, c: Expr, b: Block, live: set<Name>) {
    forall y | y in c.uses && y in live :: y !in (if gen then Targets(b) else Writes(b))
  }

  /** A loop that has begun never ends if its condition reads nothing that a turn hands on; generated,
      a turn hands on what the walker lists, unless only deferred statements write it. */
  lemma {:induction false} RunsForever(n: nat, sem: Semantics, gen: bool, st: Stmt, s: Store)
    requires Faithful(sem) && st.While? && Chain(st.body) && sem.holds(st.condition, s)
    requires Unwatched(gen, st.condition, st.body, s.Keys) || !Watches(st.condition, st.body, s.Keys)
    ensures ExecWhile(n, sem, gen, st, s).OutOfFuel?
    decreases n
  {
    if n == 0 {
    } else {
      var b := st.body;
      ChainRuns(n - 1, sem, gen, b, s);
      ChainKeeps(sem, gen, b, s);
      var next := LeaveBody(gen, b, s, RunChain(sem, gen, b, s));
      assert next.Keys == s.Keys;
      assert Agree(st.condition.uses, next, s);
      RunsForever(n - 1, sem, gen, st, next);
    }
  }

  /** The loop of the language ends after one turn. Generated, it ends with another value, or never. */
  lemma LoopDiffers(n: nat, x: Name, y: Name, st: Stmt, s: Store)
    requires st.While? && Chain(st.body) && Once(st.body) && n > ChainSize(st.body) + 2
    requires x in s && s[x] == Number(0) && x in Writes(st.body) && (x !in Targets(st.body) || x in Deferred(st.body))
    requires y in st.condition.uses && y in s && s[y] == Number(0) && y in Writes(st.body)
    ensures var sem := Marks(ZeroTest(y), [], st.condition);
      ExecWhile(n, sem, true, st, s) != ExecWhile(n, sem, false, st, s)
  {
    var sem, b := Marks(ZeroTest(y), [], st.condition), st.body;
    MarksAreFaithful(true, y, [], st.condition);
    TurnEnds(n, false, y, st, s);
    LostDiffers(sem, b, Targets(b), s, x);
    if y in Targets(b) {
      ChainNames(b, y);
      TurnEnds(n, true, y, st, s);
    } else {
      WaitsForever(n, sem, y, st, s);
    }
  }

  /** A turn that hands on a written `y` ends the loop that waits for it. */
  lemma TurnEnds(n: nat, gen: bool, y: Name, st: Stmt, s: Store)
    requires st.While? && Chain(st.body) && n > ChainSize(st.body) + 2
    requires y in st.condition.uses && y in s && s[y] == Number(0)
    requires if gen then y in Targets(st.body) && y in Early(st.body) else y in Writes(st.body)
    ensures var sem := Marks(ZeroTest(y), [], st.condition);
      ExecWhile(n, sem, gen, st, s) == Done(LeaveBody(gen, st.body, s, RunChain(sem, gen, st.body, s)), Normal)
  {
    var sem, b := Marks(ZeroTest(y), [], st.condition), st.body;
    ChainRuns(n - 1, sem, gen, b, s);
    ChainNames(b, y);
    ChainMarks(sem, gen, b, s, y);
    var left := LeaveBody(gen, b, s, RunChain(sem, gen, b, s));
    assert left[y] != Number(0);
    assert ExecWhile(n - 1, sem, gen, st, left) == Done(left, Normal);
  }

  /** Generated, a loop that waits for a name that the walker does not list never ends. */
  lemma {:induction false} WaitsForever(n: nat, sem: Semantics, y: Name, st: Stmt, s: Store)
    requires st.While? && Chain(st.body) && y !in Targets(st.body) && y in s && s[y] == Number(0)
    requires y in st.condition.uses && sem == Marks(ZeroTest(y), [], st.condition)
    ensures ExecWhile(n, sem, true, st, s).OutOfFuel?
    decreases n
  {
    if n == 0 {
    } else {
      ChainRuns(n - 1, sem, true, st.body, s);
      ChainKeeps(sem, true, st.body, s);
      WaitsForever(n - 1, sem, y, st, LeaveBody(true, st.body, s, RunChain(sem, true, st.body, s)));
    }
  }

  /** `while x == 0 { x++; }`: once begun, it never ends as generated, whatever `++` makes of `x`. */
  lemma IncrementRunsForever(n: nat, sem: Semantics, c: Expr, next: Expr, x: Name, s: Store)
    requires Faithful(sem) && sem.holds(c, s)
    ensures ExecWhile(n, sem, true, While(c, [Increment(Identifier(x), next)]), s).OutOfFuel?
  {
    var b := [Increment(Identifier(x), next)];
    assert b[1..] == [] && Targets(b) == [];
    RunsForever(n, sem, true, While(c, b), s);
  }

  /** `while x == 0 { defer { x = 1 }; x = 0 }`: the walker lists `x`, and yet the loop never ends. */
  lemma {:induction false} ListedDeferRunsForever(n: nat, c: Expr, zero: Expr, one: Expr, x: Name)
    requires x != "" && zero != one && x in c.uses
    ensures var sem := Flag(one, x);
      var body := [Defer([Assignment(Identifier(x), zero, false)], [Assignment(Identifier(x), one, false)])];
      && Faithful(sem) && x in Targets(body)
      && ExecWhile(n, sem, true, While(c, body), map[x := Number(0)]).OutOfFuel?
      && (n >= 10 ==>
            ExecWhile(n, sem, false, While(c, body), map[x := Number(0)]) == Done(map[x := Number(1)], Normal))
    decreases n
  {
    var sem := Flag(one, x);
    var r, d := [Assignment(Identifier(x), zero, false)], [Assignment(Identifier(x), one, false)];
    var body, s := [Defer(r, d)], map[x := Number(0)];
    assert body[1..] == [] && r[1..] == [] && Targets(r) == [x];
    if n == 0 {
    } else {
      ListedTurn(n - 1, sem, zero, one, x);
      ListedDeferRunsForever(n - 1, c, zero, one, x);
      if n >= 10 {
        var left: Store := map[x := Number(1)];
        assert Scoped(s, left) == left;
        assert ExecWhile(n - 1, sem, false, While(c, body), left) == Done(left, Normal);
      }
    }
  }

  /** `one` is 1 and every other expression 0; a condition that reads `x` holds while `x` is 0. */
  function Flag(one: Expr, x: Name): Semantics {
    Semantics((e, s) => Number(if e == one then 1 else 0), ZeroTest(x), (e, s) => [], (e, p, s) => false)
  }

  lemma OneAssignment(sem: Semantics, gen: bool, x: Name, e: Expr, s: Store)
    requires x != ""
    ensures var b := [Assignment(Identifier(x), e, false)];
      Chain(b) && RunChain(sem, gen, b, s) == s[x := sem.value(e, s)] == RunStraight(sem, b, s)
  {
    assert [Assignment(Identifier(x), e, false)][1..] == [];
  }

  lemma ListedTurn(n: nat, sem: Semantics, zero: Expr, one: Expr, x: Name)
    requires x != "" && zero != one && forall e: Expr, s: Store :: sem.value(e, s) == Number(if e == one then 1 else 0)
    ensures var body := [Defer([Assignment(Identifier(x), zero, false)], [Assignment(Identifier(x), one, false)])];
      var s: Store := map[x := Number(0)];
      && (Exec(n, sem, true, body, s).OutOfFuel? || Exec(n, sem, true, body, s) == Done(s, Normal))
      && LeaveBody(true, body, s, s) == s
      && (n >= 9 ==> Exec(n, sem, false, body, s) == Done(map[x := Number(1)], Normal))
  {
    var r, d := [Assignment(Identifier(x), zero, false)], [Assignment(Identifier(x), one, false)];
    var s: Store := map[x := Number(0)];
    var t: Store := map[x := Number(1)];
    var body := [Defer(r, d)];
    assert r[1..] == [] && d[1..] == [];
    assert Chain(r) && Straight(d) && body[0].remaining == r && body[0].deferred == d;
    assert Chain(body);
    OneAssignment(sem, true, x, zero, s);
    OneAssignment(sem, false, x, zero, s);
    OneAssignment(sem, true, x, one, s);
    assert s[x := Number(0)] == s && s[x := Number(1)] == t;
    assert Scoped(s, t) == t;
    assert forall m: nat :: Enough(m, r) <==> m > 1;
    assert Enough(n, body) <==> n > 5;
    ChainRuns(n, sem, true, body, s);
    ChainRuns(n, sem, false, body, s);
  }

  // ---------------------------------------------------------------- conditionals with results

  /** A conditional over chains that does not become selects is generated right exactly when neither
      branch loses anything visible: no deferred statement writes it, and the walker of the
      conditional, which stops at a `defer` and looks at no increment, collects it in some branch. */
  lemma ConditionalIff(c: Expr, yes: Block, no: Block, live: set<Name>)
    requires Chain(yes) && Chain(no) && Once(yes) && Once(no) && !Selects(If(c, yes, no))
    ensures var names := Handed(If(c, yes, no));
      SameOutcomes(If(c, yes, no), live) <==> NothingLost(yes, names, live) && NothingLost(no, names, live)
  {
    var st := If(c, yes, no);
    if NothingLost(yes, Handed(st), live) && NothingLost(no, Handed(st), live) {
      forall sem, s: Store | Faithful(sem) && s.Keys == live ensures EndAlike(sem, st, s) {
        forall n: nat ensures ExecStmt(n, sem, true, st, s) == ExecStmt(n, sem, false, st, s) {
          var b := if sem.holds(c, s) then yes else no;
          ConditionalRuns(n, sem, true, st, s);
          ConditionalRuns(n, sem, false, st, s);
          SameLeft(sem, b, Handed(st), s);
        }
        AllAlike(st, s, sem);
      }
    } else {
      var taken := !NothingLost(yes, Handed(st), live);
      var b := if taken then yes else no;
      var x :| x in live && x in Writes(b) && (x !in Handed(st) || x in Deferred(b));
      var sem, s := Marks(Always(taken), [], c), Zeros(live);
      MarksAreFaithful(taken, "", [], c);
      var enough := ChainSize(b) + 4;
      forall n: nat | n >= enough ensures ExecStmt(n, sem, true, st, s) != ExecStmt(n, sem, false, st, s) {
        ConditionalRuns(n, sem, true, st, s);
        ConditionalRuns(n, sem, false, st, s);
        LostDiffers(sem, b, Handed(st), s, x);
      }
      DifferFrom(enough, sem, st, s);
    }
  }

  lemma ConditionalRuns(n: nat, sem: Semantics, gen: bool, st: Stmt, s: Store)
    requires st.If? && Chain(st.consequent) && Chain(st.alternate) && !Selects(st)
    ensures var b := if sem.holds(st.condition, s) then st.consequent else st.alternate;
      ExecStmt(n, sem, gen, st, s) ==
        if n > 3 && Enough(n - 3, b)
        then Done(LeaveScope(if gen then Only(Handed(st)) else All, s, RunChain(sem, gen, b, s)), Normal) else OutOfFuel
  {
    var b := if sem.holds(st.condition, s) then st.consequent else st.alternate;
    var kept := if gen then Only(Handed(st)) else All;
    if n > 1 {
      assert ExecStmt(n, sem, gen, st, s) == ExecIf(n - 1, sem, gen, st, s);
      assert ExecIf(n - 1, sem, gen, st, s) == ExecScoped(n - 2, sem, gen, kept, b, s);
      ScopedChain(n - 2, sem, gen, kept, b, s);
    }
  }

  /** `if c { x++; }` leaves `x` as it was, whatever `++` makes of it. */
  lemma IncrementIsLost(n: nat, sem: Semantics, c: Expr, next: Expr, x: Name, s: Store)
    requires n > 5
    ensures ExecStmt(n, sem, true, If(c, [Increment(Identifier(x), next)], []), s) == Done(s, Normal)
  {
    var b := [Increment(Identifier(x), next)];
    var st := If(c, b, []);
    assert b[1..] == [] && Collected(b) == [];
    assert Collected(b) + Collected([]) == [];
    assert Handed(st) == [];
    assert !ConvertibleStmt(b[0], true);
    ConditionalRuns(n, sem, true, st, s);
    assert Enough(n - 3, b) && Enough(n - 3, []);
    assert forall w: Store :: Carried([], s, w) == s;
  }

  // ---------------------------------------------------------------- match arms

  /** A match over chains is generated right exactly when no arm writes a name that is visible around
      it. */
  lemma MatchIff(e: Expr, arms: seq<Arm>, live: set<Name>)
    requires forall i | 0 <= i < |arms| :: Chain(arms[i].body) && Once(arms[i].body)
    requires forall i, j | 0 <= i < j < |arms| :: arms[i].pattern != arms[j].pattern
    ensures SameOutcomes(Match(e, arms), live) <==> forall i | 0 <= i < |arms| :: NothingLost(arms[i].body, [], live)
  {
    var st := Match(e, arms);
    if forall i | 0 <= i < |arms| :: NothingLost(arms[i].body, [], live) {
      forall sem, s: Store | Faithful(sem) && s.Keys == live ensures EndAlike(sem, st, s) {
        forall n: nat ensures ExecStmt(n, sem, true, st, s) == ExecStmt(n, sem, false, st, s) {
          if n > 0 {
            SilentArms(n - 1, sem, e, arms, s);
          }
        }
        AllAlike(st, s, sem);
      }
    } else {
      var i :| 0 <= i < |arms| && !NothingLost(arms[i].body, [], live);
      assert forall j | 0 <= j < i :: arms[j].pattern != arms[i].pattern;
      MatchLoses(st, i, live);
    }
  }

  lemma MatchLoses(st: Stmt, i: nat, live: set<Name>)
    requires st.Match? && i < |st.arms| && Chain(st.arms[i].body) && Once(st.arms[i].body)
    requires forall j | 0 <= j < i :: st.arms[j].pattern != st.arms[i].pattern
    requires !NothingLost(st.arms[i].body, [], live)
    ensures !SameOutcomes(st, live)
  {
    var arms, b := st.arms, st.arms[i].body;
    var x :| x in live && x in Writes(b);
    var sem, s := Marks(Always(true), [], arms[i].pattern), Zeros(live);
    MarksAreFaithful(true, "", [], arms[i].pattern);
    var enough := |arms| + ChainSize(b) + 4;
    forall n: nat | n >= enough ensures ExecStmt(n, sem, true, st, s) != ExecStmt(n, sem, false, st, s) {
      ArmWritesDropped(n - 1, sem, st.subject, arms, i, s);
      LostDiffers(sem, b, [], s, x);
    }
    DifferFrom(enough, sem, st, s);
  }

  lemma {:induction false} SilentArms(n: nat, sem: Semantics, e: Expr, arms: seq<Arm>, s: Store)
    requires forall i | 0 <= i < |arms| :: Chain(arms[i].body) && NothingLost(arms[i].body, [], s.Keys)
    ensures ExecMatch(n, sem, true, e, arms, s) == ExecMatch(n, sem, false, e, arms, s)
    decreases n
  {
    if n == 0 || arms == [] {
    } else if sem.matches(e, arms[0].pattern, s) {
      ScopedChain(n - 1, sem, true, Only([]), arms[0].body, s);
      ScopedChain(n - 1, sem, false, All, arms[0].body, s);
      SameLeft(sem, arms[0].body, [], s);
    } else {
      SilentArms(n - 1, sem, e, arms[1..], s);
    }
  }

  lemma {:induction false} ArmWritesDropped(n: nat, sem: Semantics, e: Expr, arms: seq<Arm>, i: nat, s: Store)
    requires i < |arms| && Chain(arms[i].body) && sem == Marks(Always(true), [], arms[i].pattern)
    requires forall j | 0 <= j < i :: arms[j].pattern != arms[i].pattern
    requires n >= i + ChainSize(arms[i].body) + 3
    ensures var b := arms[i].body;
      && ExecMatch(n, sem, true, e, arms, s) == Done(Carried([], s, RunChain(sem, true, b, s)), Normal)
      && ExecMatch(n, sem, false, e, arms, s) == Done(Scoped(s, RunChain(sem, false, b, s)), Normal)
    decreases i
  {
    if i == 0 {
      ScopedChain(n - 1, sem, true, Only([]), arms[0].body, s);
      ScopedChain(n - 1, sem, false, All, arms[0].body, s);
    } else {
      assert arms[1..][i - 1] == arms[i] && forall j | 0 <= j < i - 1 :: arms[1..][j] == arms[j + 1];
      ArmWritesDropped(n - 1, sem, e, arms[1..], i - 1, s);
    }
  }

  /** `while x == 0 { match 1 { _ => x = 1 } }`: once begun, it never ends as generated. */
  lemma {:induction false} MatchLoopRunsForever(n: nat, sem: Semantics, c: Expr, e: Expr, p: Expr, one: Expr, x: Name,
        s: Store)
    requires x != "" && sem.holds(c, s)
    ensures var body := [Match(e, [Arm(p, [Assignment(Identifier(x), one, false)])])];
      ExecWhile(n, sem, true, While(c, body), s).OutOfFuel?
    decreases n
  {
    var body := [Match(e, [Arm(p, [Assignment(Identifier(x), one, false)])])];
    if n == 0 {
    } else {
      OneArmDrops(n - 1, sem, x, e, p, one, s);
      if Exec(n - 1, sem, true, body, s).Done? {
        assert LeaveBody(true, body, s, s) == s;
        MatchLoopRunsForever(n - 1, sem, c, e, p, one, x, s);
      }
    }
  }

  lemma OneArmDrops(n: nat, sem: Semantics, x: Name, e: Expr, p: Expr, one: Expr, s: Store)
    requires x != ""
    ensures var out := Exec(n, sem, true, [Match(e, [Arm(p, [Assignment(Identifier(x), one, false)])])], s);
      out.OutOfFuel? || out == Done(s, Normal)
  {
    var b := [Assignment(Identifier(x), one, false)];
    var arms := [Arm(p, b)];
    assert [Match(e, arms)][1..] == [] && b[1..] == [] && Chain(b) && arms[1..] == [];
    if n > 2 {
      assert ExecStmt(n - 1, sem, true, Match(e, arms), s) == ExecMatch(n - 2, sem, true, e, arms, s);
      if sem.matches(e, p, s) {
        ScopedChain(n - 3, sem, true, Only([]), b, s);
        assert Carried([], s, RunChain(sem, true, b, s)) == s;
      } else {
        assert ExecMatch(n - 3, sem, true, e, [], s) in {OutOfFuel, Done(s, Normal)};
      }
    } else if n == 2 {
      assert ExecMatch(0, sem, true, e, arms, s) == OutOfFuel;
    }
  }

  // ---------------------------------------------------------------- bindings and else blocks of loops

  /** A generated `for` over chains is the loop of the language exactly when the body does not assign
      a binding that hides a visible name (the carried value hides the element, and leaks out), loses
      nothing else that is visible, and the `else`, for which nothing is generated, writes nothing
      visible. */
  lemma ForIff(x: Name, it: Expr, b: Block, e: Block, live: set<Name>)
    requires Chain(b) && Once(b) && Chain(e) && Once(e)
    ensures SameOutcomes(For(x, it, b, e), live) <==>
            && !(x in live && x in Targets(b)) && NothingLost(b, Targets(b), live - {x}) && NothingLost(e, [], live)
  {
    var st := For(x, it, b, e);
    if !NothingLost(e, [], live) {
      ElseLost(st, live);
    } else if x in live && x in Targets(b) {
      BindingLeaks(st, live);
    } else if !NothingLost(b, Targets(b), live - {x}) {
      BodyLost(st, live);
    } else {
      forall sem, s: Store | Faithful(sem) && s.Keys == live ensures EndAlike(sem, st, s) {
        var vs := sem.items(it, s);
        var enough := |vs| + ChainSize(b) + ChainSize(e) + 5;
        forall n: nat | n >= enough ensures ExecStmt(n, sem, true, st, s) == ExecStmt(n, sem, false, st, s) {
          ForSame(n - 1, sem, st, vs, s);
        }
        assert AlikeFrom(enough, sem, st, s);
      }
    }
  }

  /** What one turn of the loop leaves. */
  function TurnLeaves(sem: Semantics, gen: bool, st: Stmt, v: Value, s: Store): Store
    requires st.For? && Chain(st.body)
  {
    LeaveFor(gen, st, s, RunChain(sem, gen, st.body, EnterFor(gen, st, v, s)))
  }

  lemma ForStep(n: nat, sem: Semantics, gen: bool, st: Stmt, vs: seq<Value>, s: Store)
    requires st.For? && Chain(st.body) && vs != [] && n > ChainSize(st.body)
    ensures ExecFor(n, sem, gen, st, vs, s) == ExecFor(n - 1, sem, gen, st, vs[1..], TurnLeaves(sem, gen, st, vs[0], s))
  {
    ChainRuns(n - 1, sem, gen, st.body, EnterFor(gen, st, vs[0], s));
  }

  lemma {:induction false} ForSame(n: nat, sem: Semantics, st: Stmt, vs: seq<Value>, s: Store)
    requires st.For? && Chain(st.body) && Chain(st.elseBlock) && NothingLost(st.elseBlock, [], s.Keys)
    requires !(st.binding in s && st.binding in Targets(st.body))
    requires NothingLost(st.body, Targets(st.body), s.Keys - {st.binding})
    requires n > |vs| + ChainSize(st.body) + ChainSize(st.elseBlock) + 3
    ensures ExecFor(n, sem, true, st, vs, s) == ExecFor(n, sem, false, st, vs, s)
    decreases |vs|
  {
    if vs == [] {
      ScopedChain(n - 1, sem, false, All, st.elseBlock, s);
      SameLeft(sem, st.elseBlock, [], s);
      assert Carried([], s, RunChain(sem, true, st.elseBlock, s)) == s;
    } else {
      ForStep(n, sem, true, st, vs, s);
      ForStep(n, sem, false, st, vs, s);
      SameTurn(sem, st, vs[0], s);
      ForSame(n - 1, sem, st, vs[1..], TurnLeaves(sem, false, st, vs[0], s));
    }
  }

  lemma SameTurn(sem: Semantics, st: Stmt, v: Value, s: Store)
    requires st.For? && Chain(st.body) && NothingLost(st.body, Targets(st.body), s.Keys - {st.binding})
    requires !(st.binding in s && st.binding in Targets(st.body))
    ensures TurnLeaves(sem, true, st, v, s) == TurnLeaves(sem, false, st, v, s)
    ensures TurnLeaves(sem, false, st, v, s).Keys == s.Keys
  {
    EnterForSame(st, v, s);
    SameLeftFor(sem, st, EnterFor(false, st, v, s), s);
  }

  lemma SameLeftFor(sem: Semantics, st: Stmt, start: Store, s: Store)
    requires st.For? && Chain(st.body) && NothingLost(st.body, Targets(st.body), s.Keys - {st.binding})
    requires !(st.binding in s && st.binding in Targets(st.body)) && (st.binding == "" ==> start == s)
    requires s.Keys <= start.Keys && forall x | x in s && x != st.binding :: start[x] == s[x]
    ensures var gen, ord := RunChain(sem, true, st.body, start), RunChain(sem, false, st.body, start);
      LeaveFor(true, st, s, gen) == LeaveFor(false, st, s, ord) && LeaveFor(false, st, s, ord).Keys == s.Keys
  {
    var b := st.body;
    var gen, ord := RunChain(sem, true, b, start), RunChain(sem, false, b, start);
    forall x | x in s ensures LeaveFor(true, st, s, gen)[x] == LeaveFor(false, st, s, ord)[x] {
      if x != st.binding || x == "" {
        SameLeftAt(sem, b, Targets(b), start, x);
      }
    }
  }

  lemma ElseLost(st: Stmt, live: set<Name>)
    requires st.For? && Chain(st.elseBlock) && Once(st.elseBlock) && !NothingLost(st.elseBlock, [], live)
    ensures !SameOutcomes(st, live)
  {
    var e := st.elseBlock;
    var x :| x in live && x in Writes(e);
    var sem, s := Marks(Always(true), [], st.iterable), Zeros(live);
    MarksAreFaithful(true, "", [], st.iterable);
    var enough := ChainSize(e) + 5;
    forall n: nat | n >= enough ensures ExecStmt(n, sem, true, st, s) != ExecStmt(n, sem, false, st, s) {
      assert ExecStmt(n, sem, true, st, s) == ExecFor(n - 1, sem, true, st, [], s) == Done(s, Normal);
      assert ExecStmt(n, sem, false, st, s) == ExecFor(n - 1, sem, false, st, [], s);
      ScopedChain(n - 2, sem, false, All, e, s);
      LostDiffers(sem, e, [], s, x);
      assert Carried([], s, RunChain(sem, true, e, s)) == s;
    }
    DifferFrom(enough, sem, st, s);
  }

  /** One turn of the loop, over one element, and no `else`. */
  lemma OneTurn(n: nat, sem: Semantics, gen: bool, st: Stmt, v: Value, s: Store)
    requires st.For? && Chain(st.body) && Chain(st.elseBlock) && sem.items(st.iterable, s) == [v]
    requires n > ChainSize(st.body) + 5
    ensures ExecStmt(n, sem, gen, st, s) == ExecFor(n - 2, sem, gen, st, [], TurnLeaves(sem, gen, st, v, s))
  {
    assert [v][1..] == [];
    assert ExecStmt(n, sem, gen, st, s) == ExecFor(n - 1, sem, gen, st, [v], s);
    ForStep(n - 1, sem, gen, st, [v], s);
  }

  /** An `else` that writes nothing visible leaves the store, run or not. */
  lemma SilentElse(n: nat, sem: Semantics, gen: bool, st: Stmt, s: Store)
    requires st.For? && Chain(st.elseBlock) && NothingLost(st.elseBlock, [], s.Keys)
    requires n > ChainSize(st.elseBlock) + 3
    ensures ExecFor(n, sem, gen, st, [], s) == Done(s, Normal)
  {
    ScopedChain(n - 1, sem, false, All, st.elseBlock, s);
    SameLeft(sem, st.elseBlock, [], s);
    assert Carried([], s, RunChain(sem, true, st.elseBlock, s)) == s;
  }

  lemma OneTurnDiffers(st: Stmt, sem: Semantics, v: Value, s: Store)
    requires st.For? && Chain(st.body) && Chain(st.elseBlock) && NothingLost(st.elseBlock, [], s.Keys)
    requires Faithful(sem) && sem.items(st.iterable, s) == [v]
    requires TurnLeaves(sem, true, st, v, s).Keys == TurnLeaves(sem, false, st, v, s).Keys == s.Keys
    requires TurnLeaves(sem, true, st, v, s) != TurnLeaves(sem, false, st, v, s)
    ensures !SameOutcomes(st, s.Keys)
  {
    var enough := ChainSize(st.body) + ChainSize(st.elseBlock) + 6;
    forall n: nat | n >= enough ensures ExecStmt(n, sem, true, st, s) != ExecStmt(n, sem, false, st, s) {
      OneTurn(n, sem, true, st, v, s);
      OneTurn(n, sem, false, st, v, s);
      SilentElse(n - 2, sem, true, st, TurnLeaves(sem, true, st, v, s));
      SilentElse(n - 2, sem, false, st, TurnLeaves(sem, false, st, v, s));
    }
    DifferFrom(enough, sem, st, s);
  }

  lemma BindingLeaks(st: Stmt, live: set<Name>)
    requires st.For? && Chain(st.body) && Chain(st.elseBlock) && NothingLost(st.elseBlock, [], live)
    requires st.binding in live && st.binding in Targets(st.body)
    ensures !SameOutcomes(st, live)
  {
    var b, x, v := st.body, st.binding, Number(7);
    var sem, s := Marks(Always(true), [v], st.iterable), Zeros(live);
    MarksAreFaithful(true, "", [v], st.iterable);
    ChainNames(b, x);
    ChainMarks(sem, true, b, s, x);
    ChainKeeps(sem, false, b, s[x := v]);
    var leaked, kept := TurnLeaves(sem, true, st, v, s), TurnLeaves(sem, false, st, v, s);
    assert x in leaked && x in kept && kept[x] == Number(0) != leaked[x];
    OneTurnDiffers(st, sem, v, s);
  }

  lemma BodyLost(st: Stmt, live: set<Name>)
    requires st.For? && Chain(st.body) && Once(st.body) && Chain(st.elseBlock) && NothingLost(st.elseBlock, [], live)
    requires !(st.binding in live && st.binding in Targets(st.body))
    requires !NothingLost(st.body, Targets(st.body), live - {st.binding})
    ensures !SameOutcomes(st, live)
  {
    var b, v := st.body, Number(7);
    var y :| y in live && y != st.binding && y in Writes(b) && (y !in Targets(b) || y in Deferred(b));
    var sem, s := Marks(Always(true), [v], st.iterable), Zeros(live);
    MarksAreFaithful(true, "", [v], st.iterable);
    LossShows(sem, st, v, s, y);
    OneTurnDiffers(st, sem, v, s);
  }

  lemma LossShows(sem: Semantics, st: Stmt, v: Value, s: Store, y: Name)
    requires st.For? && Chain(st.body) && Once(st.body) && !(st.binding in s && st.binding in Targets(st.body))
    requires forall e: Expr, t: Store :: sem.value(e, t) == Computed(e, map[])
    requires y in s && s[y] == Number(0) && y != st.binding && y in Writes(st.body)
    requires y !in Targets(st.body) || y in Deferred(st.body)
    ensures TurnLeaves(sem, true, st, v, s).Keys == TurnLeaves(sem, false, st, v, s).Keys == s.Keys
    ensures TurnLeaves(sem, true, st, v, s)[y] != TurnLeaves(sem, false, st, v, s)[y]
  {
    var b, start := st.body, EnterFor(false, st, v, s);
    EnterForSame(st, v, s);
    LostDiffers(sem, b, Targets(b), start, y);
    ChainKeeps(sem, true, b, start);
    ChainKeeps(sem, false, b, start);
  }

  /** `for v in [] { } else { y = 1 }` leaves `y` as it was. */
  lemma ElseIsNotRun(n: nat, sem: Semantics, v: Name, it: Expr, one: Expr, y: Name, s: Store)
    requires y != "" && y in s && n > 6 && sem.items(it, s) == []
    ensures var st := For(v, it, [], [Assignment(Identifier(y), one, false)]);
      && ExecStmt(n, sem, true, st, s) == Done(s, Normal)
      && ExecStmt(n, sem, false, st, s) == Done(s[y := sem.value(one, s)], Normal)
  {
    var e := [Assignment(Identifier(y), one, false)];
    var st := For(v, it, [], e);
    OneAssignment(sem, false, y, one, s);
    ScopedChain(n - 2, sem, false, All, e, s);
    assert Scoped(s, s[y := sem.value(one, s)]) == s[y := sem.value(one, s)];
    assert ExecFor(n - 1, sem, false, st, [], s) == ExecScoped(n - 2, sem, false, All, e, s);
    assert ExecFor(n - 1, sem, true, st, [], s) == Done(s, Normal);
  }
}
