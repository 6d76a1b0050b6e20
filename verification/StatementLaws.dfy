/** What the runs of statements amount to, whatever the number of steps: what follows a jump and what
    does not, and what conditionals, matches and deferred statements come down to. */
module StatementLaws {
  import opened Statements

  // ---------------------------------------------------------------- enough steps are enough

  lemma {:induction false} MoreSteps(n: nat, m: nat, sem: Semantics, gen: bool, b: Block, s: Store)
    requires n <= m && Exec(n, sem, gen, b, s).Done?
    ensures Exec(m, sem, gen, b, s) == Exec(n, sem, gen, b, s)
    decreases n
  {
    if b != [] {
      MoreStepsStmt(n - 1, m - 1, sem, gen, b[0], s);
      var first := ExecStmt(n - 1, sem, gen, b[0], s);
      if first.signal.Normal? {
        MoreSteps(n - 1, m - 1, sem, gen, b[1..], first.store);
      }
    }
  }

  lemma {:induction false} MoreStepsScoped(n: nat, m: nat, sem: Semantics, gen: bool, kept: Kept, b: Block, s: Store)
    requires n <= m && ExecScoped(n, sem, gen, kept, b, s).Done?
    ensures ExecScoped(m, sem, gen, kept, b, s) == ExecScoped(n, sem, gen, kept, b, s)
    decreases n
  {
    MoreSteps(n - 1, m - 1, sem, gen, b, s);
  }

  lemma {:induction false} MoreStepsStmt(n: nat, m: nat, sem: Semantics, gen: bool, st: Stmt, s: Store)
    requires n <= m && ExecStmt(n, sem, gen, st, s).Done?
    ensures ExecStmt(m, sem, gen, st, s) == ExecStmt(n, sem, gen, st, s)
    decreases n
  {
    match st
    case If(c, yes, no) =>
      var branch := if sem.holds(c, s) then yes else no;
      MoreStepsScoped(n - 2, m - 2, sem, gen, if gen then Only(Handed(st)) else All, branch, s);
    case While(_, _) => MoreStepsWhile(n - 1, m - 1, sem, gen, st, s);
    case Forever(_) => MoreStepsWhile(n - 1, m - 1, sem, gen, st, s);
    case For(_, e, _, _) => MoreStepsFor(n - 1, m - 1, sem, gen, st, sem.items(e, s), s);
    case Match(e, arms) => MoreStepsMatch(n - 1, m - 1, sem, gen, e, arms, s);
    case Defer(r, d) =>
      MoreSteps(n - 2, m - 2, sem, gen, r, s);
      var rest := Exec(n - 2, sem, gen, r, s);
      if !rest.signal.Returned? {
        MoreStepsScoped(n - 2, m - 2, sem, gen, if gen then Only([]) else All, d, rest.store);
      }
    case _ =>
  }

  lemma {:induction false} MoreStepsWhile(n: nat, m: nat, sem: Semantics, gen: bool, st: Stmt, s: Store)
    requires (st.While? || st.Forever?) && n <= m && ExecWhile(n, sem, gen, st, s).Done?
    ensures ExecWhile(m, sem, gen, st, s) == ExecWhile(n, sem, gen, st, s)
    decreases n
  {
    if st.While? && !sem.holds(st.condition, s) {
    } else {
      MoreSteps(n - 1, m - 1, sem, gen, st.body, s);
      var turn := Exec(n - 1, sem, gen, st.body, s);
      if turn.signal.Normal? || turn.signal.Continued? {
        MoreStepsWhile(n - 1, m - 1, sem, gen, st, LeaveBody(gen, st.body, s, turn.store));
      }
    }
  }

  lemma {:induction false} MoreStepsFor(n: nat, m: nat, sem: Semantics, gen: bool, st: Stmt, vs: seq<Value>, s: Store)
    requires st.For? && n <= m && ExecFor(n, sem, gen, st, vs, s).Done?
    ensures ExecFor(m, sem, gen, st, vs, s) == ExecFor(n, sem, gen, st, vs, s)
    decreases n
  {
    if vs == [] {
      if !gen && st.elseBlock != [] {
        MoreStepsScoped(n - 1, m - 1, sem, gen, All, st.elseBlock, s);
      }
    } else {
      var start := EnterFor(gen, st, vs[0], s);
      MoreSteps(n - 1, m - 1, sem, gen, st.body, start);
      var turn := Exec(n - 1, sem, gen, st.body, start);
      if turn.signal.Normal? || turn.signal.Continued? {
        MoreStepsFor(n - 1, m - 1, sem, gen, st, vs[1..], LeaveFor(gen, st, s, turn.store));
      }
    }
  }

  lemma {:induction false} MoreStepsMatch(n: nat, m: nat, sem: Semantics, gen: bool, e: Expr, arms: seq<Arm>, s: Store)
    requires n <= m && ExecMatch(n, sem, gen, e, arms, s).Done?
    ensures ExecMatch(m, sem, gen, e, arms, s) == ExecMatch(n, sem, gen, e, arms, s)
    decreases n
  {
    if arms == [] {
    } else if sem.matches(e, arms[0].pattern, s) {
      MoreStepsScoped(n - 1, m - 1, sem, gen, if gen then Only([]) else All, arms[0].body, s);
    } else {
      MoreStepsMatch(n - 1, m - 1, sem, gen, e, arms[1..], s);
    }
  }

  // ---------------------------------------------------------------- how a run ends

  /** The block, run from `s`, comes to an end with `out`. */
  ghost predicate Ends(sem: Semantics, gen: bool, b: Block, s: Store, out: Outcome) {
    out.Done? && exists n: nat :: Exec(n, sem, gen, b, s) == out
  }

  /** Two blocks come to the same ends, or both to none. */
  ghost predicate Alike(sem: Semantics, gen: bool, b: Block, c: Block, s: Store) {
    forall out :: Ends(sem, gen, b, s, out) <==> Ends(sem, gen, c, s, out)
  }

  lemma EndsOnce(sem: Semantics, gen: bool, b: Block, s: Store, out: Outcome, other: Outcome)
    requires Ends(sem, gen, b, s, out) && Ends(sem, gen, b, s, other)
    ensures out == other
  {
    var n: nat :| Exec(n, sem, gen, b, s) == out;
    var m: nat :| Exec(m, sem, gen, b, s) == other;
    if n <= m {
      MoreSteps(n, m, sem, gen, b, s);
    } else {
      MoreSteps(m, n, sem, gen, b, s);
    }
  }

  // ---------------------------------------------------------------- one statement after the other

  /** One block after another ends as the first does, if that ends with a jump, and otherwise as the
      second does from there. */
  ghost predicate EndsAfter(sem: Semantics, gen: bool, b: Block, c: Block, s: Store, out: Outcome) {
    || (Ends(sem, gen, b, s, out) && !out.signal.Normal?)
    || exists mid :: Ends(sem, gen, b, s, Done(mid, Normal)) && Ends(sem, gen, c, mid, out)
  }

  lemma EndsEmpty(sem: Semantics, gen: bool, s: Store, out: Outcome)
    ensures Ends(sem, gen, [], s, out) <==> out == Done(s, Normal)
  {
    assert Exec(1, sem, gen, [], s) == Done(s, Normal);
  }

  ghost predicate StmtEnds(sem: Semantics, gen: bool, st: Stmt, s: Store, out: Outcome) {
    out.Done? && exists n: nat :: ExecStmt(n, sem, gen, st, s) == out
  }

  lemma SingleRuns(n: nat, sem: Semantics, gen: bool, st: Stmt, s: Store)
    ensures Exec(n, sem, gen, [st], s).Done? ==>
              n > 0 && ExecStmt(n - 1, sem, gen, st, s) == Exec(n, sem, gen, [st], s)
    ensures n > 1 && ExecStmt(n - 1, sem, gen, st, s).Done? ==>
              Exec(n, sem, gen, [st], s) == ExecStmt(n - 1, sem, gen, st, s)
  {
    assert [st][1..] == [];
    if n > 1 {
      var first := ExecStmt(n - 1, sem, gen, st, s);
      assert first.Done? && first.signal.Normal? ==> Exec(n - 1, sem, gen, [], first.store) == first;
    }
  }

  lemma EndsStmt(sem: Semantics, gen: bool, st: Stmt, s: Store, out: Outcome)
    ensures Ends(sem, gen, [st], s, out) <==> StmtEnds(sem, gen, st, s, out)
  {
    if Ends(sem, gen, [st], s, out) {
      var n: nat :| Exec(n, sem, gen, [st], s) == out;
      SingleRuns(n, sem, gen, st, s);
      assert ExecStmt(n - 1, sem, gen, st, s) == out;
    }
    if StmtEnds(sem, gen, st, s, out) {
      var n: nat :| ExecStmt(n, sem, gen, st, s) == out;
      SingleRuns(n + 1, sem, gen, st, s);
      assert Exec(n + 1, sem, gen, [st], s) == out;
    }
  }

  lemma {:induction false} SequenceRuns(n: nat, sem: Semantics, gen: bool, b: Block, c: Block, s: Store)
    requires Exec(n, sem, gen, b + c, s).Done?
    ensures EndsAfter(sem, gen, b, c, s, Exec(n, sem, gen, b + c, s))
    decreases |b|
  {
    var out := Exec(n, sem, gen, b + c, s);
    if b == [] {
      assert b + c == c;
      EndsEmpty(sem, gen, s, Done(s, Normal));
    } else {
      assert (b + c)[0] == b[0] && (b + c)[1..] == b[1..] + c;
      var first := ExecStmt(n - 1, sem, gen, b[0], s);
      if first.signal.Normal? {
        SequenceRuns(n - 1, sem, gen, b[1..], c, first.store);
        FirstThenRest(n - 1, sem, gen, b, s);
      } else {
        assert Exec(n, sem, gen, b, s) == out;
      }
    }
  }

  /** The rest of a block ends as the block does. */
  lemma FirstThenRest(n: nat, sem: Semantics, gen: bool, b: Block, s: Store)
    requires b != [] && ExecStmt(n, sem, gen, b[0], s).Done? && ExecStmt(n, sem, gen, b[0], s).signal.Normal?
    ensures forall out | Ends(sem, gen, b[1..], ExecStmt(n, sem, gen, b[0], s).store, out) :: Ends(sem, gen, b, s, out)
  {
    var mid := ExecStmt(n, sem, gen, b[0], s).store;
    forall out | Ends(sem, gen, b[1..], mid, out) ensures Ends(sem, gen, b, s, out) {
      var m: nat :| Exec(m, sem, gen, b[1..], mid) == out;
      var k := if n < m then m else n;
      MoreStepsStmt(n, k, sem, gen, b[0], s);
      MoreSteps(m, k, sem, gen, b[1..], mid);
      assert Exec(k + 1, sem, gen, b, s) == out;
    }
  }

  lemma {:induction false} FirstPartJumps(n: nat, sem: Semantics, gen: bool, b: Block, c: Block, s: Store)
    requires Exec(n, sem, gen, b, s).Done? && !Exec(n, sem, gen, b, s).signal.Normal?
    ensures Exec(n, sem, gen, b + c, s) == Exec(n, sem, gen, b, s)
    decreases |b|
  {
    if b == [] {
    } else {
      assert (b + c)[0] == b[0] && (b + c)[1..] == b[1..] + c;
      var first := ExecStmt(n - 1, sem, gen, b[0], s);
      if first.signal.Normal? {
        FirstPartJumps(n - 1, sem, gen, b[1..], c, first.store);
      }
    }
  }

  lemma {:induction false} BothPartsRun(n: nat, m: nat, sem: Semantics, gen: bool, b: Block, c: Block, s: Store)
    requires Exec(n, sem, gen, b, s).Done? && Exec(n, sem, gen, b, s).signal.Normal?
    requires Exec(m, sem, gen, c, Exec(n, sem, gen, b, s).store).Done?
    ensures Exec(n + m, sem, gen, b + c, s) == Exec(m, sem, gen, c, Exec(n, sem, gen, b, s).store)
    decreases |b|
  {
    if b == [] {
      assert b + c == c;
      MoreSteps(m, n + m, sem, gen, c, s);
    } else {
      assert (b + c)[0] == b[0] && (b + c)[1..] == b[1..] + c;
      MoreStepsStmt(n - 1, n + m - 1, sem, gen, b[0], s);
      BothPartsRun(n - 1, m, sem, gen, b[1..], c, ExecStmt(n - 1, sem, gen, b[0], s).store);
    }
  }

  /** Sequencing: what follows a jump is not run, and what follows a normal end is. */
  lemma SequenceIff(sem: Semantics, gen: bool, b: Block, c: Block, s: Store, out: Outcome)
    ensures Ends(sem, gen, b + c, s, out) <==> EndsAfter(sem, gen, b, c, s, out)
  {
    if Ends(sem, gen, b + c, s, out) {
      var n: nat :| Exec(n, sem, gen, b + c, s) == out;
      SequenceRuns(n, sem, gen, b, c, s);
    }
    if Ends(sem, gen, b, s, out) && !out.signal.Normal? {
      var n: nat :| Exec(n, sem, gen, b, s) == out;
      FirstPartJumps(n, sem, gen, b, c, s);
      assert Exec(n, sem, gen, b + c, s) == out;
    }
    forall mid | Ends(sem, gen, b, s, Done(mid, Normal)) && Ends(sem, gen, c, mid, out)
      ensures Ends(sem, gen, b + c, s, out)
    {
      var n: nat :| Exec(n, sem, gen, b, s) == Done(mid, Normal);
      var m: nat :| Exec(m, sem, gen, c, mid) == out;
      BothPartsRun(n, m, sem, gen, b, c, s);
      assert Exec(n + m, sem, gen, b + c, s) == out;
    }
  }

  /** A jump ends the block it stands in, and changes nothing. */
  lemma EndsJump(sem: Semantics, gen: bool, s: Store, out: Outcome)
    ensures Ends(sem, gen, [Break], s, out) <==> out == Done(s, Broken)
    ensures Ends(sem, gen, [Continue], s, out) <==> out == Done(s, Continued)
    ensures Ends(sem, gen, [Return], s, out) <==> out == Done(map[], Returned)
  {
    EndsStmt(sem, gen, Break, s, out);
    EndsStmt(sem, gen, Continue, s, out);
    EndsStmt(sem, gen, Return, s, out);
    assert ExecStmt(1, sem, gen, Break, s) == Done(s, Broken);
    assert ExecStmt(1, sem, gen, Continue, s) == Done(s, Continued);
    assert ExecStmt(1, sem, gen, Return, s) == Done(map[], Returned);
  }

  /** A block with a jump behind it. */
  lemma EndsWithJump(sem: Semantics, gen: bool, b: Block, jump: Stmt, s: Store, out: Outcome)
    requires jump in {Break, Continue}
    ensures Ends(sem, gen, b + [jump], s, out) <==>
            || (Ends(sem, gen, b, s, out) && !out.signal.Normal?)
            || (out.Done? && out.signal == (if jump.Break? then Broken else Continued)
                  && Ends(sem, gen, b, s, Done(out.store, Normal)))
  {
    SequenceIff(sem, gen, b, [jump], s, out);
    forall mid
      ensures Ends(sem, gen, [jump], mid, out) <==> out == Done(mid, if jump.Break? then Broken else Continued)
    {
      EndsJump(sem, gen, mid, out);
    }
  }

  // ---------------------------------------------------------------- blocks without jumps

  /** No `break` or `continue` stands in the block, but in loops of its own. */
  predicate NoJump(b: Block) {
    forall i | 0 <= i < |b| :: NoJumpStmt(b[i])
  }

  predicate NoJumpStmt(st: Stmt) {
    match st
    case Break => false
    case Continue => false
    case If(_, yes, no) => NoJump(yes) && NoJump(no)
    case For(_, _, _, e) => NoJump(e)
    case Match(_, arms) => forall i | 0 <= i < |arms| :: NoJump(arms[i].body)
    case Defer(r, d) => NoJump(r) && NoJump(d)
    case _ => true
  }

  predicate Straightly(out: Outcome) {
    out.Done? ==> out.signal.Normal? || out.signal.Returned?
  }

  lemma {:induction false} NoJumpRuns(n: nat, sem: Semantics, gen: bool, b: Block, s: Store)
    requires NoJump(b)
    ensures Straightly(Exec(n, sem, gen, b, s))
    decreases n
  {
    if n == 0 || b == [] {
    } else {
      NoJumpStmtRuns(n - 1, sem, gen, b[0], s);
      var first := ExecStmt(n - 1, sem, gen, b[0], s);
      if first.Done? {
        NoJumpRuns(n - 1, sem, gen, b[1..], first.store);
      }
    }
  }

  lemma {:induction false} NoJumpStmtRuns(n: nat, sem: Semantics, gen: bool, st: Stmt, s: Store)
    requires NoJumpStmt(st)
    ensures Straightly(ExecStmt(n, sem, gen, st, s))
    decreases n
  {
    match st
    case If(_, _, _) =>
      if n > 0 {
        NoJumpIfRuns(n - 1, sem, gen, st, s);
      }
    case While(_, _) => LoopRunsStraight(n, sem, gen, st, s);
    case Forever(_) => LoopRunsStraight(n, sem, gen, st, s);
    case For(_, e, _, _) =>
      if n > 0 {
        NoJumpForRuns(n - 1, sem, gen, st, sem.items(e, s), s);
      }
    case Match(e, arms) =>
      if n > 0 {
        NoJumpMatchRuns(n - 1, sem, gen, e, arms, s);
      }
    case Defer(r, _) =>
      if n > 1 {
        NoJumpRuns(n - 2, sem, gen, r, s);
      }
    case _ =>
  }

  lemma {:induction false} NoJumpIfRuns(n: nat, sem: Semantics, gen: bool, st: Stmt, s: Store)
    requires st.If? && NoJump(st.consequent) && NoJump(st.alternate)
    ensures Straightly(ExecIf(n, sem, gen, st, s))
    decreases n
  {
    if n > 1 {
      NoJumpRuns(n - 2, sem, gen, if sem.holds(st.condition, s) then st.consequent else st.alternate, s);
    }
  }

  lemma LoopRunsStraight(n: nat, sem: Semantics, gen: bool, st: Stmt, s: Store)
    requires st.While? || st.Forever?
    ensures Straightly(ExecStmt(n, sem, gen, st, s))
  {
    if n > 0 {
      WhileRunsStraight(n - 1, sem, gen, st, s);
    }
  }

  lemma {:induction false} WhileRunsStraight(n: nat, sem: Semantics, gen: bool, st: Stmt, s: Store)
    requires st.While? || st.Forever?
    ensures Straightly(ExecWhile(n, sem, gen, st, s))
    decreases n
  {
    if n > 0 && Exec(n - 1, sem, gen, st.body, s).Done? {
      WhileRunsStraight(n - 1, sem, gen, st, LeaveBody(gen, st.body, s, Exec(n - 1, sem, gen, st.body, s).store));
    }
  }

  lemma {:induction false} NoJumpForRuns(n: nat, sem: Semantics, gen: bool, st: Stmt, vs: seq<Value>, s: Store)
    requires st.For? && NoJump(st.elseBlock)
    ensures Straightly(ExecFor(n, sem, gen, st, vs, s))
    decreases n
  {
    if n > 0 && vs != [] {
      var turn := Exec(n - 1, sem, gen, st.body, EnterFor(gen, st, vs[0], s));
      if turn.Done? {
        NoJumpForRuns(n - 1, sem, gen, st, vs[1..], LeaveFor(gen, st, s, turn.store));
      }
    } else if n > 1 {
      NoJumpRuns(n - 2, sem, gen, st.elseBlock, s);
    }
  }

  lemma {:induction false} NoJumpMatchRuns(n: nat, sem: Semantics, gen: bool, e: Expr, arms: seq<Arm>, s: Store)
    requires forall i | 0 <= i < |arms| :: NoJump(arms[i].body)
    ensures Straightly(ExecMatch(n, sem, gen, e, arms, s))
    decreases n
  {
    if n == 0 || arms == [] {
    } else if sem.matches(e, arms[0].pattern, s) {
      if n > 1 {
        NoJumpRuns(n - 2, sem, gen, arms[0].body, s);
      }
    } else {
      NoJumpMatchRuns(n - 1, sem, gen, e, arms[1..], s);
    }
  }

  lemma NoJumpEnds(sem: Semantics, gen: bool, b: Block, s: Store, out: Outcome)
    requires NoJump(b) && Ends(sem, gen, b, s, out)
    ensures out.signal.Normal? || out.signal.Returned?
  {
    var n: nat :| Exec(n, sem, gen, b, s) == out;
    NoJumpRuns(n, sem, gen, b, s);
  }

  // ---------------------------------------------------------------- conditionals, arms and deferred statements

  /** The end of a block in a scope of its own: the jump is the same, and the outer names keep what they
      were given inside. */
  ghost predicate ScopeEnds(sem: Semantics, b: Block, s: Store, out: Outcome) {
    || (Ends(sem, false, b, s, out) && out.signal.Returned?)
    || exists inner :: Ends(sem, false, b, s, inner) && !inner.signal.Returned?
                       && out == Done(Scoped(s, inner.store), inner.signal)
  }

  ghost predicate ScopeDone(sem: Semantics, b: Block, s: Store, out: Outcome) {
    out.Done? && exists n: nat :: ExecScoped(n, sem, false, All, b, s) == out
  }

  lemma ScopeIff(sem: Semantics, b: Block, s: Store, out: Outcome)
    ensures ScopeEnds(sem, b, s, out) <==> ScopeDone(sem, b, s, out)
  {
    if ScopeEnds(sem, b, s, out) {
      var inner :| Ends(sem, false, b, s, inner)
        && (if inner.signal.Returned? then out == inner else out == Done(Scoped(s, inner.store), inner.signal));
      var n: nat :| Exec(n, sem, false, b, s) == inner;
      assert ExecScoped(n + 1, sem, false, All, b, s) == out;
    }
    if ScopeDone(sem, b, s, out) {
      var n: nat :| ExecScoped(n, sem, false, All, b, s) == out;
      assert Ends(sem, false, b, s, Exec(n - 1, sem, false, b, s));
    }
  }

  /** A conditional is its branch, in a scope of its own. */
  lemma IfIff(sem: Semantics, c: Expr, yes: Block, no: Block, s: Store, out: Outcome)
    ensures Ends(sem, false, [If(c, yes, no)], s, out) <==> ScopeEnds(sem, if sem.holds(c, s) then yes else no, s, out)
  {
    var st, branch := If(c, yes, no), if sem.holds(c, s) then yes else no;
    EndsStmt(sem, false, st, s, out);
    ScopeIff(sem, branch, s, out);
    if StmtEnds(sem, false, st, s, out) {
      var n: nat :| ExecStmt(n, sem, false, st, s) == out;
      IfRuns(n, sem, st, s);
      assert ExecScoped(n - 2, sem, false, All, branch, s) == out;
    }
    if ScopeDone(sem, branch, s, out) {
      var n: nat :| ExecScoped(n, sem, false, All, branch, s) == out;
      IfRuns(n + 2, sem, st, s);
      assert ExecStmt(n + 2, sem, false, st, s) == out;
    }
  }

  lemma IfRuns(n: nat, sem: Semantics, st: Stmt, s: Store)
    requires st.If?
    ensures ExecStmt(n, sem, false, st, s) ==
            if n < 2 then OutOfFuel
            else
              var branch := if sem.holds(st.condition, s) then st.consequent else st.alternate;
              ExecScoped(n - 2, sem, false, All, branch, s)
  {
    if n > 0 {
      assert ExecStmt(n, sem, false, st, s) == ExecIf(n - 1, sem, false, st, s);
    }
  }

  /** A match is the first arm that matches, in a scope of its own, or nothing. */
  lemma {:induction false} MatchIff(sem: Semantics, e: Expr, arms: seq<Arm>, i: nat, s: Store, out: Outcome)
    requires i <= |arms| && forall j | 0 <= j < i :: !sem.matches(e, arms[j].pattern, s)
    requires i < |arms| ==> sem.matches(e, arms[i].pattern, s)
    ensures Ends(sem, false, [Match(e, arms)], s, out) <==>
            if i < |arms| then ScopeEnds(sem, arms[i].body, s, out) else out == Done(s, Normal)
  {
    EndsStmt(sem, false, Match(e, arms), s, out);
    MatchEndsIff(sem, e, arms, i, s, out);
    if StmtEnds(sem, false, Match(e, arms), s, out) {
      var n: nat :| ExecStmt(n, sem, false, Match(e, arms), s) == out;
      assert ExecMatch(n - 1, sem, false, e, arms, s) == out;
    }
    if MatchEnds(sem, e, arms, s, out) {
      var n: nat :| ExecMatch(n, sem, false, e, arms, s) == out;
      assert ExecStmt(n + 1, sem, false, Match(e, arms), s) == out;
    }
  }

  ghost predicate MatchEnds(sem: Semantics, e: Expr, arms: seq<Arm>, s: Store, out: Outcome) {
    out.Done? && exists n: nat :: ExecMatch(n, sem, false, e, arms, s) == out
  }

  lemma {:induction false} MatchEndsIff(sem: Semantics, e: Expr, arms: seq<Arm>, i: nat, s: Store, out: Outcome)
    requires i <= |arms| && forall j | 0 <= j < i :: !sem.matches(e, arms[j].pattern, s)
    requires i < |arms| ==> sem.matches(e, arms[i].pattern, s)
    ensures MatchEnds(sem, e, arms, s, out) <==>
            if i < |arms| then ScopeEnds(sem, arms[i].body, s, out) else out == Done(s, Normal)
    decreases i
  {
    if arms == [] {
      assert ExecMatch(1, sem, false, e, arms, s) == Done(s, Normal);
    } else if i == 0 {
      ScopeIff(sem, arms[0].body, s, out);
      if ScopeDone(sem, arms[0].body, s, out) {
        var n: nat :| ExecScoped(n, sem, false, All, arms[0].body, s) == out;
        assert ExecMatch(n + 1, sem, false, e, arms, s) == out;
      }
      if MatchEnds(sem, e, arms, s, out) {
        var n: nat :| ExecMatch(n, sem, false, e, arms, s) == out;
        assert ExecScoped(n - 1, sem, false, All, arms[0].body, s) == out;
      }
    } else {
      assert forall j | 0 <= j < |arms| - 1 :: arms[1..][j] == arms[j + 1];
      MatchEndsIff(sem, e, arms[1..], i - 1, s, out);
      if MatchEnds(sem, e, arms[1..], s, out) {
        var n: nat :| ExecMatch(n, sem, false, e, arms[1..], s) == out;
        assert ExecMatch(n + 1, sem, false, e, arms, s) == out;
      }
      if MatchEnds(sem, e, arms, s, out) {
        var n: nat :| ExecMatch(n, sem, false, e, arms, s) == out;
        assert ExecMatch(n - 1, sem, false, e, arms[1..], s) == out;
      }
    }
  }

  /** Deferred statements are those that come last, in a scope of their own, ... */
  lemma DeferIsLast(sem: Semantics, r: Block, d: Block, c: Expr, s: Store)
    requires NoJump(r) && NoJump(d) && forall w :: sem.holds(c, w)
    ensures Alike(sem, false, [Defer(r, d)], r + [If(c, d, [])], s)
  {
    forall out ensures Ends(sem, false, [Defer(r, d)], s, out) <==> Ends(sem, false, r + [If(c, d, [])], s, out) {
      DeferIff(sem, r, d, s, out);
      SequenceIff(sem, false, r, [If(c, d, [])], s, out);
      forall mid ensures Ends(sem, false, [If(c, d, [])], mid, out) <==> ScopeEnds(sem, d, mid, out) {
        IfIff(sem, c, d, [], mid, out);
      }
      forall rest | Ends(sem, false, r, s, rest) ensures rest.signal.Normal? || rest.signal.Returned? {
        NoJumpEnds(sem, false, r, s, rest);
      }
      forall mid, late | ScopeEnds(sem, d, mid, late) ensures late.signal.Normal? || late.signal.Returned? {
        ScopeStraight(sem, d, mid, late);
      }
    }
  }

  lemma ScopeStraight(sem: Semantics, b: Block, s: Store, out: Outcome)
    requires NoJump(b) && ScopeEnds(sem, b, s, out)
    ensures out.signal.Normal? || out.signal.Returned?
  {
    forall inner | Ends(sem, false, b, s, inner) ensures inner.signal.Normal? || inner.signal.Returned? {
      NoJumpEnds(sem, false, b, s, inner);
    }
  }

  /** ... also before a jump at the end of the block. */
  lemma DeferBeforeJump(sem: Semantics, r: Block, d: Block, jump: Stmt, s: Store)
    requires NoJump(r) && jump in {Break, Continue}
    ensures Alike(sem, false, [Defer(r + [jump], d)], [Defer(r, d), jump], s)
  {
    forall out
      ensures Ends(sem, false, [Defer(r + [jump], d)], s, out) <==> Ends(sem, false, [Defer(r, d), jump], s, out)
    {
      var same := if out.Done? then Done(out.store, Normal) else out;
      assert [Defer(r, d), jump] == [Defer(r, d)] + [jump];
      DeferIff(sem, r + [jump], d, s, out);
      EndsWithJump(sem, false, [Defer(r, d)], jump, s, out);
      DeferIff(sem, r, d, s, out);
      DeferIff(sem, r, d, s, same);
      JumpAfterRest(sem, r, d, jump, s, out);
    }
  }

  lemma JumpAfterRest(sem: Semantics, r: Block, d: Block, jump: Stmt, s: Store, out: Outcome)
    requires NoJump(r) && jump in {Break, Continue}
    ensures DeferEnds(sem, r + [jump], d, s, out) <==>
            || (DeferEnds(sem, r, d, s, out) && !out.signal.Normal?)
            || (out.Done? && out.signal == (if jump.Break? then Broken else Continued)
                  && DeferEnds(sem, r, d, s, Done(out.store, Normal)))
  {
    var signal := if jump.Break? then Broken else Continued;
    forall rest ensures Ends(sem, false, r + [jump], s, rest) <==>
      || (Ends(sem, false, r, s, rest) && rest.signal.Returned?)
      || (rest.Done? && rest.signal == signal && Ends(sem, false, r, s, Done(rest.store, Normal)))
    {
      EndsWithJump(sem, false, r, jump, s, rest);
      if Ends(sem, false, r, s, rest) {
        NoJumpEnds(sem, false, r, s, rest);
      }
    }
    forall rest | Ends(sem, false, r, s, rest) ensures rest.signal.Normal? || rest.signal.Returned? {
      NoJumpEnds(sem, false, r, s, rest);
    }
    if DeferEnds(sem, r + [jump], d, s, out) {
      var rest :| Ends(sem, false, r + [jump], s, rest) && AfterRest(sem, d, rest, out);
      if rest.signal.Returned? {
        assert AfterRest(sem, d, rest, out) && Ends(sem, false, r, s, rest);
      } else {
        var own := Done(rest.store, Normal);
        assert Ends(sem, false, r, s, own);
        assert AfterRest(sem, d, own, if out.signal.Returned? then out else Done(out.store, Normal));
      }
    }
    forall own, o | Ends(sem, false, r, s, own) && AfterRest(sem, d, own, o)
      && (if o.signal.Normal? then out == Done(o.store, signal) else out == o)
      ensures DeferEnds(sem, r + [jump], d, s, out)
    {
      var rest := if own.signal.Normal? then Done(own.store, signal) else own;
      assert own.signal.Normal? ==> own == Done(own.store, Normal);
      assert Ends(sem, false, r + [jump], s, rest) && AfterRest(sem, d, rest, out);
    }
  }

  /** How a block with deferred statements ends: they run when the rest has ended, with a jump or
      without, unless it has returned. */
  ghost predicate DeferEnds(sem: Semantics, r: Block, d: Block, s: Store, out: Outcome) {
    exists rest :: Ends(sem, false, r, s, rest) && AfterRest(sem, d, rest, out)
  }

  ghost predicate AfterRest(sem: Semantics, d: Block, rest: Outcome, out: Outcome)
    requires rest.Done?
  {
    if rest.signal.Returned? then out == rest
    else
      || (ScopeEnds(sem, d, rest.store, out) && out.signal.Returned?)
      || exists late :: ScopeEnds(sem, d, rest.store, late) && !late.signal.Returned?
                        && out == Done(late.store, rest.signal)
  }

  lemma DeferIff(sem: Semantics, r: Block, d: Block, s: Store, out: Outcome)
    ensures Ends(sem, false, [Defer(r, d)], s, out) <==> DeferEnds(sem, r, d, s, out)
  {
    var st := Defer(r, d);
    EndsStmt(sem, false, st, s, out);
    if StmtEnds(sem, false, st, s, out) {
      var n: nat :| ExecStmt(n, sem, false, st, s) == out;
      DeferRun(n, sem, st, s);
    }
    if DeferEnds(sem, r, d, s, out) {
      var rest :| Ends(sem, false, r, s, rest) && AfterRest(sem, d, rest, out);
      DeferGoesOn(sem, r, d, s, rest, out);
    }
  }

  lemma DeferRun(n: nat, sem: Semantics, st: Stmt, s: Store)
    requires st.Defer? && ExecStmt(n, sem, false, st, s).Done?
    ensures DeferEnds(sem, st.remaining, st.deferred, s, ExecStmt(n, sem, false, st, s))
  {
    var out := ExecStmt(n, sem, false, st, s);
    assert out == ExecDefer(n - 1, sem, false, st, s);
    var rest := Exec(n - 2, sem, false, st.remaining, s);
    assert Ends(sem, false, st.remaining, s, rest);
    if !rest.signal.Returned? {
      var late := ExecScoped(n - 2, sem, false, All, st.deferred, rest.store);
      assert ScopeDone(sem, st.deferred, rest.store, late);
      ScopeIff(sem, st.deferred, rest.store, late);
    }
    assert AfterRest(sem, st.deferred, rest, out);
  }

  lemma DeferGoesOn(sem: Semantics, r: Block, d: Block, s: Store, rest: Outcome, out: Outcome)
    requires Ends(sem, false, r, s, rest) && AfterRest(sem, d, rest, out)
    ensures StmtEnds(sem, false, Defer(r, d), s, out)
  {
    var st := Defer(r, d);
    var n: nat :| Exec(n, sem, false, r, s) == rest;
    if rest.signal.Returned? {
      assert ExecDefer(n + 1, sem, false, st, s) == out;
      assert ExecStmt(n + 2, sem, false, st, s) == out;
    } else {
      var late :| ScopeEnds(sem, d, rest.store, late)
        && (if late.signal.Returned? then out == late else out == Done(late.store, rest.signal));
      ScopeIff(sem, d, rest.store, late);
      var m: nat :| ExecScoped(m, sem, false, All, d, rest.store) == late;
      var k := if n < m then m else n;
      MoreSteps(n, k, sem, false, r, s);
      MoreStepsScoped(m, k, sem, false, All, d, rest.store);
      assert ExecDefer(k + 1, sem, false, st, s) == out;
      assert ExecStmt(k + 2, sem, false, st, s) == out;
    }
  }
}
