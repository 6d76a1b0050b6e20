/** What loops amount to, whatever the number of steps: what a turn leads to with each way in which the
    body can end, what a jump at its end does, and how a loop comes apart. */
module LoopLaws {
  import opened Statements
  import opened StatementLaws

  // ---------------------------------------------------------------- loops with a condition

  /** What becomes of a loop when its body has come to the end `turn`. */
  ghost predicate AfterTurn(sem: Semantics, gen: bool, st: Stmt, s: Store, turn: Outcome, out: Outcome)
    requires (st.While? || st.Forever?) && turn.Done?
  {
    var left := LeaveBody(gen, st.body, s, turn.store);
    match turn.signal
    case Normal => StmtEnds(sem, gen, st, left, out)
    case Continued => StmtEnds(sem, gen, st, left, out)
    case Broken => out == Done(left, Normal)
    case Returned => out == turn
  }

  ghost predicate Begins(sem: Semantics, st: Stmt, s: Store) {
    st.Forever? || (st.While? && sem.holds(st.condition, s))
  }

  ghost predicate TurnEnds(sem: Semantics, gen: bool, st: Stmt, s: Store, out: Outcome)
    requires st.While? || st.Forever?
  {
    exists turn :: Ends(sem, gen, st.body, s, turn) && AfterTurn(sem, gen, st, s, turn, out)
  }

  /** A loop whose condition does not hold does nothing; another one runs its body: after a normal end
      or a `continue` the loop is run again, from what the body leaves, and after a `break` it is over. */
  lemma LoopTurns(sem: Semantics, gen: bool, st: Stmt, s: Store, out: Outcome)
    requires st.While? || st.Forever?
    ensures StmtEnds(sem, gen, st, s, out) <==>
            if Begins(sem, st, s) then TurnEnds(sem, gen, st, s, out) else out == Done(s, Normal)
  {
    if !Begins(sem, st, s) {
      assert ExecStmt(2, sem, gen, st, s) == ExecWhile(1, sem, gen, st, s) == Done(s, Normal);
      if StmtEnds(sem, gen, st, s, out) {
        var n: nat :| ExecStmt(n, sem, gen, st, s) == out;
        assert ExecWhile(n - 1, sem, gen, st, s) == out;
      }
    } else {
      forall turn | Ends(sem, gen, st.body, s, turn) && AfterTurn(sem, gen, st, s, turn, out)
        ensures StmtEnds(sem, gen, st, s, out)
      {
        LoopGoesOn(sem, gen, st, s, turn, out);
      }
      if StmtEnds(sem, gen, st, s, out) {
        var n: nat :| ExecStmt(n, sem, gen, st, s) == out;
        LoopTurnsOnce(n, sem, gen, st, s);
      }
    }
  }

  lemma LoopTurnsOnce(n: nat, sem: Semantics, gen: bool, st: Stmt, s: Store)
    requires (st.While? || st.Forever?) && Begins(sem, st, s) && ExecStmt(n, sem, gen, st, s).Done?
    ensures TurnEnds(sem, gen, st, s, ExecStmt(n, sem, gen, st, s))
  {
    var out := ExecStmt(n, sem, gen, st, s);
    assert out == ExecWhile(n - 1, sem, gen, st, s);
    var turn := Exec(n - 2, sem, gen, st.body, s);
    var left := LeaveBody(gen, st.body, s, turn.store);
    if turn.signal.Normal? || turn.signal.Continued? {
      assert ExecStmt(n - 1, sem, gen, st, left) == ExecWhile(n - 2, sem, gen, st, left);
    }
    assert AfterTurn(sem, gen, st, s, turn, out);
  }

  lemma LoopGoesOn(sem: Semantics, gen: bool, st: Stmt, s: Store, turn: Outcome, out: Outcome)
    requires (st.While? || st.Forever?) && Begins(sem, st, s)
    requires Ends(sem, gen, st.body, s, turn) && AfterTurn(sem, gen, st, s, turn, out)
    ensures StmtEnds(sem, gen, st, s, out)
  {
    var n: nat :| Exec(n, sem, gen, st.body, s) == turn;
    var left := LeaveBody(gen, st.body, s, turn.store);
    if turn.signal.Normal? || turn.signal.Continued? {
      var m: nat :| ExecStmt(m, sem, gen, st, left) == out;
      var k := if n < m then m else n;
      MoreSteps(n, k, sem, gen, st.body, s);
      assert ExecWhile(m - 1, sem, gen, st, left) == out;
      MoreStepsWhile(m - 1, k, sem, gen, st, left);
      assert ExecStmt(k + 2, sem, gen, st, s) == ExecWhile(k + 1, sem, gen, st, s) == out;
    } else {
      assert ExecStmt(n + 2, sem, gen, st, s) == ExecWhile(n + 1, sem, gen, st, s) == out;
    }
  }

  // ---------------------------------------------------------------- what a jump at the end of the body does

  lemma {:induction false} TargetsAppend(b: Block, c: Block)
    ensures Targets(b + c) == Targets(b) + Targets(c)
  {
    if b == [] {
      assert b + c == c;
    } else {
      assert (b + c)[0] == b[0] && (b + c)[1..] == b[1..] + c;
      TargetsAppend(b[1..], c);
    }
  }

  lemma SameTargets(b: Block, jump: Stmt)
    requires jump in {Break, Continue}
    ensures Targets(b + [jump]) == Targets(b)
  {
    TargetsAppend(b, [jump]);
    assert [jump][1..] == [];
  }

  function WithBody(st: Stmt, b: Block): Stmt
    requires st.While? || st.Forever?
  {
    if st.While? then While(st.condition, b) else Forever(b)
  }

  /** A `continue` at the end of the body is no different from reaching the end. */
  lemma ContinueIsTheEnd(sem: Semantics, gen: bool, st: Stmt, s: Store)
    requires st.While? || st.Forever?
    ensures Alike(sem, gen, [WithBody(st, st.body + [Continue])], [st], s)
  {
    var long := WithBody(st, st.body + [Continue]);
    forall out ensures Ends(sem, gen, [long], s, out) <==> Ends(sem, gen, [st], s, out) {
      EndsStmt(sem, gen, long, s, out);
      EndsStmt(sem, gen, st, s, out);
      if StmtEnds(sem, gen, long, s, out) {
        var n: nat :| ExecStmt(n, sem, gen, long, s) == out;
        ContinueDropped(n, sem, gen, st, s);
      }
      if StmtEnds(sem, gen, st, s, out) {
        var n: nat :| ExecStmt(n, sem, gen, st, s) == out;
        ContinueAdded(n, sem, gen, st, s);
      }
    }
  }

  lemma {:induction false} ContinueDropped(n: nat, sem: Semantics, gen: bool, st: Stmt, s: Store)
    requires st.While? || st.Forever?
    requires ExecStmt(n, sem, gen, WithBody(st, st.body + [Continue]), s).Done?
    ensures StmtEnds(sem, gen, st, s, ExecStmt(n, sem, gen, WithBody(st, st.body + [Continue]), s))
    decreases n
  {
    var long := WithBody(st, st.body + [Continue]);
    var out := ExecStmt(n, sem, gen, long, s);
    LoopTurns(sem, gen, st, s, out);
    SameTargets(st.body, Continue);
    if Begins(sem, st, s) {
      var turn := FirstTurn(n, sem, gen, long, s);
      EndsWithJump(sem, gen, st.body, Continue, s, turn);
      var own := if Ends(sem, gen, st.body, s, turn) then turn else Done(turn.store, Normal);
      if own.signal.Normal? || own.signal.Continued? {
        ContinueDropped(n - 1, sem, gen, st, LeaveBody(gen, st.body, s, turn.store));
      }
      assert Ends(sem, gen, st.body, s, own) && AfterTurn(sem, gen, st, s, own, out);
    } else {
      LoopTurns(sem, gen, long, s, out);
    }
  }

  /** The first turn of a loop that comes to an end, and what it does from there. */
  lemma FirstTurn(n: nat, sem: Semantics, gen: bool, st: Stmt, s: Store) returns (turn: Outcome)
    requires (st.While? || st.Forever?) && Begins(sem, st, s) && ExecStmt(n, sem, gen, st, s).Done?
    ensures n > 1 && Ends(sem, gen, st.body, s, turn)
    ensures var out, left := ExecStmt(n, sem, gen, st, s), LeaveBody(gen, st.body, s, turn.store);
            match turn.signal
            case Normal => ExecStmt(n - 1, sem, gen, st, left) == out
            case Continued => ExecStmt(n - 1, sem, gen, st, left) == out
            case Broken => out == Done(left, Normal)
            case Returned => out == turn
  {
    var out := ExecStmt(n, sem, gen, st, s);
    assert out == ExecWhile(n - 1, sem, gen, st, s);
    turn := Exec(n - 2, sem, gen, st.body, s);
    var left := LeaveBody(gen, st.body, s, turn.store);
    if turn.signal.Normal? || turn.signal.Continued? {
      assert ExecStmt(n - 1, sem, gen, st, left) == ExecWhile(n - 2, sem, gen, st, left);
    }
  }

  lemma {:induction false} ContinueAdded(n: nat, sem: Semantics, gen: bool, st: Stmt, s: Store)
    requires (st.While? || st.Forever?) && ExecStmt(n, sem, gen, st, s).Done?
    ensures StmtEnds(sem, gen, WithBody(st, st.body + [Continue]), s, ExecStmt(n, sem, gen, st, s))
    decreases n
  {
    var long := WithBody(st, st.body + [Continue]);
    var out := ExecStmt(n, sem, gen, st, s);
    LoopTurns(sem, gen, long, s, out);
    SameTargets(st.body, Continue);
    if Begins(sem, st, s) {
      var own := FirstTurn(n, sem, gen, st, s);
      var turn := if own.signal.Normal? then Done(own.store, Continued) else own;
      EndsWithJump(sem, gen, st.body, Continue, s, turn);
      if own.signal.Normal? || own.signal.Continued? {
        ContinueAdded(n - 1, sem, gen, st, LeaveBody(gen, st.body, s, own.store));
      }
      assert Ends(sem, gen, long.body, s, turn) && AfterTurn(sem, gen, long, s, turn, out);
    } else {
      LoopTurns(sem, gen, st, s, out);
    }
  }

  /** A loop that begins, with a `break` at the end of a body that has no other jump, is one run of the
      body, of which it hands on what its turns hand on. */
  lemma BreakIsOneTurn(sem: Semantics, gen: bool, st: Stmt, s: Store, out: Outcome)
    requires (st.While? || st.Forever?) && NoJump(st.body) && Begins(sem, st, s)
    ensures Ends(sem, gen, [WithBody(st, st.body + [Break])], s, out) <==>
            || (Ends(sem, gen, st.body, s, out) && out.signal.Returned?)
            || exists w ::
                 Ends(sem, gen, st.body, s, Done(w, Normal)) && out == Done(LeaveBody(gen, st.body, s, w), Normal)
  {
    var once := WithBody(st, st.body + [Break]);
    EndsStmt(sem, gen, once, s, out);
    LoopTurns(sem, gen, once, s, out);
    SameTargets(st.body, Break);
    forall turn ensures Ends(sem, gen, once.body, s, turn) <==>
      || (Ends(sem, gen, st.body, s, turn) && turn.signal.Returned?)
      || (turn.Done? && turn.signal.Broken? && Ends(sem, gen, st.body, s, Done(turn.store, Normal)))
    {
      EndsWithJump(sem, gen, st.body, Break, s, turn);
      if Ends(sem, gen, st.body, s, turn) {
        NoJumpEnds(sem, gen, st.body, s, turn);
      }
    }
    forall w | Ends(sem, gen, st.body, s, Done(w, Normal)) ensures Ends(sem, gen, once.body, s, Done(w, Broken)) {
    }
  }

  /** A loop with a condition is a conditional around its body and the loop, if the body declares nothing
      and has no jump. */
  lemma WhileIsIf(sem: Semantics, c: Expr, b: Block, s: Store)
    requires NoJump(b) && LiveAfterBlock(b, s.Keys) == s.Keys
    ensures Alike(sem, false, [While(c, b)], [If(c, b + [While(c, b)], [])], s)
  {
    var loop := While(c, b);
    forall out ensures Ends(sem, false, [loop], s, out) <==> Ends(sem, false, [If(c, b + [loop], [])], s, out) {
      EndsStmt(sem, false, loop, s, out);
      LoopTurns(sem, false, loop, s, out);
      IfIff(sem, c, b + [loop], [], s, out);
      if sem.holds(c, s) {
        BodyThenLoop(sem, c, b, s, out);
      } else {
        forall inner ensures Ends(sem, false, [], s, inner) <==> inner == Done(s, Normal) {
          EndsEmpty(sem, false, s, inner);
        }
        assert Scoped(s, s) == s;
      }
    }
  }

  lemma BodyThenLoop(sem: Semantics, c: Expr, b: Block, s: Store, out: Outcome)
    requires NoJump(b) && LiveAfterBlock(b, s.Keys) == s.Keys
    ensures TurnEnds(sem, false, While(c, b), s, out) <==> ScopeEnds(sem, b + [While(c, b)], s, out)
  {
    var loop := While(c, b);
    forall turn | Ends(sem, false, b, s, turn)
      ensures (turn.signal.Normal? || turn.signal.Returned?)
      ensures turn.signal.Normal? ==> turn.store.Keys == s.Keys && LeaveBody(false, b, s, turn.store) == turn.store
    {
      NoJumpEnds(sem, false, b, s, turn);
      EndsKeys(sem, b, s, turn);
    }
    forall inner ensures Ends(sem, false, b + [loop], s, inner) <==>
      || (Ends(sem, false, b, s, inner) && inner.signal.Returned?)
      || exists mid :: Ends(sem, false, b, s, Done(mid, Normal)) && StmtEnds(sem, false, loop, mid, inner)
    {
      SequenceIff(sem, false, b, [loop], s, inner);
      forall mid ensures Ends(sem, false, [loop], mid, inner) <==> StmtEnds(sem, false, loop, mid, inner) {
        EndsStmt(sem, false, loop, mid, inner);
      }
    }
    forall mid, inner | Ends(sem, false, b, s, Done(mid, Normal)) && StmtEnds(sem, false, loop, mid, inner)
      ensures inner.signal.Normal? || inner.signal.Returned?
      ensures inner.signal.Normal? ==> Scoped(s, inner.store) == inner.store
    {
      LoopKeys(sem, loop, mid, inner);
    }
    if TurnEnds(sem, false, loop, s, out) {
      var turn :| Ends(sem, false, b, s, turn) && AfterTurn(sem, false, loop, s, turn, out);
      if turn.signal.Normal? {
        assert turn == Done(turn.store, Normal);
        assert Ends(sem, false, b + [loop], s, out);
      }
    }
    if ScopeEnds(sem, b + [loop], s, out) {
      var inner :| Ends(sem, false, b + [loop], s, inner)
        && (if inner.signal.Returned? then out == inner else out == Done(Scoped(s, inner.store), inner.signal));
      assert inner == out;
      if !Ends(sem, false, b, s, inner) || !inner.signal.Returned? {
        var mid :| Ends(sem, false, b, s, Done(mid, Normal)) && StmtEnds(sem, false, loop, mid, inner);
        assert AfterTurn(sem, false, loop, s, Done(mid, Normal), out);
      }
    }
  }

  /** A block that declares nothing leaves the names that were visible. */
  lemma EndsKeys(sem: Semantics, b: Block, s: Store, out: Outcome)
    requires Ends(sem, false, b, s, out) && LiveAfterBlock(b, s.Keys) == s.Keys
    ensures out.signal.Normal? ==> out.store.Keys == s.Keys && LeaveBody(false, b, s, out.store) == out.store
  {
    var n: nat :| Exec(n, sem, false, b, s) == out;
    ExecSound(n, sem, false, b, s);
    if out.signal.Normal? {
      assert Scoped(s, out.store) == out.store;
    }
  }

  lemma LoopKeys(sem: Semantics, st: Stmt, s: Store, out: Outcome)
    requires st.While? && StmtEnds(sem, false, st, s, out)
    ensures out.signal.Normal? || out.signal.Returned?
    ensures out.signal.Normal? ==> out.store.Keys == s.Keys
  {
    var n: nat :| ExecStmt(n, sem, false, st, s) == out;
    LoopRunsStraight(n, sem, false, st, s);
    ExecStmtSound(n, sem, false, st, s);
  }

  // ---------------------------------------------------------------- loops over elements

  ghost predicate ForEnds(sem: Semantics, gen: bool, st: Stmt, vs: seq<Value>, s: Store, out: Outcome)
    requires st.For?
  {
    out.Done? && exists n: nat :: ExecFor(n, sem, gen, st, vs, s) == out
  }

  /** A `for` goes over the elements of what it is given. */
  lemma ForIff(sem: Semantics, gen: bool, st: Stmt, s: Store, out: Outcome)
    requires st.For?
    ensures Ends(sem, gen, [st], s, out) <==> ForEnds(sem, gen, st, sem.items(st.iterable, s), s, out)
  {
    var vs := sem.items(st.iterable, s);
    EndsStmt(sem, gen, st, s, out);
    if StmtEnds(sem, gen, st, s, out) {
      var n: nat :| ExecStmt(n, sem, gen, st, s) == out;
      assert ExecFor(n - 1, sem, gen, st, vs, s) == out;
    }
    if ForEnds(sem, gen, st, vs, s, out) {
      var n: nat :| ExecFor(n, sem, gen, st, vs, s) == out;
      assert ExecStmt(n + 1, sem, gen, st, s) == out;
    }
  }

  /** After the last element comes the `else`, of which nothing is generated. */
  lemma ForNothing(sem: Semantics, gen: bool, st: Stmt, s: Store, out: Outcome)
    requires st.For?
    ensures ForEnds(sem, gen, st, [], s, out) <==>
            if gen || st.elseBlock == [] then out == Done(s, Normal) else ScopeEnds(sem, st.elseBlock, s, out)
  {
    if gen || st.elseBlock == [] {
      assert ExecFor(1, sem, gen, st, [], s) == Done(s, Normal);
    } else {
      ScopeIff(sem, st.elseBlock, s, out);
      if ForEnds(sem, gen, st, [], s, out) {
        var n: nat :| ExecFor(n, sem, gen, st, [], s) == out;
        assert ExecScoped(n - 1, sem, false, All, st.elseBlock, s) == out;
      }
      if ScopeDone(sem, st.elseBlock, s, out) {
        var n: nat :| ExecScoped(n, sem, false, All, st.elseBlock, s) == out;
        assert ExecFor(n + 1, sem, gen, st, [], s) == out;
      }
    }
  }

  ghost predicate AfterElement(sem: Semantics, gen: bool, st: Stmt, vs: seq<Value>, s: Store, turn: Outcome,
        out: Outcome)
    requires st.For? && vs != [] && turn.Done?
  {
    var left := LeaveFor(gen, st, s, turn.store);
    match turn.signal
    case Normal => ForEnds(sem, gen, st, vs[1..], left, out)
    case Continued => ForEnds(sem, gen, st, vs[1..], left, out)
    case Broken => out == Done(left, Normal)
    case Returned => out == turn
  }

  ghost predicate ElementEnds(sem: Semantics, gen: bool, st: Stmt, vs: seq<Value>, s: Store, out: Outcome)
    requires st.For? && vs != []
  {
    exists turn :: Ends(sem, gen, st.body, EnterFor(gen, st, vs[0], s), turn)
                   && AfterElement(sem, gen, st, vs, s, turn, out)
  }

  /** The body is run for the first element: after a normal end or a `continue` come the others, and
      after a `break` neither they nor the `else`. */
  lemma ForTurns(sem: Semantics, gen: bool, st: Stmt, vs: seq<Value>, s: Store, out: Outcome)
    requires st.For? && vs != []
    ensures ForEnds(sem, gen, st, vs, s, out) <==> ElementEnds(sem, gen, st, vs, s, out)
  {
    var start := EnterFor(gen, st, vs[0], s);
    if ForEnds(sem, gen, st, vs, s, out) {
      var n: nat :| ExecFor(n, sem, gen, st, vs, s) == out;
      var turn := Exec(n - 1, sem, gen, st.body, start);
      if turn.signal.Normal? || turn.signal.Continued? {
        assert ExecFor(n - 1, sem, gen, st, vs[1..], LeaveFor(gen, st, s, turn.store)) == out;
      }
      assert Ends(sem, gen, st.body, start, turn) && AfterElement(sem, gen, st, vs, s, turn, out);
    }
    forall turn | Ends(sem, gen, st.body, start, turn) && AfterElement(sem, gen, st, vs, s, turn, out)
      ensures ForEnds(sem, gen, st, vs, s, out)
    {
      ForGoesOn(sem, gen, st, vs, s, turn, out);
    }
  }

  lemma ForGoesOn(sem: Semantics, gen: bool, st: Stmt, vs: seq<Value>, s: Store, turn: Outcome, out: Outcome)
    requires st.For? && vs != [] && Ends(sem, gen, st.body, EnterFor(gen, st, vs[0], s), turn)
    requires AfterElement(sem, gen, st, vs, s, turn, out)
    ensures ForEnds(sem, gen, st, vs, s, out)
  {
    var start, left := EnterFor(gen, st, vs[0], s), LeaveFor(gen, st, s, turn.store);
    var n: nat :| Exec(n, sem, gen, st.body, start) == turn;
    if turn.signal.Normal? || turn.signal.Continued? {
      var m: nat :| ExecFor(m, sem, gen, st, vs[1..], left) == out;
      var k := if n < m then m else n;
      MoreSteps(n, k, sem, gen, st.body, start);
      MoreStepsFor(m, k, sem, gen, st, vs[1..], left);
      assert ExecFor(k + 1, sem, gen, st, vs, s) == out;
    } else {
      assert ExecFor(n + 1, sem, gen, st, vs, s) == out;
    }
  }

  /** The same loop with a `break` for its `else`, which tells that it was not left early. */
  function Probe(st: Stmt): Stmt
    requires st.For?
  {
    st.(elseBlock := [Break])
  }

  ghost predicate SplitEnds(sem: Semantics, st: Stmt, vs: seq<Value>, ws: seq<Value>, s: Store, out: Outcome)
    requires st.For?
  {
    || (ForEnds(sem, false, Probe(st), vs, s, out) && !out.signal.Broken?)
    || exists mid :: ForEnds(sem, false, Probe(st), vs, s, Done(mid, Broken)) && ForEnds(sem, false, st, ws, mid, out)
  }

  /** A `for` over some elements and then others goes over the first ones, and, if it was not left, over
      the others from there. */
  lemma {:induction false} ForSplits(sem: Semantics, st: Stmt, vs: seq<Value>, ws: seq<Value>, s: Store, out: Outcome)
    requires st.For?
    ensures ForEnds(sem, false, st, vs + ws, s, out) <==> SplitEnds(sem, st, vs, ws, s, out)
    decreases |vs|
  {
    if vs == [] {
      assert vs + ws == ws;
      NothingProbed(sem, st, s);
    } else {
      assert (vs + ws)[0] == vs[0] && (vs + ws)[1..] == vs[1..] + ws;
      ForTurns(sem, false, st, vs + ws, s, out);
      forall left
        ensures ForEnds(sem, false, st, vs[1..] + ws, left, out) <==> SplitEnds(sem, st, vs[1..], ws, left, out)
      {
        ForSplits(sem, st, vs[1..], ws, left, out);
      }
      if ElementEnds(sem, false, st, vs + ws, s, out) {
        SplitForth(sem, st, vs, ws, s, out);
      }
      if SplitEnds(sem, st, vs, ws, s, out) {
        SplitBack(sem, st, vs, ws, s, out);
      }
    }
  }

  lemma NothingProbed(sem: Semantics, st: Stmt, s: Store)
    requires st.For?
    ensures forall out :: ForEnds(sem, false, Probe(st), [], s, out) <==> out == Done(s, Broken)
  {
    forall out ensures ForEnds(sem, false, Probe(st), [], s, out) <==> out == Done(s, Broken) {
      ForNothing(sem, false, Probe(st), s, out);
      forall inner ensures Ends(sem, false, [Break], s, inner) <==> inner == Done(s, Broken) {
        EndsJump(sem, false, s, inner);
      }
      assert Scoped(s, s) == s;
    }
  }

  lemma SplitForth(sem: Semantics, st: Stmt, vs: seq<Value>, ws: seq<Value>, s: Store, out: Outcome)
    requires st.For? && vs != [] && (vs + ws)[0] == vs[0] && (vs + ws)[1..] == vs[1..] + ws
    requires ElementEnds(sem, false, st, vs + ws, s, out)
    requires forall left | ForEnds(sem, false, st, vs[1..] + ws, left, out) ::
               SplitEnds(sem, st, vs[1..], ws, left, out)
    ensures SplitEnds(sem, st, vs, ws, s, out)
  {
    var start := EnterFor(false, st, vs[0], s);
    var turn :| Ends(sem, false, st.body, start, turn) && AfterElement(sem, false, st, vs + ws, s, turn, out);
    var left := LeaveFor(false, st, s, turn.store);
    if turn.signal.Broken? || turn.signal.Returned?
      || (ForEnds(sem, false, Probe(st), vs[1..], left, out) && !out.signal.Broken?)
    {
      assert AfterElement(sem, false, Probe(st), vs, s, turn, out);
      ForTurns(sem, false, Probe(st), vs, s, out);
    } else {
      var mid :| ForEnds(sem, false, Probe(st), vs[1..], left, Done(mid, Broken))
                 && ForEnds(sem, false, st, ws, mid, out);
      assert AfterElement(sem, false, Probe(st), vs, s, turn, Done(mid, Broken));
      ForTurns(sem, false, Probe(st), vs, s, Done(mid, Broken));
    }
  }

  lemma SplitBack(sem: Semantics, st: Stmt, vs: seq<Value>, ws: seq<Value>, s: Store, out: Outcome)
    requires st.For? && vs != [] && (vs + ws)[0] == vs[0] && (vs + ws)[1..] == vs[1..] + ws
    requires SplitEnds(sem, st, vs, ws, s, out)
    requires forall left | SplitEnds(sem, st, vs[1..], ws, left, out) ::
               ForEnds(sem, false, st, vs[1..] + ws, left, out)
    ensures ElementEnds(sem, false, st, vs + ws, s, out)
  {
    var start := EnterFor(false, st, vs[0], s);
    var probed: Outcome;
    if ForEnds(sem, false, Probe(st), vs, s, out) && !out.signal.Broken? {
      probed := out;
    } else {
      var mid :| ForEnds(sem, false, Probe(st), vs, s, Done(mid, Broken)) && ForEnds(sem, false, st, ws, mid, out);
      probed := Done(mid, Broken);
    }
    ForTurns(sem, false, Probe(st), vs, s, probed);
    var turn :| Ends(sem, false, st.body, start, turn) && AfterElement(sem, false, Probe(st), vs, s, turn, probed);
    var left := LeaveFor(false, st, s, turn.store);
    if turn.signal.Normal? || turn.signal.Continued? {
      assert SplitEnds(sem, st, vs[1..], ws, left, out);
    }
    assert AfterElement(sem, false, st, vs + ws, s, turn, out);
  }
}
