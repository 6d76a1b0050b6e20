/** Which names a loop has to carry (`nir_assigned_in`,
    src/backend/nir/codegen/nir_codegen_utils.hpp), and when the statements that are generated end
    as the language means them (src/backend/nir/codegen/statements). */
module LoopCarried {
  import opened Statements
  import opened BranchSelects

  // ---------------------------------------------------------------- the walker

  lemma {:induction false} AddedTwice(out: seq<Name>, xs: seq<Name>, ys: seq<Name>)
    ensures Added(Added(out, xs), ys) == Added(out, xs + ys)
    decreases |xs|
  {
    if xs == [] {
      assert xs + ys == ys;
    } else {
      assert (xs + ys)[0] == xs[0] && (xs + ys)[1..] == xs[1..] + ys;
      AddedTwice(if xs[0] in out then out else out + [xs[0]], xs[1..], ys);
    }
  }

  method Walk(b: Block, out: seq<Name>) returns (result: seq<Name>)
    ensures result == Added(out, Targets(b))
    decreases b, 1
  {
    result := out;
    for i := 0 to |b|
      invariant Added(out, Targets(b)) == Added(result, Targets(b[i..]))
    {
      assert b[i..][0] == b[i] && b[i..][1..] == b[i + 1..];
      AddedTwice(result, StmtTargets(b[i]), Targets(b[i + 1..]));
      result := WalkStmt(b[i], result);
    }
    assert b[|b|..] == [];
  }

  method WalkStmt(s: Stmt, out: seq<Name>) returns (result: seq<Name>)
    ensures result == Added(out, StmtTargets(s))
    decreases s, 0
  {
    result := out;
    match s {
      case Declaration(t, _) => result := AddName(out, t);
      case Assignment(t, _, _) => result := AddName(out, t);
      case If(_, c, a) =>
        result := Walk(c, result);
        result := Walk(a, result);
        AddedTwice(out, Targets(c), Targets(a));
      case While(_, b) => result := Walk(b, result);
      case For(_, _, b, e) =>
        result := Walk(b, result);
        result := Walk(e, result);
        AddedTwice(out, Targets(b), Targets(e));
      case Forever(b) => result := Walk(b, result);
      case Defer(r, _) => result := Walk(r, result);
      case Match(_, arms) =>
        for i := 0 to |arms|
          invariant Added(out, ArmTargets(arms)) == Added(result, ArmTargets(arms[i..]))
        {
          assert arms[i..][0] == arms[i] && arms[i..][1..] == arms[i + 1..];
          AddedTwice(result, Targets(arms[i].body), ArmTargets(arms[i + 1..]));
          result := Walk(arms[i].body, result);
        }
        assert arms[|arms|..] == [];
      case _ =>
    }
  }

  method AddName(out: seq<Name>, t: Target) returns (result: seq<Name>)
    ensures result == Added(out, TargetName(t))
  {
    result := out;
    if t.Identifier? && t.symbol != "" && t.symbol !in out {
      result := out + [t.symbol];
    }
  }

  /** `nir_assigned_in`: the assigned names, each once, in the order of first assignment. */
  method AssignedIn(b: Block) returns (out: seq<Name>)
    ensures NoDuplicates(out)
    ensures forall x :: x in out <==> x in Targets(b)
    ensures out == Added([], Targets(b))
  {
    out := Walk(b, []);
    AddedIsSet([], Targets(b));
  }

  // ---------------------------------------------------------------- what the walkers read

  /** How much of a `defer` is read: nothing, what remains after it, or the deferred part as well. */
  datatype Reading = SkipsDefer | ReadsRemaining | ReadsDeferred

  /** The statements of a block in the order of the text, those inside other statements included. */
  function Text(b: Block, how: Reading): seq<Stmt> {
    if b == [] then [] else [b[0]] + Inside(b[0], how) + Text(b[1..], how)
  }

  function Inside(s: Stmt, how: Reading): seq<Stmt> {
    match s
    case If(_, c, a) => Text(c, how) + Text(a, how)
    case While(_, b) => Text(b, how)
    case For(_, _, b, e) => Text(b, how) + Text(e, how)
    case Forever(b) => Text(b, how)
    case Match(_, arms) => InsideArms(arms, how)
    case Defer(r, d) =>
      if how.SkipsDefer? then [] else if how.ReadsRemaining? then Text(r, how) else Text(r, how) + Text(d, how)
    case _ => []
  }

  function InsideArms(arms: seq<Arm>, how: Reading): seq<Stmt> {
    if arms == [] then [] else Text(arms[0].body, how) + InsideArms(arms[1..], how)
  }

  /** The names that the statements write themselves, with or without the increments. */
  function Named(text: seq<Stmt>, increments: bool): seq<Name> {
    if text == [] then []
    else
      var s := text[0];
      (if s.Declaration? || s.Assignment? || (increments && s.Increment?) then TargetName(s.target) else [])
      + Named(text[1..], increments)
  }

  lemma {:induction false} NamedTogether(text: seq<Stmt>, more: seq<Stmt>, increments: bool)
    ensures Named(text + more, increments) == Named(text, increments) + Named(more, increments)
  {
    if text == [] {
      assert text + more == more;
    } else {
      assert (text + more)[0] == text[0] && (text + more)[1..] == text[1..] + more;
      NamedTogether(text[1..], more, increments);
    }
  }

  /** What the walker `how` stands for finds in a block. */
  function Found(b: Block, how: Reading): seq<Name> {
    match how
    case SkipsDefer => Collected(b)
    case ReadsRemaining => Targets(b)
    case ReadsDeferred => Writes(b)
  }

  function FoundInside(s: Stmt, how: Reading): seq<Name> {
    match how
    case SkipsDefer => StmtCollected(s)
    case ReadsRemaining => StmtTargets(s)
    case ReadsDeferred => StmtWrites(s)
  }

  function FoundInArms(arms: seq<Arm>, how: Reading): seq<Name> {
    match how
    case SkipsDefer => ArmCollected(arms)
    case ReadsRemaining => ArmTargets(arms)
    case ReadsDeferred => ArmWrites(arms)
  }

  /** The three walkers go over one text: `collect_assigned` leaves every `defer` out, `nir_assigned_in`
      the deferred parts, and both the increments; a run can write all that is named in the whole text. */
  lemma {:induction false} WalkersReadTheText(b: Block, how: Reading)
    ensures Found(b, how) == Named(Text(b, how), how.ReadsDeferred?)
    decreases b, 1
  {
    if b == [] {
    } else {
      InsideIsRead(b[0], how);
      WalkersReadTheText(b[1..], how);
      NamedTogether([b[0]], Inside(b[0], how), how.ReadsDeferred?);
      NamedTogether([b[0]] + Inside(b[0], how), Text(b[1..], how), how.ReadsDeferred?);
    }
  }

  lemma {:induction false} InsideIsRead(s: Stmt, how: Reading)
    ensures FoundInside(s, how) == Named([s], how.ReadsDeferred?) + Named(Inside(s, how), how.ReadsDeferred?)
    decreases s, 0
  {
    assert Named([s][1..], how.ReadsDeferred?) == [];
    match s
    case If(_, c, a) =>
      WalkersReadTheText(c, how);
      WalkersReadTheText(a, how);
      NamedTogether(Text(c, how), Text(a, how), how.ReadsDeferred?);
    case While(_, b) => WalkersReadTheText(b, how);
    case For(_, _, b, e) =>
      WalkersReadTheText(b, how);
      WalkersReadTheText(e, how);
      NamedTogether(Text(b, how), Text(e, how), how.ReadsDeferred?);
    case Forever(b) => WalkersReadTheText(b, how);
    case Match(_, arms) => ArmsAreRead(arms, how);
    case Defer(r, d) =>
      WalkersReadTheText(r, how);
      WalkersReadTheText(d, how);
      NamedTogether(Text(r, how), Text(d, how), how.ReadsDeferred?);
    case _ => PlainIsRead(s, how);
  }

  /** A statement without statements inside. */
  lemma PlainIsRead(s: Stmt, how: Reading)
    requires !s.If? && !s.While? && !s.For? && !s.Forever? && !s.Match? && !s.Defer?
    ensures FoundInside(s, how) == Named([s], how.ReadsDeferred?) && Inside(s, how) == []
  {
    assert Named([s][1..], how.ReadsDeferred?) == [];
  }

  lemma {:induction false} ArmsAreRead(arms: seq<Arm>, how: Reading)
    ensures FoundInArms(arms, how) == Named(InsideArms(arms, how), how.ReadsDeferred?)
    decreases arms, 0
  {
    if arms == [] {
    } else {
      WalkersReadTheText(arms[0].body, how);
      ArmsAreRead(arms[1..], how);
      NamedTogether(Text(arms[0].body, how), InsideArms(arms[1..], how), how.ReadsDeferred?);
    }
  }

  // ---------------------------------------------------------------- what generated code must respect

  /** Every visible name that the block can write is in the list. */
  predicate Listed(b: Block, names: seq<Name>, live: set<Name>) {
    forall i | 0 <= i < |Writes(b)| && Writes(b)[i] in live :: Writes(b)[i] in names
  }

  /** The generated block does what the language means, if the names in `live` are visible before it:
      the loops carry what they write, a `for` has no `else` and does not assign a binding that
      hides a visible name, arms and deferred statements write nothing that is visible around them,
      and conditionals hand on what they write, by selects only where those are right. */
  ghost predicate Covered(b: Block, live: set<Name>) {
    b == [] || (CoveredStmt(b[0], live) && Covered(b[1..], LiveAfter(b[0], live)))
  }

  ghost predicate CoveredStmt(s: Stmt, live: set<Name>) {
    match s
    case If(_, c, a) =>
      && Covered(c, live) && Covered(a, live)
      && if Selects(s) then SelectsRight(s, live) else Listed(c, Handed(s), live) && Listed(a, Handed(s), live)
    case While(_, b) => Covered(b, live) && Listed(b, Targets(b), live)
    case Forever(b) => Covered(b, live) && Listed(b, Targets(b), live)
    case For(x, _, b, e) =>
      && Covered(b, if x == "" then live else live + {x}) && Listed(b, Targets(b), live - {x})
      && (x in live ==> x !in Targets(b))
      && e == []
    case Match(_, arms) => forall i | 0 <= i < |arms| :: Covered(arms[i].body, live) && Listed(arms[i].body, [], live)
    case Defer(r, d) =>
      && Covered(r, live) && Listed(d, [], LiveAfterBlock(r, live))
      && forall at | live <= at <= LiveAfterBlock(r, live) :: Covered(d, at)
    case _ => true
  }

  /** Where the walker lists all that a block writes, nothing outside `nir_assigned_in` changes. */
  lemma OnlyListedNamesChange(n: nat, sem: Semantics, gen: bool, b: Block, s: Store)
    requires Listed(b, Targets(b), s.Keys)
    ensures var out := Exec(n, sem, gen, b, s);
            out.Done? && !out.signal.Returned? ==> Keeps(Targets(b), s, out.store)
  {
    ExecSound(n, sem, gen, b, s);
    assert forall x | x in Writes(b) && x in s :: x in Targets(b);
  }

  /** Handing on the listed values is handing on all of them. */
  lemma LeaveListed(b: Block, names: seq<Name>, s: Store, inner: Store)
    requires Listed(b, names, s.Keys) && Keeps(Writes(b), s, inner)
    ensures Carried(names, s, inner) == Scoped(s, inner)
  {
    assert forall x | x in Writes(b) && x in s :: x in names;
  }

  // ---------------------------------------------------------------- generated code is right where covered

  /** A covered block ends, as generated, in the same store with the same signal as the language
      means it, with loops, conditionals, arms and deferred parts nested in any way. */
  lemma {:induction false} CarryingSuffices(n: nat, sem: Semantics, b: Block, s: Store)
    requires Faithful(sem) && Covered(b, s.Keys)
    ensures Exec(n, sem, true, b, s) == Exec(n, sem, false, b, s)
    decreases n
  {
    if n == 0 || b == [] {
    } else {
      CarryingSufficesStmt(n - 1, sem, b[0], s);
      ExecStmtSound(n - 1, sem, false, b[0], s);
      var first := ExecStmt(n - 1, sem, false, b[0], s);
      if first.Done? && first.signal.Normal? {
        CarryingSuffices(n - 1, sem, b[1..], first.store);
      }
    }
  }

  lemma {:induction false} CarryingSufficesStmt(n: nat, sem: Semantics, st: Stmt, s: Store)
    requires Faithful(sem) && CoveredStmt(st, s.Keys)
    ensures ExecStmt(n, sem, true, st, s) == ExecStmt(n, sem, false, st, s)
    decreases n
  {
    if n > 0 {
      match st
      case If(_, _, _) => CarryingSufficesIf(n - 1, sem, st, s);
      case While(_, _) => CarryingSufficesWhile(n - 1, sem, st, s);
      case Forever(_) => CarryingSufficesWhile(n - 1, sem, st, s);
      case For(_, e, _, _) => CarryingSufficesFor(n - 1, sem, st, sem.items(e, s), s);
      case Match(e, arms) => CarryingSufficesMatch(n - 1, sem, e, arms, s);
      case Defer(_, _) => CarryingSufficesDefer(n - 1, sem, st, s);
      case _ =>
    }
  }

  lemma {:induction false} CarryingSufficesIf(n: nat, sem: Semantics, st: Stmt, s: Store)
    requires Faithful(sem) && st.If? && CoveredStmt(st, s.Keys)
    ensures ExecIf(n, sem, true, st, s) == ExecIf(n, sem, false, st, s)
    decreases n
  {
    if n > 1 {
      var branch := if sem.holds(st.condition, s) then st.consequent else st.alternate;
      CarryingSuffices(n - 2, sem, branch, s);
      if Selects(st) {
        SelectedIsRun(n - 2, sem, st, branch, s);
        SelectsAre(n, sem, st, branch, s);
      } else {
        ResultsAre(n - 1, sem, branch, Handed(st), s);
      }
    }
  }

  lemma SelectsAre(n: nat, sem: Semantics, st: Stmt, branch: Block, s: Store)
    requires n > 1 && st.If? && Selects(st)
    requires branch == if sem.holds(st.condition, s) then st.consequent else st.alternate
    requires Exec(n - 2, sem, true, branch, s) == Exec(n - 2, sem, false, branch, s)
    requires var out := Exec(n - 2, sem, false, branch, s);
      out.Done? ==> out.signal.Normal? && Scoped(s, out.store) == Selected(sem, Handed(st), branch, s, s)
    ensures ExecIf(n, sem, true, st, s) == ExecIf(n, sem, false, st, s)
  {
  }

  /** A scope that hands on all that it writes of the visible names. */
  lemma ResultsAre(n: nat, sem: Semantics, b: Block, names: seq<Name>, s: Store)
    requires n > 0 && Listed(b, names, s.Keys)
    requires Exec(n - 1, sem, true, b, s) == Exec(n - 1, sem, false, b, s)
    ensures ExecScoped(n, sem, true, Only(names), b, s) == ExecScoped(n, sem, false, All, b, s)
  {
    ExecSound(n - 1, sem, false, b, s);
    var inner := Exec(n - 1, sem, false, b, s);
    if inner.Done? && inner.signal.Normal? {
      LeaveListed(b, names, s, inner.store);
    }
  }

  lemma {:induction false} CarryingSufficesWhile(n: nat, sem: Semantics, st: Stmt, s: Store)
    requires Faithful(sem) && (st.While? || st.Forever?) && CoveredStmt(st, s.Keys)
    ensures ExecWhile(n, sem, true, st, s) == ExecWhile(n, sem, false, st, s)
    decreases n
  {
    if n == 0 || (st.While? && !sem.holds(st.condition, s)) {
    } else {
      CarryingSuffices(n - 1, sem, st.body, s);
      ExecSound(n - 1, sem, false, st.body, s);
      var turn := Exec(n - 1, sem, false, st.body, s);
      if turn.Done? && !turn.signal.Returned? {
        LeaveListed(st.body, Targets(st.body), s, turn.store);
        assert Scoped(s, turn.store).Keys == s.Keys;
        CarryingSufficesWhile(n - 1, sem, st, Scoped(s, turn.store));
      }
    }
  }

  lemma {:induction false} CarryingSufficesFor(n: nat, sem: Semantics, st: Stmt, vs: seq<Value>, s: Store)
    requires Faithful(sem) && st.For? && CoveredStmt(st, s.Keys)
    ensures ExecFor(n, sem, true, st, vs, s) == ExecFor(n, sem, false, st, vs, s)
    decreases n
  {
    if n == 0 || vs == [] {
    } else {
      var start := EnterFor(false, st, vs[0], s);
      EnterForSame(st, vs[0], s);
      CarryingSuffices(n - 1, sem, st.body, start);
      ExecSound(n - 1, sem, false, st.body, start);
      var turn := Exec(n - 1, sem, false, st.body, start);
      if turn.Done? && !turn.signal.Returned? {
        LeaveForListed(st, s, start, turn.store);
        CarryingSufficesFor(n - 1, sem, st, vs[1..], LeaveFor(false, st, s, turn.store));
      }
    }
  }

  lemma EnterForSame(st: Stmt, v: Value, s: Store)
    requires st.For? && (st.binding in s ==> st.binding !in Targets(st.body))
    ensures var start := EnterFor(false, st, v, s);
      && EnterFor(true, st, v, s) == start
      && start.Keys == (if st.binding == "" then s.Keys else s.Keys + {st.binding})
      && (st.binding == "" ==> start == s) && forall x | x in s && x != st.binding :: start[x] == s[x]
  {
  }

  lemma LeaveForListed(st: Stmt, s: Store, start: Store, inner: Store)
    requires st.For? && Listed(st.body, Targets(st.body), s.Keys - {st.binding})
    requires st.binding in s ==> st.binding !in Targets(st.body)
    requires s.Keys <= start.Keys && (forall x | x in s && x != st.binding :: start[x] == s[x])
    requires st.binding == "" ==> start == s
    requires Keeps(Writes(st.body), start, inner)
    ensures LeaveFor(true, st, s, inner) == LeaveFor(false, st, s, inner)
    ensures LeaveFor(false, st, s, inner).Keys == s.Keys
  {
    assert forall x | x in Writes(st.body) && x in s && x != st.binding :: x in Targets(st.body);
  }

  lemma {:induction false} CarryingSufficesMatch(n: nat, sem: Semantics, e: Expr, arms: seq<Arm>, s: Store)
    requires Faithful(sem)
    requires forall i | 0 <= i < |arms| :: Covered(arms[i].body, s.Keys) && Listed(arms[i].body, [], s.Keys)
    ensures ExecMatch(n, sem, true, e, arms, s) == ExecMatch(n, sem, false, e, arms, s)
    decreases n
  {
    if n == 0 || arms == [] {
    } else {
      if sem.matches(e, arms[0].pattern, s) {
        SilentScope(n - 1, sem, arms[0].body, s);
      } else {
        CarryingSufficesMatch(n - 1, sem, e, arms[1..], s);
      }
    }
  }

  /** A scope that writes nothing visible may as well hand nothing on. */
  lemma {:induction false} SilentScope(n: nat, sem: Semantics, b: Block, s: Store)
    requires Faithful(sem) && Covered(b, s.Keys) && Listed(b, [], s.Keys)
    ensures ExecScoped(n, sem, true, Only([]), b, s) == ExecScoped(n, sem, false, All, b, s)
    decreases n
  {
    if n > 0 {
      CarryingSuffices(n - 1, sem, b, s);
      ResultsAre(n, sem, b, [], s);
    }
  }

  lemma {:induction false} CarryingSufficesDefer(n: nat, sem: Semantics, st: Stmt, s: Store)
    requires Faithful(sem) && st.Defer? && CoveredStmt(st, s.Keys)
    ensures ExecDefer(n, sem, true, st, s) == ExecDefer(n, sem, false, st, s)
    decreases n
  {
    if n > 0 {
      CarryingSuffices(n - 1, sem, st.remaining, s);
      ExecSound(n - 1, sem, false, st.remaining, s);
      var rest := Exec(n - 1, sem, false, st.remaining, s);
      if rest.Done? && !rest.signal.Returned? {
        SilentScope(n - 1, sem, st.deferred, rest.store);
      }
    }
  }
}
