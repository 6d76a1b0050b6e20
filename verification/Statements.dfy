/** Statements, the names they assign, and two ways to run them: as the language means them and as
    the generators of src/backend/nir/codegen/statements emit them.  A run works on the map from the
    visible names to their values; the generators push a scope for every branch, arm, loop body and
    deferred block, and a name defined there is gone when the scope is popped, unless the
    construct hands its value on. */
module Statements {

  type Name = string
  type Store = map<Name, Value>
  type Block = seq<Stmt>

  /** An expression as far as statements care: which occurrence in the program it is, the names it
      reads, and whether it may be computed although its branch is not taken. */
  datatype Expr = Expr(node: int, uses: set<Name>, pure: bool)

  /** A value is a number, or what an expression makes of the values that it reads. */
  datatype Value = Number(i: int) | Computed(expr: Expr, inputs: Store)

  datatype Target = Identifier(symbol: Name) | Access

  datatype Stmt =
    | Declaration(target: Target, value: Expr)
    | Assignment(target: Target, value: Expr, compound: bool)
    | Increment(target: Target, value: Expr)   // `x++` and its kin, which no walker looks at
    | If(condition: Expr, consequent: Block, alternate: Block)
    | While(condition: Expr, body: Block)
    | For(binding: Name, iterable: Expr, body: Block, elseBlock: Block)
    | Forever(body: Block)
    | Match(subject: Expr, arms: seq<Arm>)
    | Defer(remaining: Block, deferred: Block)
    | Break
    | Continue
    | Return
    | Call
    | Other

  datatype Arm = Arm(pattern: Expr, body: Block)

  // ---------------------------------------------------------------- names

  function TargetName(t: Target): seq<Name> {
    if t.Identifier? && t.symbol != "" then [t.symbol] else []
  }

  /** The assigned names that the walker of the loops comes across (`nir_assigned_in`), in the order
      of the text, repetitions included. It looks into what remains after a `defer`, not into the
      deferred statements. */
  function Targets(b: Block): seq<Name> {
    if b == [] then [] else StmtTargets(b[0]) + Targets(b[1..])
  }

  function StmtTargets(s: Stmt): seq<Name> {
    match s
    case Declaration(t, _) => TargetName(t)
    case Assignment(t, _, _) => TargetName(t)
    case If(_, c, a) => Targets(c) + Targets(a)
    case While(_, b) => Targets(b)
    case For(_, _, b, e) => Targets(b) + Targets(e)
    case Forever(b) => Targets(b)
    case Match(_, arms) => ArmTargets(arms)
    case Defer(r, _) => Targets(r)
    case _ => []
  }

  function ArmTargets(arms: seq<Arm>): seq<Name> {
    if arms == [] then [] else Targets(arms[0].body) + ArmTargets(arms[1..])
  }

  /** The assigned names that the walker of the conditional comes across (`collect_assigned`): it
      does not look at a `defer` at all. */
  function Collected(b: Block): seq<Name> {
    if b == [] then [] else StmtCollected(b[0]) + Collected(b[1..])
  }

  function StmtCollected(s: Stmt): seq<Name> {
    match s
    case Declaration(t, _) => TargetName(t)
    case Assignment(t, _, _) => TargetName(t)
    case If(_, c, a) => Collected(c) + Collected(a)
    case While(_, b) => Collected(b)
    case For(_, _, b, e) => Collected(b) + Collected(e)
    case Forever(b) => Collected(b)
    case Match(_, arms) => ArmCollected(arms)
    case _ => []
  }

  function ArmCollected(arms: seq<Arm>): seq<Name> {
    if arms == [] then [] else Collected(arms[0].body) + ArmCollected(arms[1..])
  }

  /** Every name a block can write. */
  function Writes(b: Block): (names: seq<Name>)
    ensures "" !in names
  {
    if b == [] then [] else StmtWrites(b[0]) + Writes(b[1..])
  }

  function StmtWrites(s: Stmt): (names: seq<Name>)
    ensures "" !in names
  {
    match s
    case Declaration(t, _) => TargetName(t)
    case Assignment(t, _, _) => TargetName(t)
    case Increment(t, _) => TargetName(t)
    case If(_, c, a) => Writes(c) + Writes(a)
    case While(_, b) => Writes(b)
    case For(_, _, b, e) => Writes(b) + Writes(e)
    case Forever(b) => Writes(b)
    case Match(_, arms) => ArmWrites(arms)
    case Defer(r, d) => Writes(r) + Writes(d)
    case _ => []
  }

  function ArmWrites(arms: seq<Arm>): (names: seq<Name>)
    ensures "" !in names
  {
    if arms == [] then [] else Writes(arms[0].body) + ArmWrites(arms[1..])
  }

  /** The names that are visible after a statement that ends normally, if `live` were before. */
  function LiveAfter(s: Stmt, live: set<Name>): set<Name> {
    match s
    case Declaration(t, _) => live + (set x | x in TargetName(t))
    case Assignment(t, _, _) => live + (set x | x in TargetName(t))
    case Increment(t, _) => live + (set x | x in TargetName(t))
    case Defer(r, _) => LiveAfterBlock(r, live)
    case _ => live
  }

  function LiveAfterBlock(b: Block, live: set<Name>): (r: set<Name>)
    ensures live <= r
  {
    if b == [] then live
    else
      assert live <= LiveAfter(b[0], live) by {
        if b[0].Defer? {
          assert live <= LiveAfterBlock(b[0].remaining, live);
        }
      }
      LiveAfterBlock(b[1..], LiveAfter(b[0], live))
  }

  // ---------------------------------------------------------------- branches that become selects

  /** `block_is_convertible`: plain assignments of pure values and conditionals of such, and calls
      directly in the branch. */
  predicate Convertible(b: Block, top: bool) {
    forall i | 0 <= i < |b| :: ConvertibleStmt(b[i], top)
  }

  predicate ConvertibleStmt(s: Stmt, top: bool) {
    match s
    case Assignment(t, e, compound) => t.Identifier? && t.symbol != "" && !compound && e.pure
    case If(_, c, a) => Convertible(c, false) && Convertible(a, false)
    case Call => top
    case _ => false
  }

  // ---------------------------------------------------------------- running

  /** What expressions evaluate to. */
  datatype Semantics = Semantics(
    value: (Expr, Store) -> Value,
    holds: (Expr, Store) -> bool,
    items: (Expr, Store) -> seq<Value>,
    matches: (Expr, Expr, Store) -> bool)

  predicate Agree(names: set<Name>, s: Store, t: Store) {
    forall x | x in names :: (x in s <==> x in t) && (x in s ==> s[x] == t[x])
  }

  /** Values and conditions depend on the names that the expression reads, and on nothing else. */
  ghost predicate Faithful(sem: Semantics) {
    && (forall e: Expr, s, t | Agree(e.uses, s, t) :: sem.value(e, s) == sem.value(e, t))
    && (forall e: Expr, s, t | Agree(e.uses, s, t) :: sem.holds(e, s) == sem.holds(e, t))
  }

  datatype Signal = Normal | Broken | Continued | Returned

  datatype Outcome = OutOfFuel | Done(store: Store, signal: Signal)

  function Assign(sem: Semantics, t: Target, e: Expr, s: Store): Store {
    if t.Identifier? && t.symbol != "" then s[t.symbol := sem.value(e, s)] else s
  }

  /** At the end of a scope the names defined in it go, and the outer ones keep their values. */
  function Scoped(outer: Store, inner: Store): Store {
    map x | x in outer :: if x in inner then inner[x] else outer[x]
  }

  /** At the end of a generated scope only the named values are handed on. */
  function Carried(names: seq<Name>, outer: Store, inner: Store): Store {
    map x | x in outer :: if x in names && x in inner then inner[x] else outer[x]
  }

  /** Which of the values written in a scope its end hands on. */
  datatype Kept = All | Only(names: seq<Name>)

  function LeaveScope(kept: Kept, outer: Store, inner: Store): Store {
    match kept
    case All => Scoped(outer, inner)
    case Only(names) => Carried(names, outer, inner)
  }

  function LeaveBody(gen: bool, body: Block, outer: Store, inner: Store): Store {
    LeaveScope(if gen then Only(Targets(body)) else All, outer, inner)
  }

  /** The generated `for` defines its binding first and then the carried names over it. */
  function EnterFor(gen: bool, st: Stmt, v: Value, s: Store): Store
    requires st.For?
  {
    if st.binding == "" || (gen && st.binding in Targets(st.body) && st.binding in s) then s
    else s[st.binding := v]
  }

  function LeaveFor(gen: bool, st: Stmt, outer: Store, inner: Store): Store
    requires st.For?
  {
    var left := LeaveBody(gen, st.body, outer, inner);
    if !gen && st.binding != "" && st.binding in outer then left[st.binding := outer[st.binding]] else left
  }

  // ---------------------------------------------------------------- selects

  /** `emit_value_after`: what a select yields for `name`. Every value on the way is computed in the
      store that the conditional has reached with its selects so far, and every nested condition
      in the one that it started from. */
  function ValueAfter(sem: Semantics, b: Block, name: Name, current: Value, now: Store, start: Store): Value {
    if b == [] then current
    else ValueAfter(sem, b[1..], name, ValueAfterStmt(sem, b[0], name, current, now, start), now, start)
  }

  function ValueAfterStmt(sem: Semantics, s: Stmt, name: Name, current: Value, now: Store, start: Store): Value {
    match s
    case Assignment(t, e, _) => if TargetName(t) == [name] then sem.value(e, now) else current
    case If(c, yes, no) =>
      if sem.holds(c, start) then ValueAfter(sem, yes, name, current, now, start)
      else ValueAfter(sem, no, name, current, now, start)
    case _ => current
  }

  /** The collected names that are visible, one after the other, each redefined by its select. */
  function Selected(sem: Semantics, names: seq<Name>, branch: Block, now: Store, start: Store): Store
    decreases |names|
  {
    if names == [] then now
    else
      var x := names[0];
      var next := if x in start then now[x := ValueAfter(sem, branch, x, start[x], now, start)] else now;
      Selected(sem, names[1..], branch, next, start)
  }

  /** `out` with the names of `xs` appended, each only if it is not there yet. */
  function Added(out: seq<Name>, xs: seq<Name>): seq<Name>
    decreases |xs|
  {
    if xs == [] then out
    else Added(if xs[0] in out then out else out + [xs[0]], xs[1..])
  }

  /** The names that a conditional hands on, in the order of its walker. */
  function Handed(st: Stmt): seq<Name>
    requires st.If?
  {
    Added([], Collected(st.consequent) + Collected(st.alternate))
  }

  predicate Selects(st: Stmt)
    requires st.If?
  {
    Convertible(st.consequent, true) && Convertible(st.alternate, true)
  }

  // ---------------------------------------------------------------- blocks and statements

  /** Runs a block: as generated with `gen`, as the language means it without. */
  function Exec(n: nat, sem: Semantics, gen: bool, b: Block, s: Store): Outcome
    decreases n
  {
    if n == 0 then OutOfFuel
    else if b == [] then Done(s, Normal)
    else
      var first := ExecStmt(n - 1, sem, gen, b[0], s);
      if first.Done? && first.signal.Normal? then Exec(n - 1, sem, gen, b[1..], first.store) else first
  }

  /** A block in a scope of its own. A `break` or `continue` takes the values as they stand there,
      whatever the scopes on its way hand on; after a `return` names do not matter any more. */
  function ExecScoped(n: nat, sem: Semantics, gen: bool, kept: Kept, b: Block, s: Store): Outcome
    decreases n
  {
    if n == 0 then OutOfFuel
    else
      var inner := Exec(n - 1, sem, gen, b, s);
      if inner.OutOfFuel? || inner.signal.Returned? then inner
      else if inner.signal.Normal? then Done(LeaveScope(kept, s, inner.store), Normal)
      else Done(Scoped(s, inner.store), inner.signal)
  }

  function ExecStmt(n: nat, sem: Semantics, gen: bool, st: Stmt, s: Store): Outcome
    decreases n
  {
    if n == 0 then OutOfFuel
    else
      match st
      case Declaration(t, e) => Done(Assign(sem, t, e, s), Normal)
      case Assignment(t, e, _) => Done(Assign(sem, t, e, s), Normal)
      case Increment(t, e) => Done(Assign(sem, t, e, s), Normal)
      case If(_, _, _) => ExecIf(n - 1, sem, gen, st, s)
      case While(_, _) => ExecWhile(n - 1, sem, gen, st, s)
      case Forever(_) => ExecWhile(n - 1, sem, gen, st, s)
      case For(_, e, _, _) => ExecFor(n - 1, sem, gen, st, sem.items(e, s), s)
      case Match(e, arms) => ExecMatch(n - 1, sem, gen, e, arms, s)
      case Defer(_, _) => ExecDefer(n - 1, sem, gen, st, s)
      case Break => Done(s, Broken)
      case Continue => Done(s, Continued)
      case Return => Done(map[], Returned)
      case Call => Done(s, Normal)
      case Other => Done(s, Normal)
  }

  /** A generated conditional hands on the names its walker collects: by selects if both branches
      are convertible, else as results of the region. */
  function ExecIf(n: nat, sem: Semantics, gen: bool, st: Stmt, s: Store): Outcome
    requires st.If?
    decreases n
  {
    if n == 0 then OutOfFuel
    else
      var branch := if sem.holds(st.condition, s) then st.consequent else st.alternate;
      var run := ExecScoped(n - 1, sem, gen, if gen then Only(Handed(st)) else All, branch, s);
      if gen && Selects(st) && run.Done? then Done(Selected(sem, Handed(st), branch, s, s), Normal) else run
  }

  function ExecWhile(n: nat, sem: Semantics, gen: bool, st: Stmt, s: Store): Outcome
    requires st.While? || st.Forever?
    decreases n
  {
    if n == 0 then OutOfFuel
    else if st.While? && !sem.holds(st.condition, s) then Done(s, Normal)
    else
      var turn := Exec(n - 1, sem, gen, st.body, s);
      if turn.OutOfFuel? || turn.signal.Returned? then turn
      else
        var next := LeaveBody(gen, st.body, s, turn.store);
        if turn.signal.Broken? then Done(next, Normal) else ExecWhile(n - 1, sem, gen, st, next)
  }

  /** Nothing is generated for the `else` block of a `for`. */
  function ExecFor(n: nat, sem: Semantics, gen: bool, st: Stmt, vs: seq<Value>, s: Store): Outcome
    requires st.For?
    decreases n
  {
    if n == 0 then OutOfFuel
    else if vs == [] then
      if gen || st.elseBlock == [] then Done(s, Normal) else ExecScoped(n - 1, sem, gen, All, st.elseBlock, s)
    else
      var turn := Exec(n - 1, sem, gen, st.body, EnterFor(gen, st, vs[0], s));
      if turn.OutOfFuel? || turn.signal.Returned? then turn
      else
        var next := LeaveFor(gen, st, s, turn.store);
        if turn.signal.Broken? then Done(next, Normal) else ExecFor(n - 1, sem, gen, st, vs[1..], next)
  }

  /** A generated arm hands nothing on. */
  function ExecMatch(n: nat, sem: Semantics, gen: bool, e: Expr, arms: seq<Arm>, s: Store): Outcome
    decreases n
  {
    if n == 0 then OutOfFuel
    else if arms == [] then Done(s, Normal)
    else if sem.matches(e, arms[0].pattern, s) then
      ExecScoped(n - 1, sem, gen, if gen then Only([]) else All, arms[0].body, s)
    else ExecMatch(n - 1, sem, gen, e, arms[1..], s)
  }

  /** The deferred statements run when the rest of the block has; generated, they hand nothing on. */
  function ExecDefer(n: nat, sem: Semantics, gen: bool, st: Stmt, s: Store): Outcome
    requires st.Defer?
    decreases n
  {
    if n == 0 then OutOfFuel
    else
      var rest := Exec(n - 1, sem, gen, st.remaining, s);
      if rest.OutOfFuel? || rest.signal.Returned? then rest
      else
        var late := ExecScoped(n - 1, sem, gen, if gen then Only([]) else All, st.deferred, rest.store);
        if late.OutOfFuel? || late.signal.Returned? then late else Done(late.store, rest.signal)
  }

  // ---------------------------------------------------------------- visible names and kept values

  /** Names outside `names` have kept their values, and no name has gone. */
  ghost predicate Keeps(names: seq<Name>, before: Store, after: Store) {
    before.Keys <= after.Keys && forall x | x in before && x !in names :: after[x] == before[x]
  }

  /** What is known of every run: with a normal end exactly the expected names are visible, with a
      jump no more than those, and nothing but the writes has changed. */
  ghost predicate Sound(out: Outcome, names: seq<Name>, s: Store, live: set<Name>) {
    out.Done? && !out.signal.Returned? ==>
      && Keeps(names, s, out.store)
      && out.store.Keys <= live
      && (out.signal.Normal? ==> out.store.Keys == live)
  }

  lemma {:induction false} CollectedAreWrites(b: Block, x: Name)
    requires x in Collected(b)
    ensures x in Writes(b)
  {
    if x in Collected(b[1..]) {
      CollectedAreWrites(b[1..], x);
    } else {
      match b[0]
      case If(_, c, a) => if x in Collected(c) { CollectedAreWrites(c, x); } else { CollectedAreWrites(a, x); }
      case While(_, c) => CollectedAreWrites(c, x);
      case For(_, _, c, e) => if x in Collected(c) { CollectedAreWrites(c, x); } else { CollectedAreWrites(e, x); }
      case Forever(c) => CollectedAreWrites(c, x);
      case Match(_, arms) => ArmCollectedAreWrites(arms, x);
      case _ =>
    }
  }

  lemma {:induction false} ArmCollectedAreWrites(arms: seq<Arm>, x: Name)
    requires x in ArmCollected(arms)
    ensures x in ArmWrites(arms)
  {
    if x in Collected(arms[0].body) {
      CollectedAreWrites(arms[0].body, x);
    } else {
      ArmCollectedAreWrites(arms[1..], x);
    }
  }

  ghost predicate NoDuplicates(xs: seq<Name>) {
    forall i, j | 0 <= i < j < |xs| :: xs[i] != xs[j]
  }

  lemma {:induction false} AddedIsSet(out: seq<Name>, xs: seq<Name>)
    requires NoDuplicates(out)
    ensures NoDuplicates(Added(out, xs))
    ensures forall x :: x in Added(out, xs) <==> x in out || x in xs
    decreases |xs|
  {
    if xs == [] {
    } else {
      AddedIsSet(if xs[0] in out then out else out + [xs[0]], xs[1..]);
      assert forall x :: x in xs <==> x == xs[0] || x in xs[1..];
    }
  }

  lemma HandedNames(st: Stmt, x: Name)
    requires st.If?
    ensures NoDuplicates(Handed(st))
    ensures x in Handed(st) <==> x in Collected(st.consequent) || x in Collected(st.alternate)
    ensures x in Handed(st) ==> x in StmtWrites(st)
  {
    AddedIsSet([], Collected(st.consequent) + Collected(st.alternate));
    if x in Collected(st.consequent) {
      CollectedAreWrites(st.consequent, x);
    } else if x in Collected(st.alternate) {
      CollectedAreWrites(st.alternate, x);
    }
  }

  lemma {:induction false} SelectedKeeps(sem: Semantics, names: seq<Name>, branch: Block, now: Store, start: Store)
    requires now.Keys == start.Keys
    ensures Selected(sem, names, branch, now, start).Keys == now.Keys
    ensures Keeps(names, now, Selected(sem, names, branch, now, start))
    decreases |names|
  {
    if names == [] {
    } else {
      var x := names[0];
      var next := if x in start then now[x := ValueAfter(sem, branch, x, start[x], now, start)] else now;
      SelectedKeeps(sem, names[1..], branch, next, start);
    }
  }

  /** Running a block, in either way, changes no name outside its writes. */
  lemma {:induction false} ExecSound(n: nat, sem: Semantics, gen: bool, b: Block, s: Store)
    ensures Sound(Exec(n, sem, gen, b, s), Writes(b), s, LiveAfterBlock(b, s.Keys))
    decreases n
  {
    if n == 0 || b == [] {
    } else {
      ExecStmtSound(n - 1, sem, gen, b[0], s);
      var first := ExecStmt(n - 1, sem, gen, b[0], s);
      if first.Done? && first.signal.Normal? {
        ExecSound(n - 1, sem, gen, b[1..], first.store);
      }
    }
  }

  lemma {:induction false} ExecScopedSound(n: nat, sem: Semantics, gen: bool, kept: Kept, b: Block, s: Store)
    ensures Sound(ExecScoped(n, sem, gen, kept, b, s), Writes(b), s, s.Keys)
    decreases n
  {
    if n > 0 {
      ExecSound(n - 1, sem, gen, b, s);
    }
  }

  lemma {:induction false} ExecStmtSound(n: nat, sem: Semantics, gen: bool, st: Stmt, s: Store)
    ensures Sound(ExecStmt(n, sem, gen, st, s), StmtWrites(st), s, LiveAfter(st, s.Keys))
    decreases n
  {
    if n > 0 {
      match st
      case If(_, _, _) => ExecIfSound(n - 1, sem, gen, st, s);
      case While(_, _) => ExecWhileSound(n - 1, sem, gen, st, s);
      case Forever(_) => ExecWhileSound(n - 1, sem, gen, st, s);
      case For(_, e, _, _) => ExecForSound(n - 1, sem, gen, st, sem.items(e, s), s);
      case Match(e, arms) => ExecMatchSound(n - 1, sem, gen, e, arms, s);
      case Defer(_, _) => ExecDeferSound(n - 1, sem, gen, st, s);
      case _ =>
    }
  }

  lemma {:induction false} ExecIfSound(n: nat, sem: Semantics, gen: bool, st: Stmt, s: Store)
    requires st.If?
    ensures Sound(ExecIf(n, sem, gen, st, s), StmtWrites(st), s, s.Keys)
    decreases n
  {
    if n > 0 {
      var branch := if sem.holds(st.condition, s) then st.consequent else st.alternate;
      ExecScopedSound(n - 1, sem, gen, if gen then Only(Handed(st)) else All, branch, s);
      if gen && Selects(st) {
        SelectedKeeps(sem, Handed(st), branch, s, s);
        forall x | x in Handed(st) ensures x in StmtWrites(st) {
          HandedNames(st, x);
        }
      }
    }
  }

  lemma {:induction false} ExecWhileSound(n: nat, sem: Semantics, gen: bool, st: Stmt, s: Store)
    requires st.While? || st.Forever?
    ensures Sound(ExecWhile(n, sem, gen, st, s), Writes(st.body), s, s.Keys)
    decreases n
  {
    if n == 0 || (st.While? && !sem.holds(st.condition, s)) {
    } else {
      ExecSound(n - 1, sem, gen, st.body, s);
      var turn := Exec(n - 1, sem, gen, st.body, s);
      if turn.Done? && !turn.signal.Returned? {
        ExecWhileSound(n - 1, sem, gen, st, LeaveBody(gen, st.body, s, turn.store));
      }
    }
  }

  lemma {:induction false} ExecForSound(n: nat, sem: Semantics, gen: bool, st: Stmt, vs: seq<Value>, s: Store)
    requires st.For?
    ensures Sound(ExecFor(n, sem, gen, st, vs, s), StmtWrites(st), s, s.Keys)
    decreases n
  {
    if n > 0 && vs == [] {
      ExecScopedSound(n - 1, sem, gen, All, st.elseBlock, s);
    } else if n > 0 {
      var start := EnterFor(gen, st, vs[0], s);
      ExecSound(n - 1, sem, gen, st.body, start);
      var turn := Exec(n - 1, sem, gen, st.body, start);
      if turn.Done? && !turn.signal.Returned? {
        ExecForSound(n - 1, sem, gen, st, vs[1..], LeaveFor(gen, st, s, turn.store));
      }
    }
  }

  lemma {:induction false} ExecMatchSound(n: nat, sem: Semantics, gen: bool, e: Expr, arms: seq<Arm>, s: Store)
    ensures Sound(ExecMatch(n, sem, gen, e, arms, s), ArmWrites(arms), s, s.Keys)
    decreases n
  {
    if n == 0 || arms == [] {
    } else {
      if sem.matches(e, arms[0].pattern, s) {
        ExecScopedSound(n - 1, sem, gen, if gen then Only([]) else All, arms[0].body, s);
      } else {
        ExecMatchSound(n - 1, sem, gen, e, arms[1..], s);
      }
    }
  }

  lemma {:induction false} ExecDeferSound(n: nat, sem: Semantics, gen: bool, st: Stmt, s: Store)
    requires st.Defer?
    ensures Sound(ExecDefer(n, sem, gen, st, s), StmtWrites(st), s, LiveAfterBlock(st.remaining, s.Keys))
    decreases n
  {
    if n > 0 {
      ExecSound(n - 1, sem, gen, st.remaining, s);
      var rest := Exec(n - 1, sem, gen, st.remaining, s);
      if rest.Done? && !rest.signal.Returned? {
        ExecScopedSound(n - 1, sem, gen, if gen then Only([]) else All, st.deferred, rest.store);
      }
    }
  }
}
