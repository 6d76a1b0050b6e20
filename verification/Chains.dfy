/** Blocks without branches: assignments, increments, and deferred ones. Where they lead, as generated
    and as the language means it, and what it means that the two end alike. */
module Chains {
  import opened Statements
  import opened LoopCarried

  // ---------------------------------------------------------------- what is compared

  /** From some number of steps on, the generated statement and the statement of the language have
      the same outcome; in particular both end or neither does. */
  ghost predicate EndAlike(sem: Semantics, st: Stmt, s: Store) {
    exists enough: nat :: AlikeFrom(enough, sem, st, s)
  }

  ghost predicate AlikeFrom(enough: nat, sem: Semantics, st: Stmt, s: Store) {
    forall n: nat | n >= enough :: ExecStmt(n, sem, true, st, s) == ExecStmt(n, sem, false, st, s)
  }

  /** ... whatever the expressions compute from the names that they read, and whatever values the
      visible names have. */
  ghost predicate SameOutcomes(st: Stmt, live: set<Name>) {
    forall sem, s: Store | Faithful(sem) && s.Keys == live :: EndAlike(sem, st, s)
  }

  lemma DifferFrom(enough: nat, sem: Semantics, st: Stmt, s: Store)
    requires forall n: nat | n >= enough :: ExecStmt(n, sem, true, st, s) != ExecStmt(n, sem, false, st, s)
    ensures !EndAlike(sem, st, s)
  {
    forall other: nat ensures !AlikeFrom(other, sem, st, s) {
      var n := if other < enough then enough else other;
      assert ExecStmt(n, sem, true, st, s) != ExecStmt(n, sem, false, st, s);
    }
  }

  // ---------------------------------------------------------------- straight-line blocks

  predicate Step(s: Stmt) {
    s.Declaration? || s.Assignment? || s.Increment?
  }

  predicate Straight(b: Block) {
    forall i | 0 <= i < |b| :: Step(b[i])
  }

  function RunStraight(sem: Semantics, b: Block, s: Store): Store
    requires Straight(b)
  {
    if b == [] then s else RunStraight(sem, b[1..], Assign(sem, b[0].target, b[0].value, s))
  }

  lemma {:induction false} StraightRuns(n: nat, sem: Semantics, gen: bool, b: Block, s: Store)
    requires Straight(b)
    ensures Exec(n, sem, gen, b, s) == if n > |b| then Done(RunStraight(sem, b, s), Normal) else OutOfFuel
    decreases n
  {
    if n == 0 || b == [] {
    } else {
      StraightRuns(n - 1, sem, gen, b[1..], Assign(sem, b[0].target, b[0].value, s));
      if n == 1 {
        assert ExecStmt(0, sem, gen, b[0], s) == OutOfFuel;
      }
    }
  }

  lemma {:induction false} StraightKeeps(sem: Semantics, b: Block, s: Store)
    requires Straight(b)
    ensures Keeps(Writes(b), s, RunStraight(sem, b, s))
  {
    if b == [] {
    } else {
      StraightKeeps(sem, b[1..], Assign(sem, b[0].target, b[0].value, s));
    }
  }

  // ---------------------------------------------------------------- chains

  /** Assignments and increments, and a `defer` of such at the end, whose remaining block is a chain. */
  predicate Chain(b: Block) {
    b == [] || if b[0].Defer? then |b| == 1 && Chain(b[0].remaining) && Straight(b[0].deferred)
               else Step(b[0]) && Chain(b[1..])
  }

  /** What the statements of a chain outside its deferred parts write, and the deferred ones. */
  function Early(b: Block): seq<Name>
    requires Chain(b)
  {
    if b == [] then []
    else if b[0].Defer? then Early(b[0].remaining)
    else TargetName(b[0].target) + Early(b[1..])
  }

  function Deferred(b: Block): seq<Name>
    requires Chain(b)
  {
    if b == [] then []
    else if b[0].Defer? then Deferred(b[0].remaining) + Writes(b[0].deferred)
    else Deferred(b[1..])
  }

  /** The expressions in the statements outside the deferred parts, and in the deferred ones. */
  function EarlyValues(b: Block): seq<Expr>
    requires Chain(b)
  {
    if b == [] then []
    else if b[0].Defer? then EarlyValues(b[0].remaining)
    else [b[0].value] + EarlyValues(b[1..])
  }

  function LateValues(b: Block): seq<Expr>
    requires Chain(b)
  {
    if b == [] then []
    else if b[0].Defer? then LateValues(b[0].remaining) + StraightValues(b[0].deferred)
    else LateValues(b[1..])
  }

  function StraightValues(b: Block): seq<Expr>
    requires Straight(b)
  {
    if b == [] then [] else [b[0].value] + StraightValues(b[1..])
  }

  /** No expression occurs both in a deferred statement and outside (each occurrence is one of its
      own, whatever it is spelled like). */
  predicate Once(b: Block)
    requires Chain(b)
  {
    forall i, j | 0 <= i < |EarlyValues(b)| && 0 <= j < |LateValues(b)| :: EarlyValues(b)[i] != LateValues(b)[j]
  }

  lemma {:induction false} ChainNames(b: Block, x: Name)
    requires Chain(b)
    ensures x in Writes(b) <==> x in Early(b) || x in Deferred(b)
    ensures x in Targets(b) || x in Collected(b) ==> x in Early(b)
  {
    if b == [] {
    } else if b[0].Defer? {
      assert b[1..] == [];
      ChainNames(b[0].remaining, x);
    } else {
      ChainNames(b[1..], x);
      assert Targets(b) == StmtTargets(b[0]) + Targets(b[1..]);
      assert Collected(b) == StmtCollected(b[0]) + Collected(b[1..]);
      assert x in StmtTargets(b[0]) || x in StmtCollected(b[0]) ==> x in TargetName(b[0].target);
    }
  }

  /** The steps that a chain takes. */
  predicate Enough(n: nat, b: Block)
    requires Chain(b)
    decreases b
  {
    if b == [] then n > 0
    else if b[0].Defer? then n > 3 && Enough(n - 3, b[0].remaining) && n - 4 > |b[0].deferred|
    else n > 1 && Enough(n - 1, b[1..])
  }

  function ChainSize(b: Block): (r: nat)
    requires Chain(b)
    ensures forall n: nat | n >= r :: Enough(n, b)
    decreases b
  {
    if b == [] then 1
    else if b[0].Defer? then 5 + ChainSize(b[0].remaining) + |b[0].deferred|
    else 1 + ChainSize(b[1..])
  }

  /** Where a chain leads, as generated or as meant. */
  function RunChain(sem: Semantics, gen: bool, b: Block, s: Store): Store
    requires Chain(b)
    decreases b
  {
    if b == [] then s
    else if b[0].Defer? then
      var w := RunChain(sem, gen, b[0].remaining, s);
      if gen then w else Scoped(w, RunStraight(sem, b[0].deferred, w))
    else RunChain(sem, gen, b[1..], Assign(sem, b[0].target, b[0].value, s))
  }

  lemma {:induction false} ChainRuns(n: nat, sem: Semantics, gen: bool, b: Block, s: Store)
    requires Chain(b)
    ensures Exec(n, sem, gen, b, s) == if Enough(n, b) then Done(RunChain(sem, gen, b, s), Normal) else OutOfFuel
    decreases n
  {
    if n <= 1 || b == [] {
      assert n == 1 && b != [] ==> ExecStmt(0, sem, gen, b[0], s) == OutOfFuel;
    } else if b[0].Defer? {
      DeferRuns(n - 1, sem, gen, b[0], s);
      assert b[1..] == [];
    } else {
      ChainRuns(n - 1, sem, gen, b[1..], Assign(sem, b[0].target, b[0].value, s));
    }
  }

  lemma {:induction false} DeferRuns(n: nat, sem: Semantics, gen: bool, st: Stmt, s: Store)
    requires st.Defer? && Chain(st.remaining) && Straight(st.deferred)
    ensures ExecStmt(n, sem, gen, st, s) ==
      if n > 2 && Enough(n - 2, st.remaining) && n - 3 > |st.deferred| then Done(RunChain(sem, gen, [st], s), Normal)
      else OutOfFuel
    decreases n
  {
    if n > 1 {
      assert ExecStmt(n, sem, gen, st, s) == ExecDefer(n - 1, sem, gen, st, s);
      ChainRuns(n - 2, sem, gen, st.remaining, s);
      LateRuns(n - 2, sem, gen, st.deferred, RunChain(sem, gen, st.remaining, s));
    } else if n == 1 {
      assert ExecDefer(0, sem, gen, st, s) == OutOfFuel;
    }
  }

  lemma LateRuns(n: nat, sem: Semantics, gen: bool, d: Block, s: Store)
    requires Straight(d)
    ensures ExecScoped(n, sem, gen, if gen then Only([]) else All, d, s) ==
      if n - 1 > |d| then Done(if gen then s else Scoped(s, RunStraight(sem, d, s)), Normal) else OutOfFuel
  {
    if n > 0 {
      StraightRuns(n - 1, sem, gen, d, s);
      assert Carried([], s, RunStraight(sem, d, s)) == s;
    }
  }

  /** A chain in a scope of its own. */
  lemma ScopedChain(n: nat, sem: Semantics, gen: bool, kept: Kept, b: Block, s: Store)
    requires Chain(b)
    ensures ExecScoped(n, sem, gen, kept, b, s) ==
      if n > 0 && Enough(n - 1, b) then Done(LeaveScope(kept, s, RunChain(sem, gen, b, s)), Normal) else OutOfFuel
  {
    if n > 0 {
      ChainRuns(n - 1, sem, gen, b, s);
    }
  }

  /** As generated and as meant, a chain differs only in what its deferred statements assign. */
  lemma {:induction false} ChainAgrees(sem: Semantics, b: Block, s: Store)
    requires Chain(b)
    ensures var gen, ord := RunChain(sem, true, b, s), RunChain(sem, false, b, s);
      gen.Keys == ord.Keys && forall x | x in gen && x !in Deferred(b) :: gen[x] == ord[x]
    decreases b
  {
    if b == [] {
    } else if b[0].Defer? {
      ChainAgrees(sem, b[0].remaining, s);
      StraightKeeps(sem, b[0].deferred, RunChain(sem, false, b[0].remaining, s));
    } else {
      ChainAgrees(sem, b[1..], Assign(sem, b[0].target, b[0].value, s));
    }
  }

  lemma {:induction false} ChainKeeps(sem: Semantics, gen: bool, b: Block, s: Store)
    requires Chain(b)
    ensures Keeps(Writes(b), s, RunChain(sem, gen, b, s))
    ensures gen ==> Keeps(Early(b), s, RunChain(sem, gen, b, s))
    decreases b
  {
    if b == [] {
    } else if b[0].Defer? {
      assert b[1..] == [];
      ChainKeeps(sem, gen, b[0].remaining, s);
      StraightKeeps(sem, b[0].deferred, RunChain(sem, gen, b[0].remaining, s));
    } else {
      ChainKeeps(sem, gen, b[1..], Assign(sem, b[0].target, b[0].value, s));
    }
  }

  // ---------------------------------------------------------------- what is handed on

  /** Every visible name that the chain writes is handed on, and no deferred statement writes it. */
  ghost predicate NothingLost(b: Block, names: seq<Name>, live: set<Name>)
    requires Chain(b)
  {
    forall x | x in live && x in Writes(b) :: x in names && x !in Deferred(b)
  }

  lemma SameLeftAt(sem: Semantics, b: Block, names: seq<Name>, s: Store, x: Name)
    requires Chain(b) && x in s && (x in Writes(b) ==> x in names && x !in Deferred(b))
    ensures x in RunChain(sem, true, b, s) && x in RunChain(sem, false, b, s)
    ensures Carried(names, s, RunChain(sem, true, b, s))[x] == Scoped(s, RunChain(sem, false, b, s))[x]
  {
    ChainAgrees(sem, b, s);
    ChainKeeps(sem, true, b, s);
    ChainKeeps(sem, false, b, s);
    ChainNames(b, x);
  }

  /** Then the chain leaves the same store, generated or not. */
  lemma SameLeft(sem: Semantics, b: Block, names: seq<Name>, s: Store)
    requires Chain(b) && NothingLost(b, names, s.Keys)
    ensures Carried(names, s, RunChain(sem, true, b, s)) == Scoped(s, RunChain(sem, false, b, s))
  {
    forall x | x in s
      ensures Carried(names, s, RunChain(sem, true, b, s))[x] == Scoped(s, RunChain(sem, false, b, s))[x]
    {
      SameLeftAt(sem, b, names, s, x);
    }
  }

  // ---------------------------------------------------------------- values that tell where they are from

  /** Every expression has a value of its own; conditions are `holds`, iterables `items`, and an arm
      matches if its pattern is `pattern`. */
  function Marks(holds: (Expr, Store) -> bool, items: seq<Value>, pattern: Expr): Semantics {
    Semantics((e, s) => Computed(e, map[]), holds, (e, s) => items, (e, p, s) => p == pattern)
  }

  function Always(t: bool): (Expr, Store) -> bool {
    (e, s) => t
  }

  /** A condition that reads `y` holds while `y` is 0, and others do not. */
  function ZeroTest(y: Name): (Expr, Store) -> bool {
    (e: Expr, s: Store) => y in e.uses && y in s && s[y] == Number(0)
  }

  lemma MarksAreFaithful(t: bool, y: Name, items: seq<Value>, pattern: Expr)
    ensures Faithful(Marks(Always(t), items, pattern)) && Faithful(Marks(ZeroTest(y), items, pattern))
  {
  }

  /** All visible names are 0. */
  function Zeros(live: set<Name>): Store {
    map x | x in live :: Number(0)
  }

  ghost predicate MarkedBy(v: Value, es: seq<Expr>) {
    exists i :: 0 <= i < |es| && v == Computed(es[i], map[])
  }

  lemma {:induction false} StraightMarks(sem: Semantics, b: Block, s: Store, x: Name)
    requires Straight(b) && x in Writes(b) && forall e: Expr, t: Store :: sem.value(e, t) == Computed(e, map[])
    ensures x in RunStraight(sem, b, s) && MarkedBy(RunStraight(sem, b, s)[x], StraightValues(b))
  {
    var next := Assign(sem, b[0].target, b[0].value, s);
    if x in Writes(b[1..]) {
      StraightMarks(sem, b[1..], next, x);
      MarkedMore(RunStraight(sem, b, s)[x], [b[0].value], StraightValues(b[1..]));
    } else {
      StraightKeeps(sem, b[1..], next);
      assert StraightValues(b)[0] == b[0].value;
    }
  }

  lemma MarkedMore(v: Value, more: seq<Expr>, es: seq<Expr>)
    ensures MarkedBy(v, es) ==> MarkedBy(v, more + es)
    ensures MarkedBy(v, more) ==> MarkedBy(v, more + es)
  {
    if MarkedBy(v, es) {
      var i :| 0 <= i < |es| && v == Computed(es[i], map[]);
      assert (more + es)[|more| + i] == es[i];
    }
    if MarkedBy(v, more) {
      var i :| 0 <= i < |more| && v == Computed(more[i], map[]);
      assert (more + es)[i] == more[i];
    }
  }

  /** The value of a written name tells whether it was last written by a deferred statement. */
  lemma {:induction false} ChainMarks(sem: Semantics, gen: bool, b: Block, s: Store, x: Name)
    requires Chain(b) && forall e: Expr, t: Store :: sem.value(e, t) == Computed(e, map[])
    requires x in s && (x in Early(b) || (!gen && x in Deferred(b)))
    ensures var w := RunChain(sem, gen, b, s);
      x in w && MarkedBy(w[x], if !gen && x in Deferred(b) then LateValues(b) else EarlyValues(b))
    decreases b
  {
    ChainKeeps(sem, gen, b, s);
    if b[0].Defer? {
      ChainMarksLate(sem, gen, b, s, x);
    } else {
      var next := Assign(sem, b[0].target, b[0].value, s);
      if x in Early(b[1..]) || (!gen && x in Deferred(b[1..])) {
        ChainMarks(sem, gen, b[1..], next, x);
        MarkedMore(RunChain(sem, gen, b, s)[x], [b[0].value], EarlyValues(b[1..]));
      } else {
        ChainKeeps(sem, gen, b[1..], next);
        ChainNames(b[1..], x);
        assert RunChain(sem, gen, b, s)[x] == Computed(b[0].value, map[]) && EarlyValues(b)[0] == b[0].value;
      }
    }
  }

  lemma {:induction false} ChainMarksLate(sem: Semantics, gen: bool, b: Block, s: Store, x: Name)
    requires Chain(b) && b != [] && b[0].Defer? && forall e: Expr, t: Store :: sem.value(e, t) == Computed(e, map[])
    requires x in s && (x in Early(b) || (!gen && x in Deferred(b))) && x in RunChain(sem, gen, b, s)
    ensures MarkedBy(RunChain(sem, gen, b, s)[x], if !gen && x in Deferred(b) then LateValues(b) else EarlyValues(b))
    decreases b, 0
  {
    var r, d := b[0].remaining, b[0].deferred;
    var w := RunChain(sem, gen, r, s);
    ChainKeeps(sem, gen, r, s);
    StraightKeeps(sem, d, w);
    if !gen && x in Writes(d) {
      StraightMarks(sem, d, w, x);
      MarkedMore(RunChain(sem, gen, b, s)[x], LateValues(r), StraightValues(d));
    } else {
      ChainMarks(sem, gen, r, s, x);
      MarkedMore(w[x], LateValues(r), StraightValues(d));
    }
  }

  /** Where something visible is lost, it is left with another value, if it starts at 0. */
  lemma LostDiffers(sem: Semantics, b: Block, names: seq<Name>, s: Store, x: Name)
    requires Chain(b) && Once(b) && forall e: Expr, t: Store :: sem.value(e, t) == Computed(e, map[])
    requires x in s && s[x] == Number(0) && x in Writes(b) && (x !in names || x in Deferred(b))
    ensures Carried(names, s, RunChain(sem, true, b, s))[x] != Scoped(s, RunChain(sem, false, b, s))[x]
  {
    ChainNames(b, x);
    ChainKeeps(sem, true, b, s);
    ChainMarks(sem, false, b, s, x);
    if x in names && x in Early(b) {
      ChainMarks(sem, true, b, s, x);
    }
  }
}
