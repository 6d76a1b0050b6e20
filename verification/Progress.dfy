/** The threads of the runtime go on (src/backend/runtime/nir_bridge.c): inside a runtime call a thread has
    a next step, or it waits for another thread that the call is meant to wait for. */
module Progress {
  import opened RefCounts
  import opened Runtime
  import Ch = Channel

  // ---------------------------------------------------------------- where threads are

  /** The channels agree with the threads on who is in them. */
  ghost predicate ChannelFits(s: State, t: Tid, c: int) {
    && (ActOf(s, t) == InChannel(c) ==> c in s.chans)
    && (c in s.chans ==> (Ch.PcOf(s.chans[c], t).Idle? <==> ActOf(s, t) != InChannel(c)))
  }

  ghost predicate ChannelsFit(s: State) {
    forall t, c :: ChannelFits(s, t, c)
  }

  /** A chunk that was given to a worker has that worker, which has not ended. */
  ghost predicate PieceFits(s: State, p: Tid, i: int) {
    i in PiecesOf(s, p) && PiecesOf(s, p)[i].state.Started? ==>
      RoleOf(s, PiecesOf(s, p)[i].state.worker) == Worker(p, i) && !ActOf(s, PiecesOf(s, p)[i].state.worker).Ended?
  }

  ghost predicate PiecesFollow(s: State) {
    forall p, i :: PieceFits(s, p, i)
  }

  lemma InsideStays(c: Ch.Chan, y: Ch.Step, t: Tid)
    requires Ch.Enabled(c, y) && Ch.Safe(c, y) && (y.Signal? ==> forall u | u in y.wakes :: Ch.PcOf(c, u).Asleep?)
    ensures Ch.PcOf(Ch.Next(c, y), t) == Ch.PcAfter(c, y, t)
    ensures t != y.t ==> (Ch.PcAfter(c, y, t).Idle? <==> Ch.PcOf(c, t).Idle?)
    ensures Ch.MovesTo(c, y).Idle? <==> y.UnlockSend? || y.Finish?
  {
  }

  /** The step takes the thread out of the channel. */
  predicate Leaves(x: ChannelStep) {
    x.ReceiveReturns? || (x.Inside? && x.s.UnlockSend?)
  }

  lemma ActInChannel(s: State, x: ChannelStep, t: Tid)
    requires ChannelEnabled(s, x)
    ensures ActAfter(s, ChannelChange(s, x), t)
         == if t != x.t then ActOf(s, t) else if Leaves(x) then Free else InChannel(x.c)
  {
  }

  lemma PcInChannel(s: State, x: ChannelStep, t: Tid)
    requires ChannelEnabled(s, x) && Ch.Inv(s.chans[x.c]) && Ch.Safe(s.chans[x.c], Wire(s, x))
    ensures Ch.PcOf(Ch.Next(s.chans[x.c], Wire(s, x)), t).Idle?
       <==> if t == x.t then Leaves(x) else Ch.PcOf(s.chans[x.c], t).Idle?
  {
    InsideStays(s.chans[x.c], Wire(s, x), t);
  }

  lemma FitsNext(s: State, next: State, x: ChannelStep, chan: Ch.Chan, t: Tid, c: int)
    requires ChannelFits(s, t, c) && x.c in s.chans && next.chans == s.chans[x.c := chan]
    requires ActOf(s, x.t) in {Free, InChannel(x.c)}
    requires ActOf(next, t) == if t != x.t then ActOf(s, t) else if Leaves(x) then Free else InChannel(x.c)
    requires Ch.PcOf(chan, t).Idle? <==> if t == x.t then Leaves(x) else Ch.PcOf(s.chans[x.c], t).Idle?
    ensures ChannelFits(next, t, c)
  {
  }

  lemma ChannelFitsAfterChannel(s: State, x: ChannelStep, t: Tid, c: int)
    requires Inv(s) && Enabled(s, OfChannel(x)) && Safe(s, OfChannel(x)) && ChannelFits(s, t, c)
    ensures ChannelFits(Next(s, OfChannel(x)), t, c)
  {
    assert Ch.Inv(s.chans[x.c]);
    NextThread(s, OfChannel(x), t);
    ActInChannel(s, x, t);
    PcInChannel(s, x, t);
    FitsNext(s, Next(s, OfChannel(x)), x, Ch.Next(s.chans[x.c], Wire(s, x)), t, c);
  }

  lemma ChannelFitsAfterOther(s: State, e: Step, t: Tid, c: int)
    requires !e.OfChannel? && Enabled(s, e) && Safe(s, e) && ChannelFits(s, t, c)
    ensures ChannelFits(Next(s, e), t, c)
  {
    NextThread(s, e, t);
    OtherActs(s, e, t, c);
  }

  lemma OtherActs(s: State, e: Step, t: Tid, c: int)
    requires !e.OfChannel? && Enabled(s, e)
    ensures ActAfter(s, ChangeOf(s, e), t) == InChannel(c) <==> ActOf(s, t) == InChannel(c)
  {
  }

  ghost predicate PieceFitsAfter(s: State, c: Change, p: Tid, i: int) {
    i in PiecesAfter(s, c, p) && PiecesAfter(s, c, p)[i].state.Started? ==>
      var w := PiecesAfter(s, c, p)[i].state.worker;
      RoleAfter(s, c, w) == Worker(p, i) && !ActAfter(s, c, w).Ended?
  }

  lemma PieceFitsKept(s: State, e: Step, p: Tid, i: int)
    requires Enabled(s, e) && Safe(s, e) && PieceFits(s, p, i) && ThreadHolds(s, By(e))
    ensures PieceFits(Next(s, e), p, i)
  {
    if e.OfLoop? {
      WorkerKnown(s, e.l, p, i);
    } else {
      WorkerStays(s, e, p, i);
    }
    NextThread(s, e, p);
    if i in PiecesAfter(s, ChangeOf(s, e), p) && PiecesAfter(s, ChangeOf(s, e), p)[i].state.Started? {
      NextThread(s, e, PiecesAfter(s, ChangeOf(s, e), p)[i].state.worker);
    }
  }

  lemma WorkerStays(s: State, e: Step, p: Tid, i: int)
    requires !e.OfLoop? && Enabled(s, e) && PieceFits(s, p, i)
    ensures PieceFitsAfter(s, ChangeOf(s, e), p, i)
  {
  }

  lemma WorkerKnown(s: State, l: LoopStep, p: Tid, i: int)
    requires LoopEnabled(s, l) && PieceFits(s, p, i) && ThreadHolds(s, l.t)
    ensures PieceFitsAfter(s, LoopChange(s, l), p, i)
  {
  }

  lemma {:induction false} RunFits(states: seq<State>, steps: seq<Step>, n: nat)
    requires IsRun(states, steps) && n <= |steps|
    ensures ChannelsFit(states[n]) && PiecesFollow(states[n])
  {
    if n == 0 {
    } else {
      RunFits(states, steps, n - 1);
      RunInv(states, steps, n - 1);
      FitsKept(states[n - 1], steps[n - 1]);
    }
  }

  lemma FitsKept(s: State, e: Step)
    requires Inv(s) && ChannelsFit(s) && PiecesFollow(s) && Enabled(s, e)
    ensures Safe(s, e) && ChannelsFit(Next(s, e)) && PiecesFollow(Next(s, e))
  {
    EnabledIsSafe(s, e);
    forall t, c ensures ChannelFits(Next(s, e), t, c) {
      assert ChannelFits(s, t, c);
      if e.OfChannel? {
        ChannelFitsAfterChannel(s, e.x, t, c);
      } else {
        ChannelFitsAfterOther(s, e, t, c);
      }
    }
    forall p, i ensures PieceFits(Next(s, e), p, i) {
      assert PieceFits(s, p, i) && ThreadHolds(s, By(e));
      PieceFitsKept(s, e, p, i);
    }
  }

  // ---------------------------------------------------------------- going on

  /** The thread has a next step; waking without having been signalled is not counted as one. */
  ghost predicate GoesOn(s: State, t: Tid) {
    exists e :: By(e) == t && Enabled(s, e) && !(e.OfChannel? && e.x.Inside? && e.x.s.Spurious?)
  }

  lemma {:induction false} Above(ks: set<int>) returns (k: int)
    ensures forall x | x in ks :: x < k
  {
    if ks == {} {
      k := 0;
    } else {
      var x := Pick(ks);
      var rest := Above(ks - {x});
      k := if x < rest then rest else x + 1;
      assert forall y | y in ks :: y == x || y in ks - {x};
    }
  }

  lemma Pick<T>(ks: set<T>) returns (x: T)
    requires ks != {}
    ensures x in ks
  {
    x :| x in ks;
  }

  /** A variable that holds nothing. */
  lemma EmptyVariable(holders: map<Ref, Obj>, t: Tid) returns (k: int)
    ensures Local(t, k) !in holders
  {
    var ks := set r | r in holders && r.Local? :: r.k;
    assert forall x :: Local(t, x) in holders ==> x in ks by {
      assert forall x :: Local(t, x).k == x;
    }
    k := Above(ks);
  }

  lemma HolderGoesOn(s: State, t: Tid, c: int)
    requires Inv(s) && ChannelsFit(s) && c in s.chans && s.chans[c].lock == Ch.Some(t)
    ensures GoesOn(s, t)
  {
    assert Ch.Inv(s.chans[c]) && ChannelFits(s, t, c);
    Ch.HolderMoves(s.chans[c], t);
    var y: Ch.Step :| y.t == t && Ch.Internal(y) && !y.Finish? && Ch.Enabled(s.chans[c], y);
    assert By(OfChannel(Inside(t, c, y))) == t && Enabled(s, OfChannel(Inside(t, c, y)));
  }

  /** In a channel a thread goes on, or sleeps, or waits for the lock, whose holder goes on. */
  lemma InChannelGoesOn(s: State, t: Tid, c: int)
    requires Inv(s) && ChannelsFit(s) && ActOf(s, t) == InChannel(c)
    ensures c in s.chans
    ensures var chan := s.chans[c];
            || GoesOn(s, t) || Ch.PcOf(chan, t).Asleep?
            || (chan.lock.Some? && chan.lock.value != t && GoesOn(s, chan.lock.value))
  {
    assert ChannelFits(s, t, c);
    var chan := s.chans[c];
    assert Ch.Inv(chan);
    var pc := Ch.PcOf(chan, t);
    if chan.lock.Some? {
      HolderGoesOn(s, chan.lock.value, c);
    }
    if pc.Holding? {
      var k := EmptyVariable(s.heap.holders, t);
      assert By(OfChannel(ReceiveReturns(t, c, k))) == t && Enabled(s, OfChannel(ReceiveReturns(t, c, k)));
    } else if chan.lock.None? && !pc.Asleep? {
      assert !Ch.Critical(pc);
      var y := if pc.Prepared? then Ch.LockSend(t) else Ch.LockRecv(t);
      assert By(OfChannel(Inside(t, c, y))) == t && Enabled(s, OfChannel(Inside(t, c, y)));
    }
  }

  /** In `spawn`: whichever way creating the thread goes. */
  lemma SpawningGoesOn(s: State, t: Tid)
    requires Inv(s) && ActOf(s, t).Spawning?
    ensures GoesOn(s, t)
    ensures var phase := SlotOf(s, ActOf(s, t).slot).phase;
            phase.Counted? ==> Enabled(s, OfSpawn(CreateFails(t)))
                               && exists b :: b !in s.threads && Enabled(s, OfSpawn(CreateThread(t, b)))
  {
    assert ThreadHolds(s, t);
    var phase := SlotOf(s, ActOf(s, t).slot).phase;
    var w := if phase.Reserved? then CountClosure(t) else if phase.Counted? then CreateFails(t) else ClearFailed(t);
    assert By(OfSpawn(w)) == t && Enabled(s, OfSpawn(w));
    if phase.Counted? {
      var b := Above(s.threads.Keys);
      assert Enabled(s, OfSpawn(CreateThread(t, b)));
    }
  }

  /** A body that has returned gives its closure up, and in `join` a thread goes on once the body of the
      slot has done so. */
  lemma JoiningGoesOn(s: State, t: Tid)
    requires Inv(s) && (ActOf(s, t).Joining? || ActOf(s, t).Leaving?)
    ensures GoesOn(s, t) || (ActOf(s, t).Joining? && Awaited(s, ActOf(s, t).slot))
  {
    var act := ActOf(s, t);
    assert ThreadHolds(s, t);
    if act.Leaving? {
      assert By(OfJoin(ReleaseClosure(t))) == t && Enabled(s, OfJoin(ReleaseClosure(t)));
    } else {
      var slot := SlotOf(s, act.slot);
      assert SlotHolds(s, act.slot);
      if slot.phase.Finished? {
        var k := EmptyVariable(s.heap.holders, t);
        assert By(OfJoin(JoinTakes(t, k))) == t && Enabled(s, OfJoin(JoinTakes(t, k)));
      } else if slot.phase.Joined? {
        assert By(OfJoin(JoinClears(t))) == t && Enabled(s, OfJoin(JoinClears(t)));
      }
    }
  }

  /** The body that was started for the slot is still there. */
  predicate Awaited(s: State, i: int) {
    var phase := SlotOf(s, i).phase;
    && (phase.Running? || phase.Returned?)
    && RoleOf(s, phase.body) == Body(i) && !ActOf(s, phase.body).Ended?
  }

  /** In a parallel loop: a chunk that is owed can be given to a worker, or given up when there is none;
      any other has a worker that has not ended; and without chunks the loop can return. */
  lemma ParallelGoesOn(s: State, t: Tid)
    requires Inv(s) && PiecesFollow(s) && ActOf(s, t).InParallel?
    ensures GoesOn(s, t) && Enabled(s, OfLoop(RunChunk(t)))
    ensures var depth, pieces := |LoopsOf(s, t)|, PiecesOf(s, t);
            && (NoneAt(pieces, depth) ==> Enabled(s, OfLoop(ParallelReturns(t))))
            && forall i | i in pieces && pieces[i].depth == depth ::
                 if pieces[i].state.Owed? then
                   Enabled(s, OfLoop(WorkerFails(t, i))) && exists w :: Enabled(s, OfLoop(CreateWorker(t, i, w)))
                 else
                   RoleOf(s, pieces[i].state.worker) == Worker(t, i) && !ActOf(s, pieces[i].state.worker).Ended?
  {
    assert By(OfLoop(RunChunk(t))) == t && Enabled(s, OfLoop(RunChunk(t)));
    var depth, pieces := |LoopsOf(s, t)|, PiecesOf(s, t);
    var w := Above(s.threads.Keys);
    forall i | i in pieces && pieces[i].depth == depth
      ensures if pieces[i].state.Owed? then
                Enabled(s, OfLoop(WorkerFails(t, i))) && exists w :: Enabled(s, OfLoop(CreateWorker(t, i, w)))
              else RoleOf(s, pieces[i].state.worker) == Worker(t, i) && !ActOf(s, pieces[i].state.worker).Ended?
    {
      assert PieceFits(s, t, i);
      if pieces[i].state.Owed? {
        assert Enabled(s, OfLoop(CreateWorker(t, i, w)));
      }
    }
  }

  /** In the program's own code a thread can always go on. */
  lemma FreeGoesOn(s: State, t: Tid)
    requires ActOf(s, t).Free?
    ensures GoesOn(s, t)
  {
    var k := EmptyVariable(s.heap.holders, t);
    var o := Above(s.heap.count.Keys);
    assert By(OfProgram(NewObject(t, k, o))) == t && Enabled(s, OfProgram(NewObject(t, k, o)));
  }

  // ---------------------------------------------------------------- waiting

  /** What a thread may wait for: a message, the lock of a channel, or the end of a body. */
  ghost predicate Waits(s: State, t: Tid) {
    match ActOf(s, t)
    case InChannel(c) =>
      && c in s.chans
      && var chan := s.chans[c];
         || Ch.PcOf(chan, t).Asleep?
         || (chan.lock.Some? && chan.lock.value != t && GoesOn(s, chan.lock.value))
    case Joining(i) => Awaited(s, i)
    case _ => false
  }

  /** In every state of every run each thread has ended, or goes on, or waits for a message, for a lock
      whose holder goes on, or for a body that has not ended. */
  lemma ThreadsGoOn(states: seq<State>, steps: seq<Step>, n: nat, t: Tid)
    requires IsRun(states, steps) && n <= |steps|
    ensures var s := states[n]; ActOf(s, t).Ended? || GoesOn(s, t) || Waits(s, t)
  {
    var s := states[n];
    RunInv(states, steps, n);
    RunFits(states, steps, n);
    match ActOf(s, t)
    case Free => FreeGoesOn(s, t);
    case InChannel(c) => InChannelGoesOn(s, t, c);
    case Spawning(_, _) => SpawningGoesOn(s, t);
    case Joining(_) => JoiningGoesOn(s, t);
    case InParallel(_, _) => ParallelGoesOn(s, t);
    case Leaving => JoiningGoesOn(s, t);
    case Ended =>
  }

  /** The thread sleeps in `recv`, on a channel from which everything sent has been received. */
  ghost predicate SleepsDrained(s: State, t: Tid) {
    exists c :: ActOf(s, t) == InChannel(c) && c in s.chans && Ch.PcOf(s.chans[c], t).Asleep?
                && s.chans[c].chain == [] && s.chans[c].sent == s.chans[c].received
  }

  /** So when nothing goes on, every thread that has not ended sleeps on a drained channel or waits for
      the body of a thread that has not ended either: only the program's own waiting is left. */
  lemma StuckIsWaiting(states: seq<State>, steps: seq<Step>, n: nat, t: Tid)
    requires IsRun(states, steps) && n <= |steps| && forall u :: !GoesOn(states[n], u)
    ensures var s := states[n];
            ActOf(s, t).Ended? || SleepsDrained(s, t) || (ActOf(s, t).Joining? && Awaited(s, ActOf(s, t).slot))
  {
    var s := states[n];
    ThreadsGoOn(states, steps, n, t);
    RunInv(states, steps, n);
    RunFits(states, steps, n);
    if ActOf(s, t).InChannel? {
      var c := ActOf(s, t).c;
      assert Ch.Inv(s.chans[c]);
      StuckChannel(s, c);
      Ch.StuckMeansDrained(s.chans[c]);
      assert Ch.PcOf(s.chans[c], t).Asleep?;
      assert t in s.chans[c].asleep;
    }
  }

  lemma StuckChannel(s: State, c: int)
    requires Inv(s) && ChannelsFit(s) && c in s.chans && forall u :: !GoesOn(s, u)
    ensures forall y | Ch.Internal(y) :: !Ch.Enabled(s.chans[c], y)
  {
    forall y: Ch.Step | Ch.Internal(y) ensures !Ch.Enabled(s.chans[c], y) {
      assert ChannelFits(s, y.t, c);
      if Ch.Enabled(s.chans[c], y) {
        StepGoesOn(s, c, y);
      }
    }
  }

  lemma StepGoesOn(s: State, c: int, y: Ch.Step)
    requires c in s.chans && ChannelFits(s, y.t, c) && Ch.Internal(y) && Ch.Enabled(s.chans[c], y)
    ensures GoesOn(s, y.t)
  {
    var t := y.t;
    assert ActOf(s, t) == InChannel(c);
    if y.Finish? {
      var k := EmptyVariable(s.heap.holders, t);
      assert By(OfChannel(ReceiveReturns(t, c, k))) == t && Enabled(s, OfChannel(ReceiveReturns(t, c, k)));
    } else {
      assert By(OfChannel(Inside(t, c, y))) == t && Enabled(s, OfChannel(Inside(t, c, y)));
    }
  }
}
