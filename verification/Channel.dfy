/** One channel of the runtime (`nv_channel_send` and `nv_channel_recv`,
    src/backend/runtime/nir_bridge.c), shared by any number of threads.  Every access to shared
    memory, every lock operation and every wait or signal is a step of its own. */
module Channel {
  import opened RefCounts

  type Tid = int
  type NodeId = int

  datatype Option<+T> = None | Some(value: T)

  /** `NvChanMsg` */
  datatype Msg = Msg(value: Obj, next: Option<NodeId>)

  /** Where a thread is: before `send` got the lock, at each statement under the lock, blocked
      in `pthread_cond_wait`, woken from it and waiting for the lock again, or past the unlock
      of `recv` with the node it took; `at` is its place among the messages received so far. */
  datatype Pc =
    | Idle
    | Prepared(node: NodeId) | Linking(node: NodeId) | SettingTail(node: NodeId) | Signalling | UnlockingSend
    | Called | Testing | Asleep | Woken
    | FixingTail(node: NodeId, at: nat) | UnlockingRecv(node: NodeId, at: nat) | Holding(node: NodeId, at: nat)

  /** `NvChanSlot`, the allocated nodes and the condition variable's waiters.  `chain` is the
      list as it is meant; `sent` and `received` are the history in lock order. */
  datatype Chan = Chan(
    nodes: map<NodeId, Msg>,
    head: Option<NodeId>,
    tail: Option<NodeId>,
    lock: Option<Tid>,
    asleep: set<Tid>,
    woken: set<Tid>,
    pc: map<Tid, Pc>,
    chain: seq<NodeId>,
    sent: seq<Obj>,
    received: seq<Obj>)

  datatype Step =
    | Prepare(t: Tid, node: NodeId, value: Obj)
    | LockSend(t: Tid)
    | Link(t: Tid)
    | SetTail(t: Tid)
    | Signal(t: Tid, wakes: set<Tid>)
    | UnlockSend(t: Tid)
    | Call(t: Tid)
    | LockRecv(t: Tid)
    | Sleep(t: Tid)
    | Spurious(t: Tid)
    | Take(t: Tid)
    | FixTail(t: Tid)
    | UnlockRecv(t: Tid)
    | Finish(t: Tid)

  const EMPTY := Chan(map[], None, None, None, {}, {}, map[], [], [], [])

  function PcOf(c: Chan, t: Tid): Pc {
    if t in c.pc then c.pc[t] else Idle
  }

  predicate Enabled(c: Chan, s: Step) {
    match s
    case Prepare(t, n, _) => PcOf(c, t).Idle? && n !in c.nodes
    case LockSend(t) => PcOf(c, t).Prepared? && c.lock.None?
    case Link(t) => PcOf(c, t).Linking?
    case SetTail(t) => PcOf(c, t).SettingTail?
    case Signal(t, ts) => PcOf(c, t).Signalling? && ts <= c.asleep && (ts == {} ==> c.asleep == {})
    case UnlockSend(t) => PcOf(c, t).UnlockingSend?
    case Call(t) => PcOf(c, t).Idle?
    case LockRecv(t) => (PcOf(c, t).Called? || PcOf(c, t).Woken?) && c.lock.None?
    case Sleep(t) => PcOf(c, t).Testing? && c.head.None?
    case Spurious(t) => PcOf(c, t).Asleep?
    case Take(t) => PcOf(c, t).Testing? && c.head.Some?
    case FixTail(t) => PcOf(c, t).FixingTail?
    case UnlockRecv(t) => PcOf(c, t).UnlockingRecv?
    case Finish(t) => PcOf(c, t).Holding?
  }

  /** The step reads and writes allocated nodes only. */
  predicate Safe(c: Chan, s: Step)
    requires Enabled(c, s)
  {
    match s
    case Link(t) => PcOf(c, t).node in c.nodes && (c.tail.Some? ==> c.tail.value in c.nodes)
    case Take(_) => c.head.value in c.nodes && c.chain != []
    case Finish(t) => PcOf(c, t).node in c.nodes
    case _ => true
  }

  /** What the step does to the shared memory, the lock and the waiters. */
  function Effect(c: Chan, s: Step): Chan
    requires Enabled(c, s) && Safe(c, s)
  {
    match s
    case Prepare(_, n, v) => c.(nodes := c.nodes[n := Msg(v, None)])
    case LockSend(t) => c.(lock := Some(t))
    case Link(t) =>
      var n := PcOf(c, t).node;
      var linked := if c.tail.Some?
                    then c.(nodes := c.nodes[c.tail.value := c.nodes[c.tail.value].(next := Some(n))])
                    else c.(head := Some(n));
      linked.(chain := c.chain + [n], sent := c.sent + [c.nodes[n].value])
    case SetTail(t) => c.(tail := Some(PcOf(c, t).node))
    case Signal(_, ts) => c.(asleep := c.asleep - ts, woken := c.woken + ts)
    case UnlockSend(_) => c.(lock := None)
    case Call(_) => c
    case LockRecv(t) => c.(lock := Some(t), woken := c.woken - {t})
    case Sleep(t) => c.(lock := None, asleep := c.asleep + {t})
    case Spurious(t) => c.(asleep := c.asleep - {t}, woken := c.woken + {t})
    case Take(_) =>
      var n := c.head.value;
      c.(head := c.nodes[n].next, chain := c.chain[1..], received := c.received + [c.nodes[n].value])
    case FixTail(_) => if c.head.None? then c.(tail := None) else c
    case UnlockRecv(_) => c.(lock := None)
    case Finish(t) => c.(nodes := c.nodes - {PcOf(c, t).node})
  }

  /** Where the thread that takes the step goes. */
  function MovesTo(c: Chan, s: Step): Pc
    requires Enabled(c, s)
  {
    match s
    case Prepare(_, n, _) => Prepared(n)
    case LockSend(t) => Linking(PcOf(c, t).node)
    case Link(t) => SettingTail(PcOf(c, t).node)
    case SetTail(_) => Signalling
    case Signal(_, _) => UnlockingSend
    case UnlockSend(_) => Idle
    case Call(_) => Called
    case LockRecv(_) => Testing
    case Sleep(_) => Asleep
    case Spurious(_) => Woken
    case Take(_) => FixingTail(c.head.value, |c.received|)
    case FixTail(t) => UnlockingRecv(PcOf(c, t).node, PcOf(c, t).at)
    case UnlockRecv(t) => Holding(PcOf(c, t).node, PcOf(c, t).at)
    case Finish(_) => Idle
  }

  function PcAfter(c: Chan, s: Step, u: Tid): Pc
    requires Enabled(c, s)
  {
    if u == s.t then MovesTo(c, s) else if s.Signal? && u in s.wakes then Woken else PcOf(c, u)
  }

  function Next(c: Chan, s: Step): Chan
    requires Enabled(c, s) && Safe(c, s)
  {
    var moved := c.pc.Keys + {s.t} + if s.Signal? then s.wakes else {};
    Effect(c, s).(pc := map u | u in moved :: PcAfter(c, s, u))
  }

  // ---------------------------------------------------------------- the invariant

  predicate Critical(pc: Pc) {
    || pc.Linking? || pc.SettingTail? || pc.Signalling? || pc.UnlockingSend?
    || pc.Testing? || pc.FixingTail? || pc.UnlockingRecv?
  }

  /** The thread has a node of its own, not (or no longer) in the list. */
  predicate Private(pc: Pc) {
    pc.Prepared? || pc.Linking? || pc.FixingTail? || pc.UnlockingRecv? || pc.Holding?
  }

  /** Mutual exclusion, and the condition variable's waiters are where they should be. */
  ghost predicate LocksHold(c: Chan) {
    && (forall t :: Critical(PcOf(c, t)) <==> c.lock == Some(t))
    && (forall t :: PcOf(c, t).Asleep? <==> t in c.asleep)
    && (forall t :: PcOf(c, t).Woken? <==> t in c.woken)
  }

  predicate InNodes(nodes: map<NodeId, Msg>, chain: seq<NodeId>) {
    forall i | 0 <= i < |chain| :: chain[i] in nodes
  }

  ghost predicate NodesApart(c: Chan) {
    && InNodes(c.nodes, c.chain)
    && (forall i, j | 0 <= i < j < |c.chain| :: c.chain[i] != c.chain[j])
    && (forall t | Private(PcOf(c, t)) :: PcOf(c, t).node in c.nodes && PcOf(c, t).node !in c.chain)
    && (forall t | PcOf(c, t).Prepared? || PcOf(c, t).Linking? :: c.nodes[PcOf(c, t).node].next == None)
    && (forall t, u | Private(PcOf(c, t)) && Private(PcOf(c, u)) && t != u :: PcOf(c, t).node != PcOf(c, u).node)
  }

  function LastOf(chain: seq<NodeId>): Option<NodeId> {
    if chain == [] then None else Some(chain[|chain| - 1])
  }

  /** Where the thread that has the lock is. */
  function Holder(c: Chan): Pc {
    if c.lock.Some? then PcOf(c, c.lock.value) else Idle
  }

  /** The pointers spell the chain; `tail` lags behind only between the two writes of a send
      or of a receive, while the lock is held. */
  ghost predicate Spelled(nodes: map<NodeId, Msg>, head: Option<NodeId>, tail: Option<NodeId>,
                          chain: seq<NodeId>, holder: Pc)
    requires InNodes(nodes, chain)
  {
    && head == (if chain == [] then None else Some(chain[0]))
    && (forall i | 0 <= i < |chain| - 1 :: nodes[chain[i]].next == Some(chain[i + 1]))
    && (chain != [] ==> nodes[chain[|chain| - 1]].next == None)
    && (if holder.SettingTail? then
          LastOf(chain) == Some(holder.node) && tail == LastOf(chain[..|chain| - 1])
        else
          tail == if holder.FixingTail? && chain == [] then Some(holder.node) else LastOf(chain))
  }

  ghost predicate ListSpelled(c: Chan)
    requires NodesApart(c)
  {
    Spelled(c.nodes, c.head, c.tail, c.chain, Holder(c))
  }

  function Values(nodes: map<NodeId, Msg>, chain: seq<NodeId>): seq<Obj>
    requires InNodes(nodes, chain)
  {
    seq(|chain|, i requires 0 <= i < |chain| => nodes[chain[i]].value)
  }

  /** First in, first out, each message once: what was received followed by what is still
      queued is what was sent, in lock order. */
  ghost predicate Fifo(c: Chan)
    requires NodesApart(c)
  {
    c.sent == c.received + Values(c.nodes, c.chain)
  }

  predicate Took(pc: Pc) {
    pc.FixingTail? || pc.UnlockingRecv? || pc.Holding?
  }

  /** What a thread has taken off the list is the message of its place in the history, and no two
      threads have the same place. */
  ghost predicate Receipts(c: Chan)
    requires NodesApart(c)
  {
    && (forall t | Took(PcOf(c, t)) ::
          PcOf(c, t).at < |c.received| && c.nodes[PcOf(c, t).node].value == c.received[PcOf(c, t).at])
    && (forall t, u | Took(PcOf(c, t)) && Took(PcOf(c, u)) && t != u :: PcOf(c, t).at != PcOf(c, u).at)
  }

  /** 1 while the lock holder is going to signal a message it has linked, or to test the list. */
  function Pending(holder: Pc): nat {
    if holder.SettingTail? || holder.Signalling? || holder.Testing? then 1 else 0
  }

  /** While a receiver sleeps, every queued message has somebody awake to take it. */
  ghost predicate WakeupsKept(c: Chan) {
    c.asleep != {} ==> |c.chain| <= |c.woken| + Pending(Holder(c))
  }

  ghost predicate Inv(c: Chan) {
    LocksHold(c) && NodesApart(c) && ListSpelled(c) && Fifo(c) && Receipts(c) && WakeupsKept(c)
  }

  // ---------------------------------------------------------------- it is kept by every step

  predicate Sends(s: Step) {
    s.Prepare? || s.LockSend? || s.Link? || s.SetTail? || s.Signal? || s.UnlockSend?
  }

  /** No step of a reachable state follows a dangling pointer. */
  lemma InvSafe(c: Chan, s: Step)
    requires NodesApart(c) && ListSpelled(c) && LocksHold(c) && Enabled(c, s)
    ensures Safe(c, s)
  {
    assert Critical(PcOf(c, s.t)) <==> c.lock == Some(s.t);
  }

  lemma PcNext(c: Chan, s: Step, u: Tid)
    requires Enabled(c, s) && Safe(c, s)
    ensures PcOf(Next(c, s), u) == PcAfter(c, s, u)
  {
  }

  lemma LocksHoldKept(c: Chan, s: Step)
    requires LocksHold(c) && Enabled(c, s) && Safe(c, s)
    ensures LocksHold(Next(c, s))
  {
    forall u
      ensures Critical(PcOf(Next(c, s), u)) <==> Next(c, s).lock == Some(u)
      ensures PcOf(Next(c, s), u).Asleep? <==> u in Next(c, s).asleep
      ensures PcOf(Next(c, s), u).Woken? <==> u in Next(c, s).woken
    {
      PcNext(c, s, u);
    }
  }

  lemma PrivateKeptSend(c: Chan, s: Step, u: Tid)
    requires NodesApart(c) && ListSpelled(c) && Enabled(c, s) && Safe(c, s) && Sends(s) && Private(PcAfter(c, s, u))
    ensures PcAfter(c, s, u).node in Next(c, s).nodes
    ensures PcAfter(c, s, u).node !in Next(c, s).chain
    ensures PcAfter(c, s, u).Prepared? || PcAfter(c, s, u).Linking? ==>
              Next(c, s).nodes[PcAfter(c, s, u).node].next == None
  {
  }

  lemma PrivateKeptRecv(c: Chan, s: Step, u: Tid)
    requires NodesApart(c) && ListSpelled(c) && Enabled(c, s) && Safe(c, s) && !Sends(s) && Private(PcAfter(c, s, u))
    ensures PcAfter(c, s, u).node in Next(c, s).nodes
    ensures PcAfter(c, s, u).node !in Next(c, s).chain
    ensures PcAfter(c, s, u).Prepared? || PcAfter(c, s, u).Linking? ==>
              Next(c, s).nodes[PcAfter(c, s, u).node].next == None
  {
  }

  lemma PrivateApart(c: Chan, s: Step, u: Tid, w: Tid)
    requires NodesApart(c) && ListSpelled(c) && Enabled(c, s)
    requires Private(PcAfter(c, s, u)) && Private(PcAfter(c, s, w)) && u != w
    ensures PcAfter(c, s, u).node != PcAfter(c, s, w).node
  {
  }

  lemma NodesApartKept(c: Chan, s: Step)
    requires NodesApart(c) && ListSpelled(c) && Enabled(c, s) && Safe(c, s)
    ensures NodesApart(Next(c, s))
  {
    var d := Next(c, s);
    forall u | Private(PcOf(d, u))
      ensures PcOf(d, u).node in d.nodes && PcOf(d, u).node !in d.chain
      ensures PcOf(d, u).Prepared? || PcOf(d, u).Linking? ==> d.nodes[PcOf(d, u).node].next == None
    {
      PcNext(c, s, u);
      if Sends(s) { PrivateKeptSend(c, s, u); } else { PrivateKeptRecv(c, s, u); }
    }
    forall u, w | Private(PcOf(d, u)) && Private(PcOf(d, w)) && u != w
      ensures PcOf(d, u).node != PcOf(d, w).node
    {
      PcNext(c, s, u);
      PcNext(c, s, w);
      PrivateApart(c, s, u, w);
    }
  }

  function HolderAfter(c: Chan, s: Step): Pc
    requires Enabled(c, s)
  {
    if s.Prepare? || s.Call? || s.Spurious? || s.Finish? then Holder(c)
    else if s.UnlockSend? || s.Sleep? || s.UnlockRecv? then Idle
    else MovesTo(c, s)
  }

  lemma HolderNext(c: Chan, s: Step)
    requires LocksHold(c) && Enabled(c, s) && Safe(c, s)
    ensures Holder(Next(c, s)) == HolderAfter(c, s)
    ensures HolderAfter(c, s) != Holder(c) ==> c.lock.None? || c.lock == Some(s.t)
  {
    PcNext(c, s, s.t);
    if c.lock.Some? {
      PcNext(c, s, c.lock.value);
    }
    assert Critical(PcOf(c, s.t)) <==> c.lock == Some(s.t);
  }

  lemma LinkSpelled(nodes: map<NodeId, Msg>, head: Option<NodeId>, tail: Option<NodeId>,
                    chain: seq<NodeId>, n: NodeId)
    requires InNodes(nodes, chain) && forall i, j | 0 <= i < j < |chain| :: chain[i] != chain[j]
    requires Spelled(nodes, head, tail, chain, Linking(n))
    requires n in nodes && n !in chain && nodes[n].next == None
    ensures tail.None? ==> Spelled(nodes, Some(n), tail, chain + [n], SettingTail(n))
    ensures tail.Some? ==>
              && tail.value in nodes
              && Spelled(nodes[tail.value := nodes[tail.value].(next := Some(n))], head, tail,
                         chain + [n], SettingTail(n))
  {
    assert (chain + [n])[..|chain|] == chain;
  }

  lemma TakeSpelled(nodes: map<NodeId, Msg>, head: Option<NodeId>, tail: Option<NodeId>, chain: seq<NodeId>,
                    at: nat)
    requires InNodes(nodes, chain) && chain != []
    requires Spelled(nodes, head, tail, chain, Testing)
    ensures Spelled(nodes, nodes[chain[0]].next, tail, chain[1..], FixingTail(chain[0], at))
  {
  }

  lemma ListSpelledKept(c: Chan, s: Step)
    requires LocksHold(c) && NodesApart(c) && ListSpelled(c) && Enabled(c, s) && Safe(c, s)
    requires NodesApart(Next(c, s))
    ensures ListSpelled(Next(c, s))
  {
    HolderNext(c, s);
    assert Critical(PcOf(c, s.t)) <==> c.lock == Some(s.t);
    if s.Link? {
      LinkSpelled(c.nodes, c.head, c.tail, c.chain, PcOf(c, s.t).node);
    } else if s.Take? {
      TakeSpelled(c.nodes, c.head, c.tail, c.chain, |c.received|);
    }
  }

  lemma FifoKept(c: Chan, s: Step)
    requires NodesApart(c) && ListSpelled(c) && Fifo(c) && Enabled(c, s) && Safe(c, s)
    requires NodesApart(Next(c, s))
    ensures Fifo(Next(c, s))
  {
    var d := Effect(c, s);
    assert Next(c, s).nodes == d.nodes && Next(c, s).chain == d.chain;
  }

  /** Nodes come with `send` and go with `recv`; nothing overwrites the value in between, so
      what `recv` returns is what it took off the list. */
  lemma NextNodes(c: Chan, s: Step)
    requires Enabled(c, s) && Safe(c, s)
    ensures s.Prepare? ==> Next(c, s).nodes == c.nodes[s.node := Msg(s.value, None)]
    ensures s.Finish? ==> Next(c, s).nodes == c.nodes - {PcOf(c, s.t).node}
    ensures !s.Prepare? && !s.Finish? ==>
              && Next(c, s).nodes.Keys == c.nodes.Keys
              && forall n | n in c.nodes :: Next(c, s).nodes[n].value == c.nodes[n].value
  {
  }

  lemma ReceiptKept(c: Chan, s: Step, u: Tid)
    requires NodesApart(c) && ListSpelled(c) && Receipts(c) && Enabled(c, s) && Safe(c, s) && Took(PcAfter(c, s, u))
    ensures var pc := PcAfter(c, s, u); var d := Effect(c, s);
            pc.at < |d.received| && pc.node in d.nodes && d.nodes[pc.node].value == d.received[pc.at]
  {
    NextNodes(c, s);
    assert Next(c, s).nodes == Effect(c, s).nodes;
    assert u != s.t ==> PcAfter(c, s, u) == PcOf(c, u);
  }

  lemma ReceiptsKept(c: Chan, s: Step)
    requires NodesApart(c) && ListSpelled(c) && Receipts(c) && Enabled(c, s) && Safe(c, s)
    requires NodesApart(Next(c, s))
    ensures Receipts(Next(c, s))
  {
    var d := Next(c, s);
    assert d.nodes == Effect(c, s).nodes && d.received == Effect(c, s).received;
    forall u | Took(PcOf(d, u))
      ensures PcOf(d, u).at < |d.received| && d.nodes[PcOf(d, u).node].value == d.received[PcOf(d, u).at]
    {
      PcNext(c, s, u);
      ReceiptKept(c, s, u);
    }
    forall u, w | Took(PcOf(d, u)) && Took(PcOf(d, w)) && u != w ensures PcOf(d, u).at != PcOf(d, w).at {
      PcNext(c, s, u);
      PcNext(c, s, w);
    }
  }

  lemma WakeupsKeptKept(c: Chan, s: Step)
    requires LocksHold(c) && NodesApart(c) && ListSpelled(c) && WakeupsKept(c) && Enabled(c, s) && Safe(c, s)
    ensures WakeupsKept(Next(c, s))
  {
    HolderNext(c, s);
    assert Critical(PcOf(c, s.t)) <==> c.lock == Some(s.t);
    var d := Effect(c, s);
    assert Next(c, s).asleep == d.asleep && Next(c, s).woken == d.woken && Next(c, s).chain == d.chain;
    if s.Signal? {
      SignalWakes(c, s);
    }
  }

  /** A signal wakes threads that are asleep, so none twice. */
  lemma SignalWakes(c: Chan, s: Step)
    requires s.Signal? && LocksHold(c) && Enabled(c, s)
    ensures s.wakes !! c.woken && |c.woken + s.wakes| == |c.woken| + |s.wakes|
  {
    forall t | t in s.wakes ensures t !in c.woken {
      assert PcOf(c, t).Asleep?;
    }
  }

  lemma {:induction false} InvKept(c: Chan, s: Step)
    requires Inv(c) && Enabled(c, s)
    ensures Safe(c, s) && Inv(Next(c, s))
  {
    InvSafe(c, s);
    LocksHoldKept(c, s);
    NodesApartKept(c, s);
    ListSpelledKept(c, s);
    FifoKept(c, s);
    ReceiptsKept(c, s);
    WakeupsKeptKept(c, s);
  }

  lemma EmptyInv()
    ensures Inv(EMPTY)
  {
  }

  // ---------------------------------------------------------------- runs

  /** A run of the channel: any interleaving of the steps of any threads. */
  ghost predicate IsRun(states: seq<Chan>, steps: seq<Step>) {
    && |states| == |steps| + 1 && states[0] == EMPTY
    && forall i | 0 <= i < |steps| ::
         Enabled(states[i], steps[i]) && (Safe(states[i], steps[i]) ==> states[i + 1] == Next(states[i], steps[i]))
  }

  lemma {:induction false} RunInv(states: seq<Chan>, steps: seq<Step>, n: nat)
    requires IsRun(states, steps) && n <= |steps|
    ensures Inv(states[n])
  {
    if n == 0 {
      EmptyInv();
    } else {
      RunInv(states, steps, n - 1);
      InvKept(states[n - 1], steps[n - 1]);
    }
  }

  /** In every state of every run: no step touches a node that is not allocated; what was
      received followed by what the pointers reach is what was sent, in lock order; what `recv`
      is about to return is the message received at a place of its own; and, whenever the lock is
      free and a receiver sleeps, there are at least as many woken receivers on their way as there
      are queued messages. */
  lemma RunsAreFifoWithoutLostWakeups(states: seq<Chan>, steps: seq<Step>, n: nat)
    requires IsRun(states, steps) && n <= |steps|
    ensures var c := states[n];
            && InNodes(c.nodes, c.chain) && Spelled(c.nodes, c.head, c.tail, c.chain, Holder(c))
            && c.sent == c.received + Values(c.nodes, c.chain)
            && NodesApart(c) && Receipts(c)
            && (c.lock.None? && c.asleep != {} ==> |c.chain| <= |c.woken|)
            && forall s | Enabled(c, s) :: Safe(c, s)
  {
    RunInv(states, steps, n);
    forall s | Enabled(states[n], s) ensures Safe(states[n], s) {
      InvKept(states[n], s);
    }
  }

  /** A receive returns the value recorded for it when it took the message, however many steps of
      other threads came in between. */
  lemma FinishReturnsReceived(states: seq<Chan>, steps: seq<Step>, n: nat)
    requires IsRun(states, steps) && n < |steps| && steps[n].Finish?
    ensures var c, pc := states[n], PcOf(states[n], steps[n].t);
            && pc.Holding? && pc.node in c.nodes && pc.at < |c.received| <= |c.sent|
            && c.nodes[pc.node].value == c.received[pc.at] == c.sent[pc.at]
  {
    RunInv(states, steps, n);
    assert Took(PcOf(states[n], steps[n].t));
  }

  /** The thread is not waiting for a call, an unforced wakeup or a signal: it can go on. */
  predicate Internal(s: Step) {
    !s.Prepare? && !s.Call? && !s.Spurious?
  }

  /** When nothing can move any more, every thread is outside the channel or asleep in
      `recv`, and nobody sleeps beside a message. */
  lemma StuckMeansDrained(c: Chan)
    requires Inv(c) && forall s | Internal(s) :: !Enabled(c, s)
    ensures forall t :: PcOf(c, t).Idle? || PcOf(c, t).Asleep?
    ensures c.asleep != {} ==> c.chain == [] && c.sent == c.received
  {
    if c.lock.Some? {
      HolderMoves(c, c.lock.value);
    }
    forall t ensures PcOf(c, t).Idle? || PcOf(c, t).Asleep? {
      assert !Critical(PcOf(c, t));
      assert !Enabled(c, LockSend(t)) && !Enabled(c, LockRecv(t)) && !Enabled(c, Finish(t));
    }
    assert c.woken == {} by {
      forall t ensures t !in c.woken {
        assert !PcOf(c, t).Woken?;
      }
    }
  }

  lemma HolderMoves(c: Chan, t: Tid)
    requires Inv(c) && c.lock == Some(t)
    ensures exists s: Step :: s.t == t && Internal(s) && !s.Finish? && Enabled(c, s)
  {
    assert Critical(PcOf(c, t));
    match PcOf(c, t)
    case Linking(_) => assert Enabled(c, Link(t));
    case SettingTail(_) => assert Enabled(c, SetTail(t));
    case Signalling => assert Enabled(c, Signal(t, c.asleep));
    case UnlockingSend => assert Enabled(c, UnlockSend(t));
    case Testing => assert Enabled(c, Take(t)) || Enabled(c, Sleep(t));
    case FixingTail(_, _) => assert Enabled(c, FixTail(t));
    case UnlockingRecv(_, _) => assert Enabled(c, UnlockRecv(t));
  }
}
