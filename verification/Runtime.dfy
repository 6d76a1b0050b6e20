/** The concurrent runtime as one state machine (src/backend/runtime/nir_bridge.c): program
    threads that create, copy and drop references, send and receive them on channels, spawn
    and join threads through the slot table, and run parallel loops, all interleaved freely. */
module Runtime {
  import opened RefCounts
  import Ch = Channel

  type Option<T> = Ch.Option<T>
  type Tid = Ch.Tid

  /** Where a reference is held: by a program variable, by a queued (or travelling) message, by
      the closure or the result field of a thread slot, or by a chunk of a parallel loop. */
  datatype Ref =
    | Local(t: Tid, k: int)
    | Message(chan: int, node: Ch.NodeId)
    | Closure(slot: int)
    | Result(slot: int)
    | Chunk(parent: Tid, i: int)

  /** How far the life of a thread slot has come; a thread inside `spawn` or `join` is named. */
  datatype Phase =
    | Vacant
    | Reserved(owner: Tid) | Counted(owner: Tid) | CreateFailed(owner: Tid)
    | Running(body: Tid) | Returned(body: Tid)
    | Finished
    | Joined(owner: Tid)

  /** `NvThreadSlot`.  `gen` numbers the spawns and `joiner` is the one thread that may join. */
  datatype Slot = Slot(live: bool, closure: Option<Obj>, result: Option<Obj>,
                       phase: Phase, gen: int, joiner: Option<Tid>)

  datatype ChunkState = Owed | Started(worker: Tid)

  /** A reference counted for a chunk of the loop at `depth`, the outermost one being at 0. */
  datatype Piece = Piece(depth: nat, closure: Obj, state: ChunkState)

  /** A parallel loop whose caller runs a chunk itself, and the variable that holds its closure. */
  datatype Loop = Loop(k: int, closure: Obj)

  datatype Act =
    | Free
    | InChannel(c: int)
    | Spawning(slot: int, k: int)
    | Joining(slot: int)
    | InParallel(k: int, closure: Obj)
    | Leaving
    | Ended

  datatype Role = Program | Body(slot: int) | Worker(parent: Tid, i: int)

  /** `loops` are the parallel loops around what the thread does, innermost first; `pieces` are the
      references counted for chunks of these loops and of the one it is in, by number. */
  datatype Thread = Thread(act: Act, role: Role, loops: seq<Loop>, pieces: map<int, Piece>)

  datatype State = State(
    heap: Heap<Ref>,
    chans: map<int, Ch.Chan>,
    slots: map<int, Slot>,
    threads: map<Tid, Thread>,
    nextGen: int,
    returned: map<int, Option<Obj>>,   // by spawn: what the body returned
    joined: map<int, Option<Obj>>)     // by spawn: what `join` handed out

  // ---------------------------------------------------------------- steps

  datatype ProgramStep =
    | NewObject(t: Tid, k: int, o: Obj)
    | Copy(t: Tid, k: int, k': int)
    | Drop(t: Tid, k: int)
    | NewChannel(t: Tid, c: int)

  datatype ChannelStep =
    | Send(t: Tid, c: int, node: Ch.NodeId, k: int)
    | Receive(t: Tid, c: int)
    | Inside(t: Tid, c: int, s: Ch.Step)
    | ReceiveReturns(t: Tid, c: int, k: int)

  datatype SpawnStep =
    | Reserve(t: Tid, slot: int, k: int)
    | CountClosure(t: Tid)
    | CreateThread(t: Tid, body: Tid)
    | CreateFails(t: Tid)
    | ClearFailed(t: Tid)

  /** The end of a spawned body, and joining it. */
  datatype JoinStep =
    | BodyReturns(t: Tid, ret: Option<int>)
    | ReleaseClosure(t: Tid)
    | PassId(t: Tid, slot: int, to: Tid)
    | Join(t: Tid, slot: int)
    | JoinTakes(t: Tid, k: int)
    | JoinClears(t: Tid)

  datatype LoopStep =
    | ParallelFor(t: Tid, k: int)
    | CountChunk(t: Tid, i: int)
    | CreateWorker(t: Tid, i: int, worker: Tid)
    | WorkerFails(t: Tid, i: int)
    | WorkerEnds(t: Tid)
    | RunChunk(t: Tid)
    | ChunkReturns(t: Tid)
    | ParallelReturns(t: Tid)

  datatype Step =
    | OfProgram(p: ProgramStep)
    | OfChannel(x: ChannelStep)
    | OfSpawn(w: SpawnStep)
    | OfJoin(j: JoinStep)
    | OfLoop(l: LoopStep)

  /** The thread that takes the step. */
  function By(e: Step): Tid {
    match e
    case OfProgram(p) => p.t
    case OfChannel(x) => x.t
    case OfSpawn(w) => w.t
    case OfJoin(j) => j.t
    case OfLoop(l) => l.t
  }

  const VACANT := Slot(false, Ch.None, Ch.None, Vacant, 0, Ch.None)
  const MAX_THREADS := 64
  const MAX_CHANNELS := 64

  /** One program thread, nothing allocated, no channel, 64 free slots. */
  const START := State(Heap(map[], map[], map[]), map[],
                       map i | 0 <= i < MAX_THREADS :: VACANT,
                       map[0 := Thread(Free, Program, [], map[])], 0, map[], map[])

  function ActOf(s: State, t: Tid): Act {
    if t in s.threads then s.threads[t].act else Ended
  }

  function RoleOf(s: State, t: Tid): Role {
    if t in s.threads then s.threads[t].role else Program
  }

  function LoopsOf(s: State, t: Tid): seq<Loop> {
    if t in s.threads then s.threads[t].loops else []
  }

  function PiecesOf(s: State, t: Tid): map<int, Piece> {
    if t in s.threads then s.threads[t].pieces else map[]
  }

  /** A loop that the thread runs a chunk of works with the variable. */
  predicate Lent(loops: seq<Loop>, k: int) {
    exists j :: 0 <= j < |loops| && loops[j].k == k
  }

  function Held(s: State, r: Ref): Option<Obj> {
    if r in s.heap.holders then Ch.Some(s.heap.holders[r]) else Ch.None
  }

  function SlotOf(s: State, i: int): Slot {
    if i in s.slots then s.slots[i] else VACANT
  }

  function ChanOf(s: State, c: int): Ch.Chan {
    if c in s.chans then s.chans[c] else Ch.EMPTY
  }

  // ---------------------------------------------------------------- steps: when

  predicate ProgramEnabled(s: State, p: ProgramStep) {
    ActOf(s, p.t).Free? &&
    match p
    case NewObject(t, k, o) => Local(t, k) !in s.heap.holders && o !in s.heap.count
    case Copy(t, k, k') => Local(t, k) in s.heap.holders && Local(t, k') !in s.heap.holders
    case Drop(t, k) => Local(t, k) in s.heap.holders && !Lent(LoopsOf(s, t), k)
    case NewChannel(_, c) => 0 <= c < MAX_CHANNELS && c !in s.chans
  }

  predicate ChannelEnabled(s: State, x: ChannelStep) {
    var act := ActOf(s, x.t);
    && x.c in s.chans
    && match x
       case Send(t, c, n, k) =>
         act.Free? && Local(t, k) in s.heap.holders
             && Ch.Enabled(s.chans[c], Ch.Prepare(t, n, s.heap.holders[Local(t, k)]))
       case Receive(t, c) => act.Free? && Ch.Enabled(s.chans[c], Ch.Call(t))
       case Inside(t, c, y) =>
         act == InChannel(c) && y.t == t && !y.Prepare? && !y.Call? && !y.Finish? && Ch.Enabled(s.chans[c], y)
       case ReceiveReturns(t, c, k) =>
         act == InChannel(c) && Local(t, k) !in s.heap.holders && Ch.Enabled(s.chans[c], Ch.Finish(t))
  }

  predicate SpawnEnabled(s: State, w: SpawnStep) {
    var act := ActOf(s, w.t);
    match w
    case Reserve(t, i, k) => act.Free? && i in s.slots && !s.slots[i].live && Local(t, k) in s.heap.holders
    case CountClosure(t) => act.Spawning? && SlotOf(s, act.slot).phase == Reserved(t)
    case CreateThread(t, b) => act.Spawning? && SlotOf(s, act.slot).phase == Counted(t) && b !in s.threads
    case CreateFails(t) => act.Spawning? && SlotOf(s, act.slot).phase == Counted(t)
    case ClearFailed(t) => act.Spawning? && SlotOf(s, act.slot).phase == CreateFailed(t)
  }

  predicate JoinEnabled(s: State, j: JoinStep) {
    var act := ActOf(s, j.t);
    match j
    case BodyReturns(t, ret) =>
      act.Free? && LoopsOf(s, t) == [] && RoleOf(s, t).Body? && (ret.Some? ==> Local(t, ret.value) in s.heap.holders)
    case ReleaseClosure(t) => act.Leaving? && RoleOf(s, t).Body?
    case PassId(t, i, to) => act.Free? && i in s.slots && s.slots[i].joiner == Ch.Some(t) && to in s.threads
    case Join(t, i) => act.Free? && i in s.slots && s.slots[i].live && s.slots[i].joiner == Ch.Some(t)
    case JoinTakes(t, k) => act.Joining? && SlotOf(s, act.slot).phase.Finished? && Local(t, k) !in s.heap.holders
    case JoinClears(t) => act.Joining? && SlotOf(s, act.slot).phase == Joined(t)
  }

  predicate LoopEnabled(s: State, l: LoopStep) {
    var act := ActOf(s, l.t);
    match l
    case ParallelFor(t, k) => act.Free? && Local(t, k) in s.heap.holders
    case CountChunk(t, i) => act.InParallel? && i !in PiecesOf(s, t)
    case CreateWorker(t, i, w) => act.InParallel? && OwedHere(s, t, i) && w !in s.threads
    case WorkerFails(t, i) => act.InParallel? && OwedHere(s, t, i)
    case WorkerEnds(t) => act.Free? && LoopsOf(s, t) == [] && RoleOf(s, t).Worker?
    case RunChunk(t) => act.InParallel?
    case ChunkReturns(t) => act.Free? && LoopsOf(s, t) != []
    case ParallelReturns(t) => act.InParallel? && NoneAt(PiecesOf(s, t), |LoopsOf(s, t)|)
  }

  predicate OwedHere(s: State, t: Tid, i: int) {
    i in PiecesOf(s, t) && PiecesOf(s, t)[i].state.Owed? && PiecesOf(s, t)[i].depth == |LoopsOf(s, t)|
  }

  predicate NoneAt(pieces: map<int, Piece>, depth: nat) {
    forall i | i in pieces :: pieces[i].depth != depth
  }

  /** A thread may take the step: it is at that statement and, for the program's own steps,
      it works on references it holds. */
  predicate Enabled(s: State, e: Step) {
    match e
    case OfProgram(p) => ProgramEnabled(s, p)
    case OfChannel(x) => ChannelEnabled(s, x)
    case OfSpawn(w) => SpawnEnabled(s, w)
    case OfJoin(j) => JoinEnabled(s, j)
    case OfLoop(l) => LoopEnabled(s, l)
  }

  // ---------------------------------------------------------------- steps: references

  datatype HeapOp =
    | Keep
    | Creates(r: Ref, o: Obj)
    | Incs(r: Ref, o: Obj, lender: Ref)
    | Decs(r: Ref)
    | Moves(r: Ref, to: Ref)

  function ProgramOp(s: State, p: ProgramStep): HeapOp
    requires ProgramEnabled(s, p)
  {
    match p
    case NewObject(t, k, o) => Creates(Local(t, k), o)
    case Copy(t, k, k') => Incs(Local(t, k'), s.heap.holders[Local(t, k)], Local(t, k))
    case Drop(t, k) => Decs(Local(t, k))
    case NewChannel(_, _) => Keep
  }

  function ChannelOp(s: State, x: ChannelStep): HeapOp
    requires ChannelEnabled(s, x)
  {
    match x
    case Send(t, c, n, k) => Incs(Message(c, n), s.heap.holders[Local(t, k)], Local(t, k))
    case ReceiveReturns(t, c, k) => Moves(Message(c, Ch.PcOf(s.chans[c], t).node), Local(t, k))
    case _ => Keep
  }

  function SpawnOp(s: State, w: SpawnStep): HeapOp
    requires SpawnEnabled(s, w)
  {
    var act := ActOf(s, w.t);
    match w
    case CountClosure(t) =>
      (match SlotOf(s, act.slot).closure
       case Some(o) => Incs(Closure(act.slot), o, Local(t, act.k))
       case None => Keep)
    case CreateFails(_) => Decs(Closure(act.slot))
    case _ => Keep
  }

  function JoinOp(s: State, j: JoinStep): HeapOp
    requires JoinEnabled(s, j)
  {
    var act := ActOf(s, j.t);
    match j
    case BodyReturns(t, ret) => if ret.Some? then Moves(Local(t, ret.value), Result(RoleOf(s, t).slot)) else Keep
    case ReleaseClosure(t) => Decs(Closure(RoleOf(s, t).slot))
    case JoinTakes(t, k) =>
      if SlotOf(s, act.slot).result.Some? then Moves(Result(act.slot), Local(t, k)) else Keep
    case _ => Keep
  }

  function LoopOp(s: State, l: LoopStep): HeapOp
    requires LoopEnabled(s, l)
  {
    var act := ActOf(s, l.t);
    match l
    case CountChunk(t, i) => Incs(Chunk(t, i), act.closure, Local(t, act.k))
    case WorkerFails(t, i) => Decs(Chunk(t, i))
    case WorkerEnds(t) => Decs(Chunk(RoleOf(s, t).parent, RoleOf(s, t).i))
    case _ => Keep
  }

  /** The operation on reference counts that is part of the step. */
  function OpOf(s: State, e: Step): HeapOp
    requires Enabled(s, e)
  {
    match e
    case OfProgram(p) => ProgramOp(s, p)
    case OfChannel(x) => ChannelOp(s, x)
    case OfSpawn(w) => SpawnOp(s, w)
    case OfJoin(j) => JoinOp(s, j)
    case OfLoop(l) => LoopOp(s, l)
  }

  /** The operation works on references that are there, so on objects that are live. */
  predicate OpSafe(g: Heap<Ref>, op: HeapOp) {
    match op
    case Keep => true
    case Creates(r, o) => r !in g.holders && o !in g.count
    case Incs(r, o, lender) => r !in g.holders && lender in g.holders && g.holders[lender] == o && o in g.count
    case Decs(r) => r in g.holders && g.holders[r] in g.count && g.holders[r] in g.frees
    case Moves(r, to) => r in g.holders && to !in g.holders
  }

  function Operate(g: Heap<Ref>, op: HeapOp): Heap<Ref>
    requires OpSafe(g, op)
  {
    match op
    case Keep => g
    case Creates(r, o) => Create(g, r, o)
    case Incs(r, o, _) => Inc(g, r, o)
    case Decs(r) => Dec(g, r)
    case Moves(r, to) => Move(g, r, to)
  }

  // ---------------------------------------------------------------- steps: everything else

  /** What a step does to threads and slots: new places in the program, new threads, new slot
      contents, and changes to the loops around a thread and to the pieces of its loops. */
  datatype Change = Change(acts: map<Tid, Act>, born: map<Tid, Role>, slots: map<int, Slot>,
                           loops: map<Tid, seq<Loop>>, pieces: map<Tid, map<int, Piece>>)

  const NO_CHANGE := Change(map[], map[], map[], map[], map[])

  function JustAct(t: Tid, act: Act): Change {
    NO_CHANGE.(acts := map[t := act])
  }

  function JustSlot(i: int, slot: Slot): Change {
    NO_CHANGE.(slots := map[i := slot])
  }

  function JustPieces(t: Tid, pieces: map<int, Piece>): Change {
    NO_CHANGE.(pieces := map[t := pieces])
  }

  function ChannelChange(s: State, x: ChannelStep): Change
    requires ChannelEnabled(s, x)
  {
    match x
    case Send(t, c, _, _) => JustAct(t, InChannel(c))
    case Receive(t, c) => JustAct(t, InChannel(c))
    case Inside(t, _, y) => if y.UnlockSend? then JustAct(t, Free) else NO_CHANGE
    case ReceiveReturns(t, _, _) => JustAct(t, Free)
  }

  function SpawnChange(s: State, w: SpawnStep): Change
    requires SpawnEnabled(s, w)
  {
    var act := ActOf(s, w.t);
    match w
    case Reserve(t, i, k) =>
      var slot := Slot(true, Ch.Some(s.heap.holders[Local(t, k)]), Ch.None, Reserved(t), s.nextGen, Ch.None);
      JustSlot(i, slot).(acts := map[t := Spawning(i, k)])
    case CountClosure(t) => JustSlot(act.slot, SlotOf(s, act.slot).(phase := Counted(t)))
    case CreateThread(t, b) =>
      JustSlot(act.slot, SlotOf(s, act.slot).(phase := Running(b), joiner := Ch.Some(t)))
        .(acts := map[t := Free, b := Free], born := map[b := Body(act.slot)])
    case CreateFails(t) => JustSlot(act.slot, SlotOf(s, act.slot).(phase := CreateFailed(t)))
    case ClearFailed(t) =>
      JustSlot(act.slot, SlotOf(s, act.slot).(closure := Ch.None, live := false, phase := Vacant))
        .(acts := map[t := Free])
  }

  function JoinChange(s: State, j: JoinStep): Change
    requires JoinEnabled(s, j)
  {
    var act := ActOf(s, j.t);
    match j
    case BodyReturns(t, ret) =>
      var i := RoleOf(s, t).slot;
      JustSlot(i, SlotOf(s, i).(result := ReturnedBy(s, t, ret), phase := Returned(t))).(acts := map[t := Leaving])
    case ReleaseClosure(t) =>
      var i := RoleOf(s, t).slot;
      JustSlot(i, SlotOf(s, i).(closure := Ch.None, phase := Finished)).(acts := map[t := Ended])
    case PassId(_, i, to) => JustSlot(i, SlotOf(s, i).(joiner := Ch.Some(to)))
    case Join(t, i) => JustAct(t, Joining(i))
    case JoinTakes(t, _) => JustSlot(act.slot, SlotOf(s, act.slot).(result := Ch.None, phase := Joined(t)))
    case JoinClears(t) =>
      JustSlot(act.slot, SlotOf(s, act.slot).(live := false, phase := Vacant, joiner := Ch.None))
        .(acts := map[t := Free])
  }

  function ReturnedBy(s: State, t: Tid, ret: Option<int>): Option<Obj> {
    if ret.Some? then Held(s, Local(t, ret.value)) else Ch.None
  }

  function LoopChange(s: State, l: LoopStep): Change
    requires LoopEnabled(s, l)
  {
    var act := ActOf(s, l.t);
    match l
    case ParallelFor(t, k) => JustAct(t, InParallel(k, s.heap.holders[Local(t, k)]))
    case CountChunk(t, i) => JustPieces(t, PiecesOf(s, t)[i := Piece(|LoopsOf(s, t)|, act.closure, Owed)])
    case CreateWorker(t, i, w) =>
      JustPieces(t, PiecesOf(s, t)[i := PiecesOf(s, t)[i].(state := Started(w))])
        .(acts := map[w := Free], born := map[w := Worker(t, i)])
    case WorkerFails(t, i) => JustPieces(t, PiecesOf(s, t) - {i})
    case WorkerEnds(t) =>
      var p := RoleOf(s, t).parent;
      JustPieces(p, PiecesOf(s, p) - {RoleOf(s, t).i}).(acts := map[t := Ended])
    case RunChunk(t) => JustAct(t, Free).(loops := map[t := [Loop(act.k, act.closure)] + LoopsOf(s, t)])
    case ChunkReturns(t) =>
      var loops := LoopsOf(s, t);
      JustAct(t, InParallel(loops[0].k, loops[0].closure)).(loops := map[t := loops[1..]])
    case ParallelReturns(t) => JustAct(t, Free)
  }

  function ChangeOf(s: State, e: Step): Change
    requires Enabled(s, e)
  {
    match e
    case OfProgram(_) => NO_CHANGE
    case OfChannel(x) => ChannelChange(s, x)
    case OfSpawn(w) => SpawnChange(s, w)
    case OfJoin(j) => JoinChange(s, j)
    case OfLoop(l) => LoopChange(s, l)
  }

  /** The step of the channel inside the step. */
  function Wire(s: State, x: ChannelStep): Ch.Step
    requires ChannelEnabled(s, x)
  {
    match x
    case Send(t, _, n, k) => Ch.Prepare(t, n, s.heap.holders[Local(t, k)])
    case Receive(t, _) => Ch.Call(t)
    case Inside(_, _, y) => y
    case ReceiveReturns(t, _, _) => Ch.Finish(t)
  }

  predicate Safe(s: State, e: Step)
    requires Enabled(s, e)
  {
    OpSafe(s.heap, OpOf(s, e)) && (e.OfChannel? ==> Ch.Safe(s.chans[e.x.c], Wire(s, e.x)))
  }

  function ActAfter(s: State, c: Change, t: Tid): Act {
    if t in c.acts then c.acts[t] else ActOf(s, t)
  }

  function RoleAfter(s: State, c: Change, t: Tid): Role {
    if t in c.born then c.born[t] else RoleOf(s, t)
  }

  function LoopsAfter(s: State, c: Change, t: Tid): seq<Loop> {
    if t in c.loops then c.loops[t] else LoopsOf(s, t)
  }

  function PiecesAfter(s: State, c: Change, t: Tid): map<int, Piece> {
    if t in c.pieces then c.pieces[t] else PiecesOf(s, t)
  }

  function ThreadAfter(s: State, c: Change, t: Tid): Thread {
    Thread(ActAfter(s, c, t), RoleAfter(s, c, t), LoopsAfter(s, c, t), PiecesAfter(s, c, t))
  }

  function SlotAfter(s: State, c: Change, i: int): Slot {
    if i in c.slots then c.slots[i] else SlotOf(s, i)
  }

  function ChansAfter(s: State, e: Step): map<int, Ch.Chan>
    requires Enabled(s, e) && Safe(s, e)
  {
    if e.OfChannel? then s.chans[e.x.c := Ch.Next(s.chans[e.x.c], Wire(s, e.x))]
    else if e.OfProgram? && e.p.NewChannel? then s.chans[e.p.c := Ch.EMPTY]
    else s.chans
  }

  function NextGenAfter(s: State, e: Step): int {
    if e.OfSpawn? && e.w.Reserve? then s.nextGen + 1 else s.nextGen
  }

  function JoinedAfter(s: State, e: Step): map<int, Option<Obj>>
    requires Enabled(s, e)
  {
    if e.OfJoin? && e.j.JoinTakes? then
      var slot := SlotOf(s, ActOf(s, e.j.t).slot);
      s.joined[slot.gen := slot.result]
    else s.joined
  }

  function ReturnedAfter(s: State, e: Step): map<int, Option<Obj>>
    requires Enabled(s, e)
  {
    if e.OfJoin? && e.j.BodyReturns? then
      s.returned[SlotOf(s, RoleOf(s, e.j.t).slot).gen := ReturnedBy(s, e.j.t, e.j.ret)]
    else s.returned
  }

  function Next(s: State, e: Step): State
    requires Enabled(s, e) && Safe(s, e)
  {
    var c := ChangeOf(s, e);
    State(Operate(s.heap, OpOf(s, e)),
          ChansAfter(s, e),
          s.slots + c.slots,
          map t | t in s.threads.Keys + c.acts.Keys + c.loops.Keys + c.pieces.Keys :: ThreadAfter(s, c, t),
          NextGenAfter(s, e),
          ReturnedAfter(s, e),
          JoinedAfter(s, e))
  }

  // ---------------------------------------------------------------- the invariant

  function SlotIn(r: Ref): int {
    if r.Closure? || r.Result? then r.slot else 0
  }

  function ChanIn(r: Ref): int {
    if r.Message? then r.chan else 0
  }

  function ThreadIn(r: Ref): Tid {
    if r.Chunk? then r.parent else 0
  }

  /** The reference that a slot, the nodes of a channel or the pieces of a thread's parallel loops
      have at `r`; a variable has what it has. */
  function Due(r: Ref, held: Option<Obj>, slot: Slot, nodes: map<Ch.NodeId, Ch.Msg>,
               pieces: map<int, Piece>): Option<Obj> {
    match r
    case Local(_, _) => held
    case Message(_, n) => if n in nodes then Ch.Some(nodes[n].value) else Ch.None
    case Closure(_) =>
      if slot.phase.Counted? || slot.phase.Running? || slot.phase.Returned? then slot.closure else Ch.None
    case Result(_) => if slot.phase.Returned? || slot.phase.Finished? then slot.result else Ch.None
    case Chunk(_, i) => if i in pieces then Ch.Some(pieces[i].closure) else Ch.None
  }

  function Expected(s: State, r: Ref): Option<Obj> {
    Due(r, Held(s, r), SlotOf(s, SlotIn(r)), ChanOf(s, ChanIn(r)).nodes, PiecesOf(s, ThreadIn(r)))
  }

  /** Every reference belongs to a variable, a message, a slot or a chunk, and each of those
      has the one it should have. */
  ghost predicate Accounted(s: State) {
    forall r :: Held(s, r) == Expected(s, r)
  }

  ghost predicate ChannelsHold(s: State) {
    forall c | c in s.chans :: Ch.Inv(s.chans[c])
  }

  /** The thread that a slot's phase names. */
  function Named(p: Phase): Tid {
    match p
    case Reserved(t) => t
    case Counted(t) => t
    case CreateFailed(t) => t
    case Running(t) => t
    case Returned(t) => t
    case Joined(t) => t
    case _ => 0
  }

  /** What the fields of slot `i` hold at each point of its life, given where the thread that
      its phase names is. */
  predicate SlotFits(i: int, slot: Slot, act: Act, role: Role, returned: map<int, Option<Obj>>) {
    match slot.phase
    case Vacant => !slot.live && slot.closure.None? && slot.result.None? && slot.joiner.None?
    case Finished =>
      && slot.live && slot.closure.None? && slot.joiner.Some?
      && slot.gen in returned && returned[slot.gen] == slot.result
    case Joined(t) =>
      slot.live && slot.closure.None? && slot.result.None? && slot.joiner == Ch.Some(t) && act == Joining(i)
    case Running(_) =>
      && slot.live && slot.closure.Some? && slot.result.None? && slot.joiner.Some?
      && role == Body(i) && !act.Ended? && !act.Leaving?
    case Returned(_) =>
      && slot.live && slot.closure.Some? && slot.joiner.Some? && role == Body(i) && act.Leaving?
      && slot.gen in returned && returned[slot.gen] == slot.result
    case _ =>
      && slot.live && slot.closure.Some? && slot.result.None? && slot.joiner.None?
      && act.Spawning? && act.slot == i
  }

  /** What a thread inside `spawn`, `join` or a parallel loop may rely on: `slot` is the slot
      it works on and `held` the reference it works with. */
  predicate ActFits(t: Tid, act: Act, slot: Slot, held: Option<Obj>) {
    match act
    case Spawning(_, _) => slot.phase in {Reserved(t), Counted(t), CreateFailed(t)} && held == slot.closure
    case Joining(_) =>
      && slot.joiner == Ch.Some(t)
      && (slot.phase.Running? || slot.phase.Returned? || slot.phase.Finished? || slot.phase == Joined(t))
    case InParallel(_, o) => held == Ch.Some(o)
    case _ => true
  }

  /** A thread that was started for a slot or a chunk, and has not ended, is known there. */
  predicate RoleFits(t: Tid, act: Act, role: Role, slot: Slot, pieces: map<int, Piece>) {
    act.Ended? ||
    match role
    case Body(_) => slot.phase == if act.Leaving? then Returned(t) else Running(t)
    case Worker(_, i) => !act.Leaving? && i in pieces && pieces[i].state == Started(t)
    case Program => !act.Leaving?
  }

  function WorkedOn(act: Act): int {
    if act.Spawning? || act.Joining? then act.slot else 0
  }

  function WorkedWith(act: Act): int {
    if act.Spawning? || act.InParallel? then act.k else 0
  }

  function StartedFor(role: Role): int {
    if role.Body? then role.slot else 0
  }

  function StartedBy(role: Role): Tid {
    if role.Worker? then role.parent else 0
  }

  ghost predicate SlotHolds(s: State, i: int) {
    var slot := SlotOf(s, i);
    SlotFits(i, slot, ActOf(s, Named(slot.phase)), RoleOf(s, Named(slot.phase)), s.returned)
  }

  ghost predicate ThreadHolds(s: State, t: Tid) {
    var act, role := ActOf(s, t), RoleOf(s, t);
    && ActFits(t, act, SlotOf(s, WorkedOn(act)), Held(s, Local(t, WorkedWith(act))))
    && RoleFits(t, act, role, SlotOf(s, StartedFor(role)), PiecesOf(s, StartedBy(role)))
  }

  /** How many parallel loops the thread is in. */
  function Depth(act: Act, loops: seq<Loop>): nat {
    |loops| + if act.InParallel? then 1 else 0
  }

  /** The pieces belong to loops that the thread is in. */
  predicate PiecesFit(act: Act, loops: seq<Loop>, pieces: map<int, Piece>) {
    forall i | i in pieces :: pieces[i].depth < Depth(act, loops)
  }

  /** The closures of the loops around a thread are held by the variables they were called with. */
  ghost predicate LoopHolds(s: State, t: Tid, l: Loop) {
    l in LoopsOf(s, t) ==> Held(s, Local(t, l.k)) == Ch.Some(l.closure)
  }

  ghost predicate ControlFits(s: State) {
    && (forall i :: SlotHolds(s, i)) && (forall t :: ThreadHolds(s, t))
    && (forall t, l :: LoopHolds(s, t, l))
    && (forall t :: PiecesFit(ActOf(s, t), LoopsOf(s, t), PiecesOf(s, t)))
  }

  predicate BeforeReturn(p: Phase) {
    p.Reserved? || p.Counted? || p.CreateFailed? || p.Running?
  }

  /** A spawn's number is an old one, its body returns once and its result is handed out once. */
  predicate GenFits(slot: Slot, nextGen: int, returned: map<int, Option<Obj>>, joined: map<int, Option<Obj>>) {
    !slot.phase.Vacant? ==>
      && slot.gen < nextGen
      && (!slot.phase.Joined? ==> slot.gen !in joined)
      && (BeforeReturn(slot.phase) ==> slot.gen !in returned)
  }

  /** Different spawns have different numbers. */
  predicate GensApart(i: int, a: Slot, j: int, b: Slot) {
    i != j && !a.phase.Vacant? && !b.phase.Vacant? ==> a.gen != b.gen
  }

  /** What `join` handed out for a spawn is what the body of that spawn returned. */
  ghost predicate ResultsMatch(nextGen: int, returned: map<int, Option<Obj>>, joined: map<int, Option<Obj>>) {
    && (forall g | g in returned :: g < nextGen)
    && (forall g | g in joined :: g in returned && joined[g] == returned[g])
  }

  ghost predicate HistoryFits(s: State) {
    && (forall i :: GenFits(SlotOf(s, i), s.nextGen, s.returned, s.joined))
    && (forall i, j :: GensApart(i, SlotOf(s, i), j, SlotOf(s, j)))
    && ResultsMatch(s.nextGen, s.returned, s.joined)
  }

  ghost predicate Inv(s: State) {
    Conserved(s.heap) && Accounted(s) && ChannelsHold(s) && ControlFits(s) && HistoryFits(s)
  }

  // ---------------------------------------------------------------- what the next state shows

  lemma BornAct(s: State, e: Step)
    requires Enabled(s, e)
    ensures ChangeOf(s, e).born.Keys <= ChangeOf(s, e).acts.Keys
  {
  }

  lemma ThreadsNext(threads: map<Tid, Thread>, s: State, c: Change, t: Tid)
    requires c.born.Keys <= c.acts.Keys
    requires threads == map u | u in s.threads.Keys + c.acts.Keys + c.loops.Keys + c.pieces.Keys :: ThreadAfter(s, c, u)
    ensures t in threads ==> threads[t] == ThreadAfter(s, c, t)
    ensures t !in threads ==> ThreadAfter(s, c, t) == Thread(Ended, Program, [], map[])
  {
  }

  lemma NextThread(s: State, e: Step, t: Tid)
    requires Enabled(s, e) && Safe(s, e)
    ensures ActOf(Next(s, e), t) == ActAfter(s, ChangeOf(s, e), t)
    ensures RoleOf(Next(s, e), t) == RoleAfter(s, ChangeOf(s, e), t)
    ensures LoopsOf(Next(s, e), t) == LoopsAfter(s, ChangeOf(s, e), t)
    ensures PiecesOf(Next(s, e), t) == PiecesAfter(s, ChangeOf(s, e), t)
  {
    BornAct(s, e);
    ThreadsNext(Next(s, e).threads, s, ChangeOf(s, e), t);
  }

  lemma NextSlot(s: State, e: Step, i: int)
    requires Enabled(s, e) && Safe(s, e)
    ensures SlotOf(Next(s, e), i) == SlotAfter(s, ChangeOf(s, e), i)
  {
  }

  function NodesAfter(s: State, e: Step, c: int): map<Ch.NodeId, Ch.Msg>
    requires Enabled(s, e) && Safe(s, e)
  {
    var chans := ChansAfter(s, e);
    if c in chans then chans[c].nodes else map[]
  }

  lemma NextChan(s: State, e: Step, c: int)
    requires Enabled(s, e) && Safe(s, e)
    ensures ChanOf(Next(s, e), c).nodes == NodesAfter(s, e, c)
    ensures !e.OfChannel? ==> NodesAfter(s, e, c) == ChanOf(s, c).nodes
  {
  }

  /** Who holds what after an operation on the counts. */
  function HeldAfter(s: State, op: HeapOp, r: Ref): Option<Obj> {
    match op
    case Keep => Held(s, r)
    case Creates(x, o) => if r == x then Ch.Some(o) else Held(s, r)
    case Incs(x, o, _) => if r == x then Ch.Some(o) else Held(s, r)
    case Decs(x) => if r == x then Ch.None else Held(s, r)
    case Moves(x, y) => if r == y then Held(s, x) else if r == x then Ch.None else Held(s, r)
  }

  lemma NextHeld(s: State, op: HeapOp, r: Ref)
    requires OpSafe(s.heap, op)
    ensures Held(s.(heap := Operate(s.heap, op)), r) == HeldAfter(s, op, r)
  {
  }

  // ---------------------------------------------------------------- where slots and threads are

  /** The slot that a step of a spawn is about. */
  function SpawnTarget(s: State, w: SpawnStep): int {
    if w.Reserve? then w.slot else WorkedOn(ActOf(s, w.t))
  }

  function JoinTarget(s: State, j: JoinStep): int {
    match j
    case PassId(_, i, _) => i
    case Join(_, i) => i
    case BodyReturns(t, _) => StartedFor(RoleOf(s, t))
    case ReleaseClosure(t) => StartedFor(RoleOf(s, t))
    case _ => WorkedOn(ActOf(s, j.t))
  }

  function Target(s: State, e: Step): int {
    if e.OfSpawn? then SpawnTarget(s, e.w) else if e.OfJoin? then JoinTarget(s, e.j) else 0
  }

  ghost predicate SlotFitsAfter(s: State, c: Change, returned: map<int, Option<Obj>>, i: int) {
    var slot := SlotAfter(s, c, i);
    SlotFits(i, slot, ActAfter(s, c, Named(slot.phase)), RoleAfter(s, c, Named(slot.phase)), returned)
  }

  ghost predicate ActFitsAfter(s: State, c: Change, op: HeapOp, t: Tid) {
    var act := ActAfter(s, c, t);
    ActFits(t, act, SlotAfter(s, c, WorkedOn(act)), HeldAfter(s, op, Local(t, WorkedWith(act))))
  }

  ghost predicate RoleFitsAfter(s: State, c: Change, t: Tid) {
    var role := RoleAfter(s, c, t);
    RoleFits(t, ActAfter(s, c, t), role, SlotAfter(s, c, StartedFor(role)), PiecesAfter(s, c, StartedBy(role)))
  }

  ghost predicate DueAfter(s: State, c: Change, op: HeapOp, nodes: map<Ch.NodeId, Ch.Msg>, r: Ref) {
    var held := HeldAfter(s, op, r);
    held == Due(r, held, SlotAfter(s, c, SlotIn(r)), nodes, PiecesAfter(s, c, ThreadIn(r)))
  }

  ghost predicate LoopHoldsAfter(s: State, c: Change, op: HeapOp, t: Tid, l: Loop) {
    l in LoopsAfter(s, c, t) ==> HeldAfter(s, op, Local(t, l.k)) == Ch.Some(l.closure)
  }

  lemma SlotChannel(s: State, x: ChannelStep, i: int)
    requires SlotHolds(s, i) && ThreadHolds(s, x.t) && ChannelEnabled(s, x)
    ensures SlotFitsAfter(s, ChannelChange(s, x), s.returned, i)
  {
  }

  lemma ActChannel(s: State, x: ChannelStep, t: Tid)
    requires ThreadHolds(s, t) && ThreadHolds(s, x.t) && ChannelEnabled(s, x)
    ensures ActFitsAfter(s, ChannelChange(s, x), ChannelOp(s, x), t)
  {
  }

  lemma RoleChannel(s: State, x: ChannelStep, t: Tid)
    requires ThreadHolds(s, t) && ThreadHolds(s, x.t) && ChannelEnabled(s, x)
    ensures RoleFitsAfter(s, ChannelChange(s, x), t)
  {
  }

  lemma DueChannel(s: State, x: ChannelStep, r: Ref)
    requires Held(s, r) == Expected(s, r) && ThreadHolds(s, x.t) && ChannelEnabled(s, x) && Safe(s, OfChannel(x))
    ensures DueAfter(s, ChannelChange(s, x), ChannelOp(s, x), NodesAfter(s, OfChannel(x), ChanIn(r)), r)
  {
    Ch.NextNodes(s.chans[x.c], Wire(s, x));
  }

  lemma LoopsChannel(s: State, x: ChannelStep, t: Tid, a: Loop)
    requires LoopHolds(s, t, a) && ChannelEnabled(s, x)
    ensures LoopHoldsAfter(s, ChannelChange(s, x), ChannelOp(s, x), t, a)
  {
  }

  lemma SlotSpawn(s: State, w: SpawnStep, i: int)
    requires GensApart(i, SlotOf(s, i), SpawnTarget(s, w), SlotOf(s, SpawnTarget(s, w)))
    requires SlotHolds(s, i) && ThreadHolds(s, w.t) && SpawnEnabled(s, w)
    ensures SlotFitsAfter(s, SpawnChange(s, w), s.returned, i)
  {
  }

  lemma ActSpawn(s: State, w: SpawnStep, t: Tid)
    requires ThreadHolds(s, t) && ThreadHolds(s, w.t) && SlotHolds(s, SpawnTarget(s, w)) && SpawnEnabled(s, w)
    ensures ActFitsAfter(s, SpawnChange(s, w), SpawnOp(s, w), t)
  {
  }

  lemma RoleSpawn(s: State, w: SpawnStep, t: Tid)
    requires ThreadHolds(s, t) && ThreadHolds(s, w.t) && SlotHolds(s, SpawnTarget(s, w)) && SpawnEnabled(s, w)
    ensures RoleFitsAfter(s, SpawnChange(s, w), t)
  {
  }

  lemma DueSpawn(s: State, w: SpawnStep, r: Ref)
    requires Held(s, r) == Expected(s, r) && ThreadHolds(s, w.t) && SlotHolds(s, SpawnTarget(s, w))
        && SpawnEnabled(s, w)
    ensures DueAfter(s, SpawnChange(s, w), SpawnOp(s, w), ChanOf(s, ChanIn(r)).nodes, r)
  {
  }

  lemma LoopsSpawn(s: State, w: SpawnStep, t: Tid, a: Loop)
    requires LoopHolds(s, t, a) && SpawnEnabled(s, w)
    ensures LoopHoldsAfter(s, SpawnChange(s, w), SpawnOp(s, w), t, a)
  {
  }

  lemma GenSpawn(s: State, w: SpawnStep, i: int)
    requires ResultsMatch(s.nextGen, s.returned, s.joined) && GenFits(SlotOf(s, i), s.nextGen, s.returned, s.joined)
    requires GensApart(i, SlotOf(s, i), SpawnTarget(s, w), SlotOf(s, SpawnTarget(s, w)))
    requires ThreadHolds(s, w.t) && SlotHolds(s, SpawnTarget(s, w)) && SpawnEnabled(s, w)
    ensures GenFits(SlotAfter(s, SpawnChange(s, w), i), NextGenAfter(s, OfSpawn(w)), ReturnedAfter(s, OfSpawn(w)),
        JoinedAfter(s, OfSpawn(w)))
  {
  }

  lemma GensApartSpawn(s: State, w: SpawnStep, i: int, k: int)
    requires GenFits(SlotOf(s, i), s.nextGen, s.returned, s.joined)
    requires GenFits(SlotOf(s, k), s.nextGen, s.returned, s.joined)
    requires GensApart(i, SlotOf(s, i), k, SlotOf(s, k))
    requires ThreadHolds(s, w.t) && SlotHolds(s, SpawnTarget(s, w)) && SpawnEnabled(s, w)
    ensures GensApart(i, SlotAfter(s, SpawnChange(s, w), i), k, SlotAfter(s, SpawnChange(s, w), k))
  {
  }

  lemma SlotJoin(s: State, j: JoinStep, i: int)
    requires GensApart(i, SlotOf(s, i), JoinTarget(s, j), SlotOf(s, JoinTarget(s, j)))
    requires SlotHolds(s, i) && ThreadHolds(s, j.t) && JoinEnabled(s, j)
    ensures SlotFitsAfter(s, JoinChange(s, j), ReturnedAfter(s, OfJoin(j)), i)
  {
  }

  lemma ActJoin(s: State, j: JoinStep, t: Tid)
    requires ThreadHolds(s, t) && ThreadHolds(s, j.t) && SlotHolds(s, JoinTarget(s, j)) && JoinEnabled(s, j)
    ensures ActFitsAfter(s, JoinChange(s, j), JoinOp(s, j), t)
  {
  }

  lemma RoleJoin(s: State, j: JoinStep, t: Tid)
    requires ThreadHolds(s, t) && ThreadHolds(s, j.t) && SlotHolds(s, JoinTarget(s, j)) && JoinEnabled(s, j)
    ensures RoleFitsAfter(s, JoinChange(s, j), t)
  {
  }

  lemma DueJoin(s: State, j: JoinStep, r: Ref)
    requires Held(s, r) == Expected(s, r) && ThreadHolds(s, j.t) && SlotHolds(s, JoinTarget(s, j)) && JoinEnabled(s, j)
    ensures DueAfter(s, JoinChange(s, j), JoinOp(s, j), ChanOf(s, ChanIn(r)).nodes, r)
  {
  }

  lemma LoopsJoin(s: State, j: JoinStep, t: Tid, a: Loop)
    requires LoopHolds(s, t, a) && JoinEnabled(s, j)
    ensures LoopHoldsAfter(s, JoinChange(s, j), JoinOp(s, j), t, a)
  {
  }

  lemma GenJoin(s: State, j: JoinStep, i: int)
    requires ResultsMatch(s.nextGen, s.returned, s.joined) && GenFits(SlotOf(s, i), s.nextGen, s.returned, s.joined)
    requires GensApart(i, SlotOf(s, i), JoinTarget(s, j), SlotOf(s, JoinTarget(s, j)))
    requires ThreadHolds(s, j.t) && SlotHolds(s, JoinTarget(s, j)) && JoinEnabled(s, j)
    ensures GenFits(SlotAfter(s, JoinChange(s, j), i), NextGenAfter(s, OfJoin(j)), ReturnedAfter(s, OfJoin(j)),
        JoinedAfter(s, OfJoin(j)))
  {
  }

  lemma GensApartJoin(s: State, j: JoinStep, i: int, k: int)
    requires GenFits(SlotOf(s, i), s.nextGen, s.returned, s.joined)
    requires GenFits(SlotOf(s, k), s.nextGen, s.returned, s.joined)
    requires GensApart(i, SlotOf(s, i), k, SlotOf(s, k))
    requires ThreadHolds(s, j.t) && SlotHolds(s, JoinTarget(s, j)) && JoinEnabled(s, j)
    ensures GensApart(i, SlotAfter(s, JoinChange(s, j), i), k, SlotAfter(s, JoinChange(s, j), k))
  {
  }

  lemma SlotLoop(s: State, l: LoopStep, i: int)
    requires SlotHolds(s, i) && ThreadHolds(s, l.t) && LoopEnabled(s, l)
    ensures SlotFitsAfter(s, LoopChange(s, l), s.returned, i)
  {
  }

  lemma ActLoop(s: State, l: LoopStep, t: Tid)
    requires LoopsOf(s, l.t) != [] ==> LoopHolds(s, l.t, LoopsOf(s, l.t)[0])
    requires ThreadHolds(s, t) && ThreadHolds(s, l.t) && LoopEnabled(s, l)
    ensures ActFitsAfter(s, LoopChange(s, l), LoopOp(s, l), t)
  {
  }

  lemma RoleLoop(s: State, l: LoopStep, t: Tid)
    requires ThreadHolds(s, t) && ThreadHolds(s, l.t) && LoopEnabled(s, l)
    ensures RoleFitsAfter(s, LoopChange(s, l), t)
  {
  }

  lemma DueLoop(s: State, l: LoopStep, r: Ref)
    requires Held(s, r) == Expected(s, r) && ThreadHolds(s, l.t) && LoopEnabled(s, l)
    ensures DueAfter(s, LoopChange(s, l), LoopOp(s, l), ChanOf(s, ChanIn(r)).nodes, r)
  {
  }

  lemma LoopsLoop(s: State, l: LoopStep, t: Tid, a: Loop)
    requires LoopHolds(s, t, a) && ThreadHolds(s, l.t) && LoopEnabled(s, l)
    ensures LoopHoldsAfter(s, LoopChange(s, l), LoopOp(s, l), t, a)
  {
  }

  lemma DueProgram(s: State, p: ProgramStep, r: Ref)
    requires Held(s, r) == Expected(s, r) && ProgramEnabled(s, p)
    ensures DueAfter(s, NO_CHANGE, ProgramOp(s, p), ChanOf(s, ChanIn(r)).nodes, r)
  {
  }

  lemma ActProgram(s: State, p: ProgramStep, t: Tid)
    requires ThreadHolds(s, t) && ProgramEnabled(s, p)
    ensures ActFitsAfter(s, NO_CHANGE, ProgramOp(s, p), t)
  {
  }

  lemma LoopsProgram(s: State, p: ProgramStep, t: Tid, a: Loop)
    requires LoopHolds(s, t, a) && ProgramEnabled(s, p)
    ensures LoopHoldsAfter(s, NO_CHANGE, ProgramOp(s, p), t, a)
  {
  }

  // ---------------------------------------------------------------- safety of every step

  /** The references an operation is about, seen from the data structures. */
  lemma OpAccounted(s: State, op: HeapOp)
    requires Conserved(s.heap) && Accounted(s)
    ensures !op.Keep? ==>
        Held(s, op.r) == Expected(s, op.r) && (Held(s, op.r).Some? ==> Held(s, op.r).value in s.heap.count)
    ensures op.Moves? ==> Held(s, op.to) == Expected(s, op.to)
    ensures op.Incs? && Held(s, op.lender) == Ch.Some(op.o) ==> op.o in s.heap.count
  {
  }

  lemma SafeProgram(s: State, p: ProgramStep)
    requires Conserved(s.heap) && Accounted(s) && ProgramEnabled(s, p)
    ensures OpSafe(s.heap, ProgramOp(s, p))
  {
    OpAccounted(s, ProgramOp(s, p));
  }

  lemma SafeSpawn(s: State, w: SpawnStep)
    requires Conserved(s.heap) && Accounted(s) && ThreadHolds(s, w.t) && SlotHolds(s, SpawnTarget(s, w))
        && SpawnEnabled(s, w)
    ensures OpSafe(s.heap, SpawnOp(s, w))
  {
    OpAccounted(s, SpawnOp(s, w));
  }

  lemma SafeJoin(s: State, j: JoinStep)
    requires Conserved(s.heap) && Accounted(s) && ThreadHolds(s, j.t) && SlotHolds(s, JoinTarget(s, j))
        && JoinEnabled(s, j)
    ensures OpSafe(s.heap, JoinOp(s, j))
  {
    OpAccounted(s, JoinOp(s, j));
  }

  lemma SafeLoop(s: State, l: LoopStep)
    requires Conserved(s.heap) && Accounted(s) && ThreadHolds(s, l.t) && LoopEnabled(s, l)
    ensures OpSafe(s.heap, LoopOp(s, l))
  {
    OpAccounted(s, LoopOp(s, l));
  }

  lemma SafeChannel(s: State, x: ChannelStep)
    requires Conserved(s.heap) && Accounted(s) && ChannelsHold(s) && ChannelEnabled(s, x)
    ensures OpSafe(s.heap, ChannelOp(s, x)) && Ch.Safe(s.chans[x.c], Wire(s, x))
  {
    Ch.InvKept(s.chans[x.c], Wire(s, x));
    OpAccounted(s, ChannelOp(s, x));
  }

  lemma EnabledIsSafe(s: State, e: Step)
    requires Inv(s) && Enabled(s, e)
    ensures Safe(s, e)
  {
    match e
    case OfProgram(p) => SafeProgram(s, p);
    case OfChannel(x) => SafeChannel(s, x);
    case OfSpawn(w) => SafeSpawn(s, w);
    case OfJoin(j) => SafeJoin(s, j);
    case OfLoop(l) => SafeLoop(s, l);
  }

  // ---------------------------------------------------------------- the invariant is kept

  lemma OperateConserves(g: Heap<Ref>, op: HeapOp)
    requires Conserved(g) && OpSafe(g, op)
    ensures Conserved(Operate(g, op))
  {
    match op
    case Keep =>
    case Creates(r, o) => CreateConserves(g, r, o);
    case Incs(r, o, lender) => IncConserves(g, r, o, lender);
    case Decs(r) => DecConserves(g, r);
    case Moves(r, to) => MoveConserves(g, r, to);
  }

  lemma DueNext(s: State, e: Step, r: Ref)
    requires Held(s, r) == Expected(s, r) && ThreadHolds(s, By(e)) && SlotHolds(s, Target(s, e))
    requires Enabled(s, e) && Safe(s, e)
    ensures DueAfter(s, ChangeOf(s, e), OpOf(s, e), NodesAfter(s, e, ChanIn(r)), r)
  {
    NextChan(s, e, ChanIn(r));
    match e
    case OfProgram(p) => DueProgram(s, p, r);
    case OfChannel(x) => DueChannel(s, x, r);
    case OfSpawn(w) => DueSpawn(s, w, r);
    case OfJoin(j) => DueJoin(s, j, r);
    case OfLoop(l) => DueLoop(s, l, r);
  }

  lemma AccountedKept(s: State, e: Step)
    requires Inv(s) && Enabled(s, e) && Safe(s, e)
    ensures Accounted(Next(s, e))
  {
    forall r ensures Held(Next(s, e), r) == Expected(Next(s, e), r) {
      AccountedFor(s, e, r);
    }
  }

  lemma AccountedFor(s: State, e: Step, r: Ref)
    requires Held(s, r) == Expected(s, r) && ThreadHolds(s, By(e)) && SlotHolds(s, Target(s, e))
    requires Enabled(s, e) && Safe(s, e)
    ensures Held(Next(s, e), r) == Expected(Next(s, e), r)
  {
    DueNext(s, e, r);
    NextHeld(s, OpOf(s, e), r);
    NextSlot(s, e, SlotIn(r));
    NextThread(s, e, ThreadIn(r));
    NextChan(s, e, ChanIn(r));
  }

  lemma ChannelsHoldKept(s: State, e: Step)
    requires ChannelsHold(s) && Enabled(s, e) && Safe(s, e)
    ensures ChannelsHold(Next(s, e))
  {
    var chans := ChansAfter(s, e);
    forall c | c in chans ensures Ch.Inv(chans[c]) {
      if e.OfChannel? && c == e.x.c {
        Ch.InvKept(s.chans[c], Wire(s, e.x));
      } else if e.OfProgram? {
        Ch.EmptyInv();
      }
    }
  }

  lemma SlotNext(s: State, e: Step, i: int)
    requires SlotHolds(s, i) && ThreadHolds(s, By(e)) && Enabled(s, e) && Safe(s, e)
    requires GensApart(i, SlotOf(s, i), Target(s, e), SlotOf(s, Target(s, e)))
    ensures SlotFitsAfter(s, ChangeOf(s, e), ReturnedAfter(s, e), i)
  {
    match e
    case OfProgram(_) =>
    case OfChannel(x) => SlotChannel(s, x, i);
    case OfSpawn(w) => SlotSpawn(s, w, i);
    case OfJoin(j) => SlotJoin(s, j, i);
    case OfLoop(l) => SlotLoop(s, l, i);
  }

  lemma SlotKept(s: State, e: Step, i: int)
    requires Inv(s) && Enabled(s, e) && Safe(s, e)
    ensures SlotHolds(Next(s, e), i)
  {
    SlotNext(s, e, i);
    NextSlot(s, e, i);
    NextThread(s, e, Named(SlotAfter(s, ChangeOf(s, e), i).phase));
  }

  lemma ActNext(s: State, e: Step, t: Tid)
    requires LoopsOf(s, By(e)) != [] ==> LoopHolds(s, By(e), LoopsOf(s, By(e))[0])
    requires ThreadHolds(s, t) && ThreadHolds(s, By(e)) && SlotHolds(s, Target(s, e)) && Enabled(s, e)
    ensures ActFitsAfter(s, ChangeOf(s, e), OpOf(s, e), t)
  {
    match e
    case OfProgram(p) => ActProgram(s, p, t);
    case OfChannel(x) => ActChannel(s, x, t);
    case OfSpawn(w) => ActSpawn(s, w, t);
    case OfJoin(j) => ActJoin(s, j, t);
    case OfLoop(l) => ActLoop(s, l, t);
  }

  lemma RoleNext(s: State, e: Step, t: Tid)
    requires ThreadHolds(s, t) && ThreadHolds(s, By(e)) && SlotHolds(s, Target(s, e)) && Enabled(s, e)
    ensures RoleFitsAfter(s, ChangeOf(s, e), t)
  {
    match e
    case OfProgram(_) =>
    case OfChannel(x) => RoleChannel(s, x, t);
    case OfSpawn(w) => RoleSpawn(s, w, t);
    case OfJoin(j) => RoleJoin(s, j, t);
    case OfLoop(l) => RoleLoop(s, l, t);
  }

  lemma ActKept(s: State, e: Step, t: Tid)
    requires Inv(s) && Enabled(s, e) && Safe(s, e)
    ensures var act := ActOf(Next(s, e), t);
            ActFits(t, act, SlotOf(Next(s, e), WorkedOn(act)), Held(Next(s, e), Local(t, WorkedWith(act))))
  {
    var act := ActAfter(s, ChangeOf(s, e), t);
    ActNext(s, e, t);
    NextThread(s, e, t);
    NextSlot(s, e, WorkedOn(act));
    NextHeld(s, OpOf(s, e), Local(t, WorkedWith(act)));
  }

  lemma RoleKept(s: State, e: Step, t: Tid)
    requires Inv(s) && Enabled(s, e) && Safe(s, e)
    ensures var act, role := ActOf(Next(s, e), t), RoleOf(Next(s, e), t);
            RoleFits(t, act, role, SlotOf(Next(s, e), StartedFor(role)), PiecesOf(Next(s, e), StartedBy(role)))
  {
    var role := RoleAfter(s, ChangeOf(s, e), t);
    RoleNext(s, e, t);
    NextThread(s, e, t);
    NextThread(s, e, StartedBy(role));
    NextSlot(s, e, StartedFor(role));
  }

  lemma LoopsNext(s: State, e: Step, t: Tid, a: Loop)
    requires LoopHolds(s, t, a) && ThreadHolds(s, By(e)) && Enabled(s, e)
    ensures LoopHoldsAfter(s, ChangeOf(s, e), OpOf(s, e), t, a)
  {
    match e
    case OfProgram(p) => LoopsProgram(s, p, t, a);
    case OfChannel(x) => LoopsChannel(s, x, t, a);
    case OfSpawn(w) => LoopsSpawn(s, w, t, a);
    case OfJoin(j) => LoopsJoin(s, j, t, a);
    case OfLoop(l) => LoopsLoop(s, l, t, a);
  }

  lemma LoopKept(s: State, e: Step, t: Tid, a: Loop)
    requires Inv(s) && Enabled(s, e) && Safe(s, e)
    ensures LoopHolds(Next(s, e), t, a)
  {
    LoopsNext(s, e, t, a);
    NextThread(s, e, t);
    NextHeld(s, OpOf(s, e), Local(t, a.k));
  }

  lemma PiecesNext(s: State, e: Step, t: Tid)
    requires PiecesFit(ActOf(s, t), LoopsOf(s, t), PiecesOf(s, t)) && Enabled(s, e)
    ensures var c := ChangeOf(s, e); PiecesFit(ActAfter(s, c, t), LoopsAfter(s, c, t), PiecesAfter(s, c, t))
  {
  }

  lemma ControlKept(s: State, e: Step)
    requires Inv(s) && Enabled(s, e) && Safe(s, e)
    ensures ControlFits(Next(s, e))
  {
    forall i ensures SlotHolds(Next(s, e), i) {
      SlotKept(s, e, i);
    }
    forall t ensures ThreadHolds(Next(s, e), t) {
      ActKept(s, e, t);
      RoleKept(s, e, t);
    }
    forall t, a ensures LoopHolds(Next(s, e), t, a) {
      LoopKept(s, e, t, a);
    }
    forall t ensures PiecesFit(ActOf(Next(s, e), t), LoopsOf(Next(s, e), t), PiecesOf(Next(s, e), t)) {
      PiecesNext(s, e, t);
      NextThread(s, e, t);
    }
  }

  lemma ResultsKept(s: State, e: Step)
    requires HistoryFits(s) && ThreadHolds(s, By(e)) && SlotHolds(s, Target(s, e)) && Enabled(s, e)
    ensures ResultsMatch(NextGenAfter(s, e), ReturnedAfter(s, e), JoinedAfter(s, e))
  {
    assert GenFits(SlotOf(s, Target(s, e)), s.nextGen, s.returned, s.joined);
  }

  lemma GenKept(s: State, e: Step, i: int)
    requires Inv(s) && Enabled(s, e) && Safe(s, e)
    ensures GenFits(SlotOf(Next(s, e), i), NextGenAfter(s, e), ReturnedAfter(s, e), JoinedAfter(s, e))
  {
    NextSlot(s, e, i);
    match e
    case OfSpawn(w) => GenSpawn(s, w, i);
    case OfJoin(j) => GenJoin(s, j, i);
    case _ =>
  }

  lemma GensApartKept(s: State, e: Step, i: int, k: int)
    requires Inv(s) && Enabled(s, e) && Safe(s, e)
    ensures GensApart(i, SlotOf(Next(s, e), i), k, SlotOf(Next(s, e), k))
  {
    NextSlot(s, e, i);
    NextSlot(s, e, k);
    match e
    case OfSpawn(w) => GensApartSpawn(s, w, i, k);
    case OfJoin(j) => GensApartJoin(s, j, i, k);
    case _ =>
  }

  lemma HistoryKept(s: State, e: Step)
    requires Inv(s) && Enabled(s, e) && Safe(s, e)
    ensures HistoryFits(Next(s, e))
  {
    ResultsKept(s, e);
    forall i
      ensures GenFits(SlotOf(Next(s, e), i), NextGenAfter(s, e), ReturnedAfter(s, e), JoinedAfter(s, e))
    {
      GenKept(s, e, i);
    }
    forall i, k ensures GensApart(i, SlotOf(Next(s, e), i), k, SlotOf(Next(s, e), k)) {
      GensApartKept(s, e, i, k);
    }
  }

  lemma {:induction false} InvKept(s: State, e: Step)
    requires Inv(s) && Enabled(s, e)
    ensures Safe(s, e) && Inv(Next(s, e))
  {
    EnabledIsSafe(s, e);
    OperateConserves(s.heap, OpOf(s, e));
    AccountedKept(s, e);
    ChannelsHoldKept(s, e);
    ControlKept(s, e);
    HistoryKept(s, e);
  }

  lemma StartInv()
    ensures Inv(START)
  {
  }

  // ---------------------------------------------------------------- runs

  /** A run: any interleaving of the steps of all threads. */
  ghost predicate IsRun(states: seq<State>, steps: seq<Step>) {
    && |states| == |steps| + 1 && states[0] == START
    && forall i | 0 <= i < |steps| ::
         Enabled(states[i], steps[i]) && (Safe(states[i], steps[i]) ==> states[i + 1] == Next(states[i], steps[i]))
  }

  lemma {:induction false} RunInv(states: seq<State>, steps: seq<Step>, n: nat)
    requires IsRun(states, steps) && n <= |steps|
    ensures Inv(states[n])
  {
    if n == 0 {
      StartInv();
    } else {
      RunInv(states, steps, n - 1);
      InvKept(states[n - 1], steps[n - 1]);
    }
  }

  /** Reference conservation over every interleaving.  In every state of every run an object's
      count is the number of references to it; those are the program's variables and exactly
      the queued or travelling messages, the closures and results in thread slots and the
      chunks of parallel loops; it was freed once if nobody holds it and never otherwise; and
      no step that can come next touches a freed object or a freed message node. */
  lemma ReferencesConserved(states: seq<State>, steps: seq<Step>, n: nat)
    requires IsRun(states, steps) && n <= |steps|
    ensures var s := states[n];
            && (forall o | o in s.heap.count :: s.heap.count[o] == |Owners(s.heap.holders, o)|)
            && s.heap.frees.Keys == s.heap.count.Keys
            && (forall o | o in s.heap.count :: s.heap.frees[o] == if Owners(s.heap.holders, o) == {} then 1 else 0)
            && (forall r | r in s.heap.holders :: s.heap.holders[r] in s.heap.count)
            && (forall r :: Held(s, r) == Expected(s, r))
            && (forall e | Enabled(s, e) :: Safe(s, e))
  {
    RunInv(states, steps, n);
    forall e | Enabled(states[n], e) ensures Safe(states[n], e) {
      EnabledIsSafe(states[n], e);
    }
  }

  /** With one joiner per id, what `join` hands out for a spawn is what the body of that very
      spawn returned, in every state of every run, and it is handed out at most once. */
  lemma JoinReturnsTheBodysResult(states: seq<State>, steps: seq<Step>, n: nat, t: Tid, k: int)
    requires IsRun(states, steps) && n < |steps| && steps[n] == OfJoin(JoinTakes(t, k))
    ensures var s, gen := states[n], SlotOf(states[n], ActOf(states[n], t).slot).gen;
            && gen in s.returned && gen !in s.joined
            && states[n + 1].joined == s.joined[gen := s.returned[gen]]
            && Held(states[n + 1], Local(t, k)) == s.returned[gen]
  {
    RunInv(states, steps, n);
    EnabledIsSafe(states[n], steps[n]);
    JoinTakesResult(states[n], t, k);
  }

  lemma JoinTakesResult(s: State, t: Tid, k: int)
    requires Inv(s) && Enabled(s, OfJoin(JoinTakes(t, k))) && Safe(s, OfJoin(JoinTakes(t, k)))
    ensures var slot, next := SlotOf(s, ActOf(s, t).slot), Next(s, OfJoin(JoinTakes(t, k)));
            && slot.gen in s.returned && slot.gen !in s.joined
            && next.joined == s.joined[slot.gen := s.returned[slot.gen]]
            && Held(next, Local(t, k)) == s.returned[slot.gen]
  {
    ResultIsKept(s, t, k);
    HeldNext(s, OfJoin(JoinTakes(t, k)), Local(t, k));
  }

  /** The slot that a joiner empties has the result that its body returned. */
  lemma ResultIsKept(s: State, t: Tid, k: int)
    requires Inv(s) && JoinEnabled(s, JoinTakes(t, k))
    ensures var i := ActOf(s, t).slot;
            && SlotOf(s, i).gen in s.returned && SlotOf(s, i).gen !in s.joined
            && Held(s, Result(i)) == SlotOf(s, i).result == s.returned[SlotOf(s, i).gen]
  {
    var i := ActOf(s, t).slot;
    assert SlotHolds(s, i) && GenFits(SlotOf(s, i), s.nextGen, s.returned, s.joined);
    assert Held(s, Result(i)) == Expected(s, Result(i)) == SlotOf(s, i).result;
  }

  /** What `recv` hands out is the message that it took off the list, which is the one sent at that
      place, with the reference that the channel held: nobody's count changes. */
  lemma ReceiveReturnsTheMessage(states: seq<State>, steps: seq<Step>, n: nat, t: Tid, c: int, k: int)
    requires IsRun(states, steps) && n < |steps| && steps[n] == OfChannel(ReceiveReturns(t, c, k))
    ensures c in states[n].chans
    ensures var s, chan, pc := states[n], states[n].chans[c], Ch.PcOf(states[n].chans[c], t);
            && pc.Holding? && pc.at < |chan.received| <= |chan.sent| && chan.received[pc.at] == chan.sent[pc.at]
            && Held(s, Message(c, pc.node)) == Ch.Some(chan.sent[pc.at])
            && Held(states[n + 1], Local(t, k)) == Ch.Some(chan.sent[pc.at])
            && Held(states[n + 1], Message(c, pc.node)) == Ch.None
            && states[n + 1].heap.count == s.heap.count && states[n + 1].heap.frees == s.heap.frees
  {
    RunInv(states, steps, n);
    EnabledIsSafe(states[n], steps[n]);
    ReceiveTakesMessage(states[n], t, c, k);
    MessageMoves(states[n], t, c, k);
  }

  lemma MessageMoves(s: State, t: Tid, c: int, k: int)
    requires Enabled(s, OfChannel(ReceiveReturns(t, c, k))) && Safe(s, OfChannel(ReceiveReturns(t, c, k)))
    ensures var next, node := Next(s, OfChannel(ReceiveReturns(t, c, k))), Ch.PcOf(s.chans[c], t).node;
            && Held(next, Local(t, k)) == Held(s, Message(c, node)) && Held(next, Message(c, node)) == Ch.None
            && next.heap.count == s.heap.count && next.heap.frees == s.heap.frees
  {
    HeldNext(s, OfChannel(ReceiveReturns(t, c, k)), Local(t, k));
    HeldNext(s, OfChannel(ReceiveReturns(t, c, k)), Message(c, Ch.PcOf(s.chans[c], t).node));
  }

  lemma ReceiveTakesMessage(s: State, t: Tid, c: int, k: int)
    requires Accounted(s) && ChannelsHold(s) && ChannelEnabled(s, ReceiveReturns(t, c, k))
    ensures var chan, pc := s.chans[c], Ch.PcOf(s.chans[c], t);
            && pc.Holding? && pc.at < |chan.received| <= |chan.sent| && chan.received[pc.at] == chan.sent[pc.at]
            && Held(s, Message(c, pc.node)) == Ch.Some(chan.sent[pc.at])
  {
    var node := Ch.PcOf(s.chans[c], t).node;
    HeldAtReceive(s.chans[c], t);
    assert Held(s, Message(c, node)) == Expected(s, Message(c, node));
  }

  lemma HeldNext(s: State, e: Step, r: Ref)
    requires Enabled(s, e) && Safe(s, e)
    ensures Next(s, e).heap == Operate(s.heap, OpOf(s, e)) && Held(Next(s, e), r) == HeldAfter(s, OpOf(s, e), r)
  {
    NextHeld(s, OpOf(s, e), r);
  }

  lemma HeldAtReceive(c: Ch.Chan, t: Tid)
    requires Ch.Inv(c) && Ch.PcOf(c, t).Holding?
    ensures var pc := Ch.PcOf(c, t);
            && pc.node in c.nodes && pc.at < |c.received| <= |c.sent|
            && c.nodes[pc.node].value == c.received[pc.at] == c.sent[pc.at]
  {
    assert Ch.Took(Ch.PcOf(c, t));
  }

  /** What `send` queues is what its variable holds, with a reference of its own. */
  lemma SendQueuesTheVariable(states: seq<State>, steps: seq<Step>, n: nat, t: Tid, c: int, node: Ch.NodeId, k: int)
    requires IsRun(states, steps) && n < |steps| && steps[n] == OfChannel(Send(t, c, node, k))
    ensures c in states[n + 1].chans && node in states[n + 1].chans[c].nodes
    ensures var o := Held(states[n], Local(t, k));
            && o == Ch.Some(states[n + 1].chans[c].nodes[node].value)
            && Held(states[n + 1], Message(c, node)) == o == Held(states[n + 1], Local(t, k))
            && o.value in states[n].heap.count
            && states[n + 1].heap.count == states[n].heap.count[o.value := states[n].heap.count[o.value] + 1]
  {
    RunInv(states, steps, n);
    EnabledIsSafe(states[n], steps[n]);
    MessageIsCounted(states[n], t, c, node, k);
    MessageIsQueued(states[n], t, c, node, k);
  }

  lemma MessageIsCounted(s: State, t: Tid, c: int, node: Ch.NodeId, k: int)
    requires Enabled(s, OfChannel(Send(t, c, node, k))) && Safe(s, OfChannel(Send(t, c, node, k)))
    ensures var next, o := Next(s, OfChannel(Send(t, c, node, k))), Held(s, Local(t, k));
            && o.Some? && Held(next, Message(c, node)) == o == Held(next, Local(t, k))
            && o.value in s.heap.count && next.heap.count == s.heap.count[o.value := s.heap.count[o.value] + 1]
  {
    HeldNext(s, OfChannel(Send(t, c, node, k)), Local(t, k));
    HeldNext(s, OfChannel(Send(t, c, node, k)), Message(c, node));
  }

  lemma MessageIsQueued(s: State, t: Tid, c: int, node: Ch.NodeId, k: int)
    requires Enabled(s, OfChannel(Send(t, c, node, k))) && Safe(s, OfChannel(Send(t, c, node, k)))
    ensures var next := Next(s, OfChannel(Send(t, c, node, k)));
            && c in next.chans && node in next.chans[c].nodes
            && Held(s, Local(t, k)) == Ch.Some(next.chans[c].nodes[node].value)
  {
  }

  /** What a variable holds after a step, told from the program alone. */
  function VariableAfter(s: State, e: Step, t: Tid, k: int): Option<Obj> {
    match e
    case OfProgram(NewObject(u, j, o)) => if u == t && j == k then Ch.Some(o) else Held(s, Local(t, k))
    case OfProgram(Copy(u, i, j)) => if u == t && j == k then Held(s, Local(t, i)) else Held(s, Local(t, k))
    case OfProgram(Drop(u, j)) => if u == t && j == k then Ch.None else Held(s, Local(t, k))
    case OfChannel(ReceiveReturns(u, c, j)) =>
      if u == t && j == k then Oldest(ChanOf(s, c), t) else Held(s, Local(t, k))
    case OfJoin(JoinTakes(u, j)) =>
      if u == t && j == k then Handed(s, t) else Held(s, Local(t, k))
    case OfJoin(BodyReturns(u, ret)) => if u == t && ret == Ch.Some(k) then Ch.None else Held(s, Local(t, k))
    case _ => Held(s, Local(t, k))
  }

  /** The message at the place at which the thread has received. */
  function Oldest(c: Ch.Chan, t: Tid): Option<Obj> {
    var pc := Ch.PcOf(c, t);
    if pc.Holding? && pc.at < |c.sent| then Ch.Some(c.sent[pc.at]) else Ch.None
  }

  /** What the body of the spawn that the thread joins returned. */
  function Handed(s: State, t: Tid): Option<Obj> {
    var act := ActOf(s, t);
    if act.Joining? && SlotOf(s, act.slot).gen in s.returned then s.returned[SlotOf(s, act.slot).gen] else Ch.None
  }

  /** In every run a variable changes only by the steps of its own thread that assign to it, drop it
      or give it away, and holds what they say. */
  lemma VariablesFollowTheProgram(states: seq<State>, steps: seq<Step>, n: nat, t: Tid, k: int)
    requires IsRun(states, steps) && n < |steps|
    ensures Held(states[n + 1], Local(t, k)) == VariableAfter(states[n], steps[n], t, k)
  {
    RunInv(states, steps, n);
    EnabledIsSafe(states[n], steps[n]);
    HeldNext(states[n], steps[n], Local(t, k));
    VariableNext(states[n], steps[n], t, k);
  }

  lemma VariableNext(s: State, e: Step, t: Tid, k: int)
    requires Inv(s) && Enabled(s, e) && Safe(s, e)
    ensures HeldAfter(s, OpOf(s, e), Local(t, k)) == VariableAfter(s, e, t, k)
  {
    match e
    case OfProgram(p) => VariableProgram(s, p, t, k);
    case OfChannel(x) => VariableChannel(s, x, t, k);
    case OfSpawn(_) =>
    case OfJoin(j) => VariableJoin(s, j, t, k);
    case OfLoop(_) =>
  }

  lemma VariableProgram(s: State, p: ProgramStep, t: Tid, k: int)
    requires ProgramEnabled(s, p)
    ensures HeldAfter(s, ProgramOp(s, p), Local(t, k)) == VariableAfter(s, OfProgram(p), t, k)
  {
  }

  lemma VariableChannel(s: State, x: ChannelStep, t: Tid, k: int)
    requires Accounted(s) && ChannelsHold(s) && ChannelEnabled(s, x)
    ensures HeldAfter(s, ChannelOp(s, x), Local(t, k)) == VariableAfter(s, OfChannel(x), t, k)
  {
    if x.ReceiveReturns? {
      ReceiveTakesMessage(s, x.t, x.c, x.k);
    }
  }

  lemma VariableJoin(s: State, j: JoinStep, t: Tid, k: int)
    requires Inv(s) && JoinEnabled(s, j)
    ensures HeldAfter(s, JoinOp(s, j), Local(t, k)) == VariableAfter(s, OfJoin(j), t, k)
  {
    if j.JoinTakes? {
      ResultIsKept(s, j.t, j.k);
    }
  }

  /** A parallel loop that returns has given back every reference its chunks were given: those that
      are left belong to loops around it, and with no loop around it none is left. */
  lemma LoopLeavesNoReference(states: seq<State>, steps: seq<Step>, n: nat, t: Tid, i: int)
    requires IsRun(states, steps) && n < |steps| && steps[n] == OfLoop(ParallelReturns(t))
    ensures var s := states[n];
            Held(s, Chunk(t, i)).Some? ==> i in PiecesOf(s, t) && PiecesOf(s, t)[i].depth < |LoopsOf(s, t)|
    ensures LoopsOf(states[n], t) == [] ==> Held(states[n], Chunk(t, i)) == Ch.None
  {
    RunInv(states, steps, n);
    var s := states[n];
    assert Enabled(s, steps[n]);
    assert Held(s, Chunk(t, i)) == Expected(s, Chunk(t, i));
    assert PiecesFit(ActOf(s, t), LoopsOf(s, t), PiecesOf(s, t));
  }

  /** While the caller of a parallel loop runs a chunk itself, whatever that chunk does and whatever
      the workers do meanwhile, the closure of the loop stays alive, and so do those of the loops
      around it. */
  lemma CallersClosureIsLive(states: seq<State>, steps: seq<Step>, n: nat, t: Tid, j: nat)
    requires IsRun(states, steps) && n <= |steps| && j < |LoopsOf(states[n], t)|
    ensures var s, a := states[n], LoopsOf(states[n], t)[j];
            && Held(s, Local(t, a.k)) == Ch.Some(a.closure)
            && a.closure in s.heap.count && s.heap.count[a.closure] > 0
            && a.closure in s.heap.frees && s.heap.frees[a.closure] == 0
  {
    RunInv(states, steps, n);
    var s, a := states[n], LoopsOf(states[n], t)[j];
    assert LoopHolds(s, t, a);
    HeldIsLive(s.heap, Local(t, a.k));
  }
}
