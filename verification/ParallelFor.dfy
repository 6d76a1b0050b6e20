/** The chunked parallel loop (`nv_parallel_for`, src/backend/runtime/nir_bridge.c) as the thread
    that calls it runs it. The chunks that threads run are recorded instead of run; each such
    thread gives its reference back before it is joined. */
module ParallelFor {
  import opened MachineInt

  datatype Chunk = Chunk(start: int, end: int)

  class Closure {
    var refCount: int

    constructor ()
      ensures refCount == 1
    {
      refCount := 1;
    }
  }

  const MAX_WORKERS := 8

  /** Chunks that follow one another from `lo` to `hi`, none of them empty. */
  ghost predicate Tiles(chunks: seq<Chunk>, lo: int, hi: int) {
    if chunks == [] then lo == hi
    else chunks[0].start == lo && lo < chunks[0].end && Tiles(chunks[1..], chunks[0].end, hi)
  }

  predicate In(i: int, c: Chunk) {
    c.start <= i < c.end
  }

  lemma {:induction false} TilesMore(chunks: seq<Chunk>, lo: int, mid: int, hi: int)
    requires Tiles(chunks, lo, mid) && mid < hi
    ensures Tiles(chunks + [Chunk(mid, hi)], lo, hi)
    decreases |chunks|
  {
    var more := chunks + [Chunk(mid, hi)];
    if chunks == [] {
      assert more[1..] == [];
    } else {
      TilesMore(chunks[1..], chunks[0].end, mid, hi);
      assert more[1..] == chunks[1..] + [Chunk(mid, hi)];
    }
  }

  /** Every index of the range lies in exactly one of the tiles, and no other index in any. */
  lemma {:induction false} TilesCoverOnce(chunks: seq<Chunk>, lo: int, hi: int, i: int)
    requires Tiles(chunks, lo, hi)
    ensures lo <= hi
    ensures lo <= i < hi <==> exists k :: 0 <= k < |chunks| && In(i, chunks[k])
    ensures forall k, l | 0 <= k < |chunks| && 0 <= l < |chunks| && In(i, chunks[k]) && In(i, chunks[l]) :: k == l
    decreases |chunks|
  {
    if chunks == [] {
    } else {
      TilesCoverOnce(chunks[1..], chunks[0].end, hi, i);
      assert forall k | 0 < k < |chunks| :: chunks[k] == chunks[1..][k - 1];
      if exists k :: 0 <= k < |chunks[1..]| && In(i, chunks[1..][k]) {
        var k :| 0 <= k < |chunks[1..]| && In(i, chunks[1..][k]);
        assert In(i, chunks[k + 1]);
      }
      if lo <= i < chunks[0].end {
        assert In(i, chunks[0]);
      }
    }
  }

  /** The number of workers: cpus, capped by the limit, the iterations and the free slots. */
  method Workers(cpus: int, total: int64, freeSlots: int) returns (workers: int64)
    requires total > 0
    ensures 1 <= workers <= 8 && workers <= total
    ensures 1 < cpus < 0x8000_0000 && freeSlots > 0 ==>
      workers as int <= cpus && workers as int <= freeSlots &&
      (workers as int == cpus || workers as int == freeSlots || workers == 8 || workers == total)
  {
    var w := if cpus > 1 then AsInt32(cpus) else 1;
    if w > MAX_WORKERS {
      w := MAX_WORKERS;
    }
    if w > total as int {
      w := total as int;
    }
    if w > freeSlots {
      w := freeSlots;
    }
    if w < 1 {
      w := 1;
    }
    workers := w as int64;
  }

  /** Where the first `i` chunks end. */
  function Cut(i: int, per: int, total: int): int {
    if i * per < total then i * per else total
  }

  /** The chunk with number `i`, or nothing when the iterations are already used up. */
  method NextChunk(i: int64, per: int64, total: int64) returns (some: bool, chunk: Chunk)
    requires 0 <= i < 8 && 1 <= per <= total < 0x8000_0000
    ensures !some ==> Cut(i as int, per as int, total as int) == total as int
    ensures some ==>
        chunk == Chunk(Cut(i as int, per as int, total as int), Cut(i as int + 1, per as int, total as int))
    ensures some ==> 0 <= chunk.start < chunk.end <= total as int
  {
    assert i as int * per as int <= 8 * per as int;
    var start := i * per;
    if start >= total {
      return false, Chunk(0, 0);
    }
    var end := start + per;
    if end > total {
      end := total;
    }
    return true, Chunk(start as int, end as int);
  }

  /** The first loop: a thread for each chunk until one cannot be created. */
  method Start(closure: Closure, total: int64, workers: int64, per: int64,
        created: seq<bool>) returns (threads: seq<Chunk>)
    requires |created| == MAX_WORKERS && 1 <= workers <= 8 && 1 <= per <= total < 0x8000_0000
    modifies closure
    ensures |threads| <= workers as int && closure.refCount == old(closure.refCount) + |threads|
    ensures Tiles(threads, 0, Cut(|threads|, per as int, total as int))
    ensures forall k | 0 <= k < |threads| :: created[k] && 0 <= threads[k].start < threads[k].end <= total as int
    ensures || |threads| == workers as int || !created[|threads|]
            || Cut(|threads|, per as int, total as int) == total as int
  {
    threads := [];
    var i: int64 := 0;
    while i < workers
      invariant 0 <= |threads| == i as int <= workers as int
      invariant closure.refCount == old(closure.refCount) + |threads|
      invariant Tiles(threads, 0, Cut(|threads|, per as int, total as int))
      invariant forall k | 0 <= k < |threads| :: created[k] && 0 <= threads[k].start < threads[k].end <= total as int
    {
      var some, chunk := NextChunk(i, per, total);
      if !some {
        break;
      }
      closure.refCount := closure.refCount + 1;
      if created[i as int] {
        TilesMore(threads, 0, chunk.start, chunk.end);
        threads := threads + [chunk];
      } else {
        closure.refCount := closure.refCount - 1;
        break;
      }
      i := i + 1;
    }
  }

  /** The second loop: the chunks that no thread took. */
  method Rest(total: int64, workers: int64, per: int64, ghost threads: seq<Chunk>,
        started: int64) returns (here: seq<Chunk>)
    requires 1 <= workers <= 8 && 1 <= per <= total < 0x8000_0000 && 0 <= started <= workers
    requires workers as int * per as int >= total as int
    requires Tiles(threads, 0, Cut(started as int, per as int, total as int))
    ensures Tiles(threads + here, 0, total as int)
    ensures forall k | 0 <= k < |here| :: 0 <= here[k].start < here[k].end <= total as int
    ensures started == workers || Cut(started as int, per as int, total as int) == total as int ==> here == []
  {
    here := [];
    var i := started;
    assert threads + [] == threads;
    while i < workers
      invariant started <= i <= workers
      invariant Tiles(threads + here, 0, Cut(i as int, per as int, total as int))
      invariant forall k | 0 <= k < |here| :: 0 <= here[k].start < here[k].end <= total as int
      invariant here == [] || Cut(started as int, per as int, total as int) < total as int
      invariant i > started ==> started < workers
      invariant here == [] ==> i == started
    {
      var some, chunk := NextChunk(i, per, total);
      if !some {
        break;
      }
      TilesMore(threads + here, 0, chunk.start, chunk.end);
      assert threads + here + [chunk] == threads + (here + [chunk]);
      here := here + [chunk];
      i := i + 1;
    }
  }

  /** Every iteration of `[0, total)` is in exactly one chunk, given to a thread or run here,
      whatever number of workers there are and whichever `pthread_create` fails first; nothing is
      run here unless one failed; and the closure has as many references as before.
      `created[i]` says whether thread `i` starts. */
  method Run(closure: Closure?, totalObj: int32, cpus: int, freeSlots: int, created: seq<bool>)
      returns (status: int, threads: seq<Chunk>, here: seq<Chunk>)
    requires |created| == MAX_WORKERS
    modifies closure
    ensures closure != null ==> closure.refCount == old(closure.refCount)
    ensures closure == null ==> status == -1 && threads + here == []
    ensures closure != null ==> status == 0 && Tiles(threads + here, 0, if totalObj > 0 then totalObj as int else 0)
    ensures |threads| <= |created| && forall k | 0 <= k < |threads| :: created[k]
    ensures forall k | 0 <= k < |threads + here| ::
      var c := (threads + here)[k]; 0 <= c.start < c.end <= totalObj as int
    ensures here != [] ==> |threads| < |created| && !created[|threads|]
  {
    threads, here := [], [];
    if closure == null {
      return -1, [], [];
    }
    var total := totalObj as int64;
    if total <= 0 {
      return 0, [], [];
    }
    var workers := Workers(cpus, total, freeSlots);
    var per := (total + workers - 1) / workers;
    PerCovers(total as int, workers as int);
    threads := Start(closure, total, workers, per, created);
    here := Rest(total, workers, per, threads, |threads| as int64);
    Join(closure, |threads|);
    status := 0;
  }

  /** Each joined thread has given its reference back. */
  method Join(closure: Closure, started: nat)
    modifies closure
    ensures closure.refCount == old(closure.refCount) - started
  {
    for joined := 0 to started
      invariant closure.refCount == old(closure.refCount) - joined
    {
      closure.refCount := closure.refCount - 1;
    }
  }

  lemma MulMono(a: int, b: int, c: nat)
    ensures a <= b ==> a * c <= b * c
  {
  }

  lemma PerCovers(total: int, workers: int)
    requires 1 <= workers <= total
    ensures var per := (total + workers - 1) / workers; 1 <= per <= total && workers * per >= total
  {
    var x := total + workers - 1;
    MulMono(x / workers, 0, workers);
    MulMono(total + 1, x / workers, workers);
    MulMono(1, workers, total);
  }

  ghost predicate InSome(i: int, chunks: seq<Chunk>) {
    exists k :: 0 <= k < |chunks| && In(i, chunks[k])
  }

  /** What the tiling means: every iteration is run exactly once, on a thread or here. */
  lemma EveryIterationOnce(threads: seq<Chunk>, here: seq<Chunk>, total: nat, i: int)
    requires Tiles(threads + here, 0, total)
    ensures 0 <= i < total <==> InSome(i, threads) || InSome(i, here)
    ensures !(InSome(i, threads) && InSome(i, here))
  {
    var all := threads + here;
    TilesCoverOnce(all, 0, total, i);
    assert forall k | 0 <= k < |threads| :: all[k] == threads[k];
    assert forall k | 0 <= k < |here| :: all[|threads| + k] == here[k];
    if 0 <= i < total {
      var k :| 0 <= k < |all| && In(i, all[k]);
      if k >= |threads| {
        assert here[k - |threads|] == all[k];
      }
    }
  }
}
