/** The atomic reference counts (`nv_arc_inc` and `nv_arc_dec`, include/backend/runtime/prototypes.h)
    beside the references they stand for: who holds each one, and on what. */
module RefCounts {

  type Obj = int

  /** `count` is what `ref_count` holds and `frees` how often the object was released;
      `holders` records, for every place that holds a reference, the object it is on. */
  datatype Heap<!H> = Heap(count: map<Obj, int>, frees: map<Obj, int>, holders: map<H, Obj>)

  ghost function Owners<H(!new)>(holders: map<H, Obj>, o: Obj): set<H> {
    set h | h in holders && holders[h] == o
  }

  /** Conservation: a count is the number of references; the object is released, once, when
      and only when there are none left. */
  ghost predicate Conserved<H(!new)>(g: Heap<H>) {
    && g.frees.Keys == g.count.Keys
    && (forall h | h in g.holders :: g.holders[h] in g.count)
    && (forall o | o in g.count :: g.count[o] == |Owners(g.holders, o)|)
    && (forall o | o in g.count :: g.frees[o] == if g.count[o] == 0 then 1 else 0)
  }

  // ---------------------------------------------------------------- the operations

  /** A fresh object comes with one reference, held by `h`. */
  function Create<H>(g: Heap<H>, h: H, o: Obj): Heap<H> {
    Heap(g.count[o := 1], g.frees[o := 0], g.holders[h := o])
  }

  /** `nv_arc_inc`: `h` gets a reference of its own. */
  function Inc<H>(g: Heap<H>, h: H, o: Obj): Heap<H>
    requires o in g.count
  {
    Heap(g.count[o := g.count[o] + 1], g.frees, g.holders[h := o])
  }

  /** `nv_arc_dec`: `h` gives its reference up; the one that reaches zero frees the object. */
  function Dec<H>(g: Heap<H>, h: H): Heap<H>
    requires h in g.holders && g.holders[h] in g.count && g.holders[h] in g.frees
  {
    var o := g.holders[h];
    Heap(g.count[o := g.count[o] - 1],
         if g.count[o] - 1 == 0 then g.frees[o := g.frees[o] + 1] else g.frees,
         g.holders - {h})
  }

  /** A reference changes hands without touching the count. */
  function Move<H>(g: Heap<H>, from: H, to: H): Heap<H>
    requires from in g.holders
  {
    g.(holders := (g.holders - {from})[to := g.holders[from]])
  }

  // ---------------------------------------------------------------- conservation

  lemma OwnersAdd<H(!new)>(holders: map<H, Obj>, h: H, o: Obj, p: Obj)
    requires h !in holders
    ensures |Owners(holders[h := o], p)| == |Owners(holders, p)| + (if p == o then 1 else 0)
  {
    var more := holders[h := o];
    if p == o {
      assert Owners(more, p) == Owners(holders, p) + {h};
    } else {
      assert Owners(more, p) == Owners(holders, p);
    }
  }

  lemma OwnersRemove<H(!new)>(holders: map<H, Obj>, h: H, p: Obj)
    requires h in holders
    ensures |Owners(holders - {h}, p)| == |Owners(holders, p)| - (if p == holders[h] then 1 else 0)
  {
    var less := holders - {h};
    assert less[h := holders[h]] == holders;
    OwnersAdd(less, h, holders[h], p);
  }

  lemma CreateConserves<H(!new)>(g: Heap<H>, h: H, o: Obj)
    requires Conserved(g) && h !in g.holders && o !in g.count
    ensures Conserved(Create(g, h, o))
  {
    forall p | p in Create(g, h, o).count
      ensures Create(g, h, o).count[p] == |Owners(Create(g, h, o).holders, p)|
    {
      OwnersAdd(g.holders, h, o, p);
      assert o !in g.holders.Values;
      assert Owners(g.holders, o) == {};
    }
  }

  lemma IncConserves<H(!new)>(g: Heap<H>, h: H, o: Obj, lender: H)
    requires Conserved(g) && h !in g.holders && lender in g.holders && g.holders[lender] == o
    ensures Conserved(Inc(g, h, o))
  {
    assert lender in Owners(g.holders, o);
    forall p | p in g.count ensures Inc(g, h, o).count[p] == |Owners(Inc(g, h, o).holders, p)| {
      OwnersAdd(g.holders, h, o, p);
    }
  }

  lemma DecConserves<H(!new)>(g: Heap<H>, h: H)
    requires Conserved(g) && h in g.holders
    ensures Conserved(Dec(g, h))
  {
    assert h in Owners(g.holders, g.holders[h]);
    forall p | p in g.count ensures Dec(g, h).count[p] == |Owners(Dec(g, h).holders, p)| {
      OwnersRemove(g.holders, h, p);
    }
  }

  lemma MoveConserves<H(!new)>(g: Heap<H>, from: H, to: H)
    requires Conserved(g) && from in g.holders && to !in g.holders
    ensures Conserved(Move(g, from, to))
  {
    forall p | p in g.count ensures g.count[p] == |Owners(Move(g, from, to).holders, p)| {
      OwnersRemove(g.holders, from, p);
      OwnersAdd(g.holders - {from}, to, g.holders[from], p);
    }
  }

  /** Under conservation whoever holds a reference holds a live object, and the decrement
      frees the object exactly when it gives up the last reference. */
  lemma HeldIsLive<H(!new)>(g: Heap<H>, h: H)
    requires Conserved(g) && h in g.holders
    ensures g.frees[g.holders[h]] == 0 && g.count[g.holders[h]] > 0
    ensures Dec(g, h).frees[g.holders[h]] == 1 <==> Owners(g.holders, g.holders[h]) == {h}
  {
    var owners := Owners(g.holders, g.holders[h]);
    assert h in owners;
    if |owners| == 1 {
      OwnersRemove(g.holders, h, g.holders[h]);
      assert |owners - {h}| == 0;
      assert owners == {h};
    }
  }
}
