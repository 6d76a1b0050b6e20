/** The growing store of top-level values (`repl_slot`, `nv_repl_get` and `nv_repl_set`,
    src/backend/runtime/nir_c_ffi.c), with the references that its slots hold. */
module ValueStore {
  import opened RefCounts

  datatype Option<T> = None | Some(value: T)

  datatype Slot = Slot(name: Option<string>, value: Option<Obj>)

  /** Who can hold a reference: a slot of the table, a call that is storing, or the program. */
  datatype Holder = InSlot(i: int) | Storing | Program(k: int)

  const FIRST_CAPACITY := 32

  /** A table that has been doubled some number of times, or not been allocated yet. */
  predicate Doubled(capacity: nat) {
    capacity == 0 || capacity == FIRST_CAPACITY
        || (capacity > FIRST_CAPACITY && capacity % 2 == 0 && Doubled(capacity / 2))
  }

  ghost predicate DistinctNames(slots: seq<Slot>) {
    forall i, j | 0 <= i < j < |slots| && slots[i].name.Some? :: slots[i].name != slots[j].name
  }

  ghost predicate SlotsHold(slots: seq<Slot>, holders: map<Holder, Obj>) {
    && (forall i :: InSlot(i) in holders <==> 0 <= i < |slots|)
    && (forall i | 0 <= i < |slots| :: slots[i].value == Some(holders[InSlot(i)]))
  }

  ghost predicate Filled(slots: seq<Slot>) {
    forall i | 0 <= i < |slots| :: slots[i].value.Some?
  }

  /** The map that a table of slots stands for. A slot whose name could not be copied is in no map. */
  ghost function Bindings(slots: seq<Slot>): map<string, Obj> {
    if slots == [] then map[]
    else
      var last := slots[|slots| - 1];
      var rest := Bindings(slots[..|slots| - 1]);
      if last.name.Some? && last.value.Some? then rest[last.name.value := last.value.value] else rest
  }

  lemma {:induction false} BindingsAt(slots: seq<Slot>, n: string)
    requires DistinctNames(slots) && Filled(slots)
    ensures n in Bindings(slots) <==> exists i :: 0 <= i < |slots| && slots[i].name == Some(n)
    ensures forall i | 0 <= i < |slots| && slots[i].name == Some(n) ::
      n in Bindings(slots) && slots[i].value == Some(Bindings(slots)[n])
  {
    if slots == [] {
    } else {
      var less := slots[..|slots| - 1];
      BindingsAt(less, n);
      assert forall i | 0 <= i < |less| :: less[i] == slots[i];
      if n in Bindings(less) {
        var i :| 0 <= i < |less| && less[i].name == Some(n);
        assert slots[i].name == Some(n);
      }
    }
  }

  /** One more named slot is one more binding; one more nameless slot changes nothing. */
  lemma BindingsAppend(slots: seq<Slot>, name: Option<string>, o: Obj)
    ensures Bindings(slots + [Slot(name, Some(o))])
         == if name.Some? then Bindings(slots)[name.value := o] else Bindings(slots)
  {
    assert (slots + [Slot(name, Some(o))])[..|slots|] == slots;
  }

  /** Another value in a slot is another value for its name, and for no other. */
  lemma BindingsUpdate(slots: seq<Slot>, i: nat, n: string, o: Obj)
    requires DistinctNames(slots) && Filled(slots) && i < |slots| && slots[i].name == Some(n)
    ensures DistinctNames(slots[i := Slot(Some(n), Some(o))]) && Filled(slots[i := Slot(Some(n), Some(o))])
    ensures Bindings(slots[i := Slot(Some(n), Some(o))]) == Bindings(slots)[n := o]
  {
    var next := slots[i := Slot(Some(n), Some(o))];
    forall m ensures m in Bindings(next) <==> m in Bindings(slots)[n := o]
      ensures m in Bindings(next) ==> Bindings(next)[m] == Bindings(slots)[n := o][m]
    {
      BindingsAt(slots, m);
      BindingsAt(next, m);
      assert next[i].name == slots[i].name;
      if m in Bindings(slots) {
        var j :| 0 <= j < |slots| && slots[j].name == Some(m);
        assert next[j].name == Some(m);
      }
      if m in Bindings(next) {
        var j :| 0 <= j < |next| && next[j].name == Some(m);
        assert slots[j].name == Some(m);
      }
    }
  }

  lemma AppendKeeps(slots: seq<Slot>, holders: map<Holder, Obj>, name: Option<string>, keep: Holder, o: Obj)
    requires DistinctNames(slots) && Filled(slots) && SlotsHold(slots, holders) && keep.Program?
    requires name.Some? ==> name.value !in Bindings(slots)
    ensures var more := slots + [Slot(name, Some(o))];
            DistinctNames(more) && Filled(more) && SlotsHold(more, holders[keep := o][InSlot(|slots|) := o])
  {
    var more := slots + [Slot(name, Some(o))];
    forall i, j | 0 <= i < j < |more| && more[i].name.Some? ensures more[i].name != more[j].name {
      BindingsAt(slots, more[i].name.value);
      assert more[i] == slots[i];
    }
  }

  // ---------------------------------------------------------------- the references

  /** A reference taken for a store goes into the slot, whose own one, if any, is given back. */
  lemma HandOverConserves(g: Heap<Holder>, i: int)
    requires Conserved(g) && Storing in g.holders
    ensures var less := if InSlot(i) in g.holders then Dec(g, InSlot(i)) else g;
            && Conserved(Move(less, Storing, InSlot(i)))
            && Move(less, Storing, InSlot(i)).holders == (g.holders - {Storing})[InSlot(i) := g.holders[Storing]]
  {
    if InSlot(i) in g.holders {
      DecConserves(g, InSlot(i));
      MoveConserves(Dec(g, InSlot(i)), Storing, InSlot(i));
    } else {
      MoveConserves(g, Storing, InSlot(i));
    }
  }

  // ---------------------------------------------------------------- the store

  class Store {
    var slots: array<Slot>
    var used: nat
    var heap: Heap<Holder>

    ghost predicate Valid()
      reads this, slots
    {
      && used <= slots.Length
      && Doubled(slots.Length)
      && DistinctNames(slots[..used])
      && Filled(slots[..used])
      && SlotsHold(slots[..used], heap.holders)
      && Storing !in heap.holders
      && Conserved(heap)
    }

    ghost function Contents(): map<string, Obj>
      reads this, slots
      requires used <= slots.Length
    {
      Bindings(slots[..used])
    }

    constructor (heap: Heap<Holder>)
      requires Conserved(heap) && forall h | h in heap.holders :: h.Program?
      ensures Valid() && fresh(slots) && used == 0 && slots.Length == 0 && this.heap == heap && Contents() == map[]
    {
      slots := new Slot[0];
      used := 0;
      this.heap := heap;
    }

    method FindSlot(name: Option<string>) returns (i: int)
      requires Valid()
      ensures i == -1 || (0 <= i < used && name.Some? && slots[i].name == name)
      ensures i == -1 <==> name.None? || name.value !in Contents()
    {
      if name.Some? {
        BindingsAt(slots[..used], name.value);
        for k := 0 to used
          invariant forall j | 0 <= j < k :: slots[j].name != name
        {
          if slots[k].name == name {
            assert slots[..used][k].name == name;
            return k;
          }
        }
        assert forall j | 0 <= j < used :: slots[..used][j] == slots[j];
      }
      return -1;
    }

    /** The value of the name, with a reference for whoever asked, or nothing. */
    method Get(name: Option<string>, reader: Holder) returns (value: Option<Obj>)
      requires Valid() && reader.Program? && reader !in heap.holders
      modifies `heap
      ensures Valid() && Contents() == old(Contents())
      ensures value == if name.Some? && name.value in Contents() then Some(Contents()[name.value]) else None
      ensures heap.holders == if value.Some? then old(heap.holders)[reader := value.value] else old(heap.holders)
    {
      var i := FindSlot(name);
      if i < 0 {
        return None;
      }
      BindingsAt(slots[..used], name.value);
      assert slots[..used][i] == slots[i];
      value := slots[i].value;
      assert InSlot(i) in heap.holders;
      IncConserves(heap, reader, value.value, InSlot(i));
      heap := Inc(heap, reader, value.value);
    }

    /** Makes room for one more slot; a failed reallocation changes nothing. */
    method Grow(reallocated: bool) returns (ok: bool)
      requires Valid()
      modifies `slots
      ensures Valid() && Contents() == old(Contents())
      ensures ok <==> used < slots.Length
      ensures !ok ==> slots == old(slots)
      ensures ok <==> old(used < slots.Length) || reallocated
      ensures slots == old(slots) || (fresh(slots) && slots[..used] == old(slots[..used]))
      ensures slots.Length == if old(used < slots.Length) || !reallocated then old(slots.Length)
        else if old(slots.Length) == 0 then FIRST_CAPACITY else 2 * old(slots.Length)
    {
      if used < slots.Length {
        return true;
      }
      if !reallocated {
        return false;
      }
      var grown := if slots.Length != 0 then slots.Length * 2 else FIRST_CAPACITY;
      assert Doubled(grown) by {
        assert slots.Length != 0 ==> grown / 2 == slots.Length;
      }
      var moved := new Slot[grown](_ => Slot(None, None));
      for k := 0 to used
        invariant slots == old(slots) && used <= slots.Length
        invariant moved[..k] == slots[..k]
      {
        moved[k] := slots[k];
      }
      assert moved[..used] == slots[..used];
      slots := moved;
      return true;
    }

    /** Binds the name to the value. With no name, no value, or no room for a new name nothing
        changes. Whoever assigns keeps a reference, the slot has exactly one, and the reference of
        the slot's previous value is gone. */
    method Set(name: Option<string>, value: Option<Obj>, lender: Holder, keep: Holder, reallocated: bool, copied: bool)
        returns (result: Option<Obj>)
      requires Valid() && keep.Program? && keep !in heap.holders
      requires value.Some? ==> lender in heap.holders && heap.holders[lender] == value.value
      modifies this, slots
      ensures Valid() && (slots == old(slots) || fresh(slots))
      ensures result == if name.Some? && value.Some?
          && old(name.value in Contents() || used < slots.Length || reallocated)
        then value else None
      ensures result == None ==>
          slots == old(slots) && slots[..] == old(slots[..]) && used == old(used) && heap == old(heap)
      ensures result.Some? ==> Contents() == if old(name.value in Contents()) || copied
        then old(Contents())[name.value := value.value] else old(Contents())
      ensures result.Some? ==> used == if old(name.value in Contents()) then old(used) else old(used) + 1
      ensures result.Some? ==> HeldBy(old(heap.holders), name, keep, value.value, if copied then -1 else old(used))
    {
      if name.None? || value.None? {
        return None;
      }
      var i := FindSlot(name);
      if i < 0 {
        var ok := Grow(reallocated);
        if !ok {
          return None;
        }
        Append(if copied then name else None, value.value, lender, keep);
        assert slots[..used][used - 1] == slots[used - 1];
        return value;
      }
      Replace(i, value.value, lender, keep);
      return value;
    }

    /** The holders are those of before, and `keep`, and the slot of the name, or else slot `nameless`. */
    ghost predicate HeldBy(holders: map<Holder, Obj>, name: Option<string>, keep: Holder, o: Obj, nameless: int)
      reads this, slots
      requires used <= slots.Length
    {
      exists i :: 0 <= i < used && (slots[i].name == name || i == nameless)
          && heap.holders == holders[keep := o][InSlot(i) := o]
    }

    /** The reference-count operations of a store into slot `i`: one reference for the slot and one
        for the assignment, and only then the slot's old one back, which may be on the same object. */
    method Exchange(i: nat, o: Obj, lender: Holder, keep: Holder)
      requires Conserved(heap) && keep.Program? && keep !in heap.holders && Storing !in heap.holders
      requires lender in heap.holders && heap.holders[lender] == o
      modifies `heap
      ensures Conserved(heap)
      ensures heap.holders == old(heap.holders)[keep := o][InSlot(i) := o]
    {
      TakeTwo(o, lender, keep);
      HandOver(i);
    }

    method TakeTwo(o: Obj, lender: Holder, keep: Holder)
      requires Conserved(heap) && keep.Program? && keep !in heap.holders && Storing !in heap.holders
      requires lender in heap.holders && heap.holders[lender] == o
      modifies `heap
      ensures Conserved(heap) && heap.holders == old(heap.holders)[keep := o][Storing := o]
    {
      IncConserves(heap, Storing, o, lender);
      heap := Inc(heap, Storing, o);
      IncConserves(heap, keep, o, Storing);
      heap := Inc(heap, keep, o);
    }

    method HandOver(i: nat)
      requires Conserved(heap) && Storing in heap.holders
      modifies `heap
      ensures Conserved(heap) && heap.holders == old((heap.holders - {Storing})[InSlot(i) := heap.holders[Storing]])
    {
      HandOverConserves(heap, i);
      if InSlot(i) in heap.holders {
        heap := Dec(heap, InSlot(i));
      }
      heap := Move(heap, Storing, InSlot(i));
    }

    method Replace(i: nat, o: Obj, lender: Holder, keep: Holder)
      requires Valid() && i < used && slots[i].name.Some? && keep.Program? && keep !in heap.holders
      requires lender in heap.holders && heap.holders[lender] == o
      modifies `heap, slots
      ensures Valid()
      ensures Contents() == old(Contents())[old(slots[i].name.value) := o]
      ensures slots[..used] == old(slots[..used])[i := Slot(old(slots[i].name), Some(o))]
      ensures heap.holders == old(heap.holders)[keep := o][InSlot(i) := o]
    {
      ghost var before := slots[..used];
      assert before[i] == slots[i] && InSlot(i) in heap.holders;
      BindingsUpdate(before, i, slots[i].name.value, o);
      Exchange(i, o, lender, keep);
      slots[i] := Slot(slots[i].name, Some(o));
      assert slots[..used] == before[i := slots[i]];
    }

    /** Fills the next free slot. */
    method Append(name: Option<string>, o: Obj, lender: Holder, keep: Holder)
      requires Valid() && used < slots.Length && (name.Some? ==> name.value !in Contents())
      requires keep.Program? && keep !in heap.holders && lender in heap.holders && heap.holders[lender] == o
      modifies `heap, `used, slots
      ensures Valid() && used == old(used) + 1
      ensures slots[..used] == old(slots[..used]) + [Slot(name, Some(o))]
      ensures Contents() == if name.Some? then old(Contents())[name.value := o] else old(Contents())
      ensures heap.holders == old(heap.holders)[keep := o][InSlot(old(used)) := o]
    {
      var i := used;
      ghost var before := slots[..used];
      AppendKeeps(before, heap.holders, name, keep, o);
      BindingsAppend(before, name, o);
      used := used + 1;
      slots[i] := Slot(name, None);
      Exchange(i, o, lender, keep);
      slots[i] := Slot(name, Some(o));
      assert slots[..used] == before + [Slot(name, Some(o))];
    }
  }
}
