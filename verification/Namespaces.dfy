/** Scopes and the free type variables of an environment (`Namespace::collect_free_vars`,
    src/frontend/checker/namespace.cpp): the names of a scope in no particular order, then those
    of the enclosing scope. */
module Namespaces {
  import opened Types
  import opened Bindings
  import opened Schemes
  import opened Unification

  // ---------------------------------------------------------------- the walk over the scopes

  /** What the accumulator holds after the scopes, innermost first. */
  ghost function CollectScopes(b: Store, r: int -> nat, scopes: seq<seq<Ty>>, acc: set<int>): set<int>
    requires Ranked(b, r)
    decreases |scopes|
  {
    if scopes == [] then acc else CollectScopes(b, r, scopes[1..], CollectAll(b, r, scopes[0], acc))
  }

  // ---------------------------------------------------------------- what one entry does to one id

  /** The walk over the entry adds the id, or removes it; an entry that does neither leaves it. */
  ghost predicate Adds(b: Store, r: int -> nat, t: Ty, x: int)
    requires Ranked(b, r)
  {
    x in Collect(b, r, t, {})
  }

  ghost predicate Removes(b: Store, r: int -> nat, t: Ty, x: int)
    requires Ranked(b, r)
  {
    x !in Collect(b, r, t, {x})
  }

  /** Whether the walk ends with `x` depends on whether it starts with `x`, and on no other id. */
  lemma {:induction false} OneIdAtATime(b: Store, r: int -> nat, t: Ty, acc: set<int>, x: int)
    requires Ranked(b, r)
    ensures x in Collect(b, r, t, acc) <==> if x in acc then !Removes(b, r, t, x) else Adds(b, r, t, x)
    ensures Adds(b, r, t, x) ==> !Removes(b, r, t, x)
    decreases Top(r, t), t
  {
    match t
    case Var(y) =>
      if y in b {
        OneIdAtATime(b, r, b[y], acc, x);
      }
    case Node(h, kids) =>
      if !h.Tensor? {
        OneIdInAll(b, r, kids, acc, x);
      }
  }

  lemma {:induction false} OneIdInAll(b: Store, r: int -> nat, ts: seq<Ty>, acc: set<int>, x: int)
    requires Ranked(b, r)
    ensures x in CollectAll(b, r, ts, acc) <==> x in CollectAll(b, r, ts, if x in acc then {x} else {})
    ensures x in CollectAll(b, r, ts, {}) ==> x in CollectAll(b, r, ts, {x})
    decreases TopOf(r, ts), ts
  {
    if ts == [] {
    } else {
      var rest := ts[1..];
      OneIdAtATime(b, r, ts[0], acc, x);
      OneIdInAll(b, r, rest, Collect(b, r, ts[0], acc), x);
      OneIdInAll(b, r, rest, Collect(b, r, ts[0], {}), x);
      OneIdInAll(b, r, rest, Collect(b, r, ts[0], {x}), x);
    }
  }

  /** The ids that are free in a resolved term: a scheme binds those it quantifies. */
  ghost function TrulyFree(t: Ty): set<int> {
    match t
    case Var(x) => {x}
    case Node(h, kids) =>
      (set i, x | 0 <= i < |kids| && x in TrulyFree(kids[i]) :: x) - if h.Poly? then h.bound else {}
  }

  /** The walk adds nothing that is not free. */
  lemma {:induction false} AddedIsFree(b: Store, r: int -> nat, t: Ty, acc: set<int>, x: int)
    requires Ranked(b, r) && x in Collect(b, r, t, acc) && x !in acc
    ensures x in TrulyFree(Full(b, r, t))
    decreases Top(r, t), t
  {
    match t
    case Var(y) =>
      if y in b {
        AddedIsFree(b, r, b[y], acc, x);
      }
    case Node(h, kids) =>
      var i := AddedBySome(b, r, kids, acc, x);
      assert Full(b, r, t).kids[i] == Full(b, r, kids[i]);
  }

  lemma {:induction false} AddedBySome(b: Store, r: int -> nat, ts: seq<Ty>, acc: set<int>, x: int) returns (i: nat)
    requires Ranked(b, r) && x in CollectAll(b, r, ts, acc) && x !in acc
    ensures i < |ts| && x in TrulyFree(Full(b, r, ts[i]))
    decreases TopOf(r, ts), ts
  {
    var next := Collect(b, r, ts[0], acc);
    if x in next {
      AddedIsFree(b, r, ts[0], acc, x);
      i := 0;
    } else {
      i := AddedBySome(b, r, ts[1..], next, x);
      i := i + 1;
    }
  }

  /** An entry that is quantified at most at its root adds what is free in it, and removes what it
      quantifies. */
  lemma {:induction false} PrenexEntry(b: Store, r: int -> nat, t: Ty, x: int)
    requires Ranked(b, r) && MonoLinks(b) && Prenex(t)
    ensures Adds(b, r, t, x) <==> x in SchemeFree(b, r, t)
    ensures Removes(b, r, t, x) <==> x in Quantified(t)
  {
    CollectPrenex(b, r, t, {});
    CollectPrenex(b, r, t, {x});
  }

  // ---------------------------------------------------------------- what a scope does to one id

  ghost predicate FreeIn(b: Store, r: int -> nat, ts: seq<Ty>, x: int)
    requires Ranked(b, r)
  {
    exists t :: t in ts && x in TrulyFree(Full(b, r, t))
  }

  ghost predicate AddedIn(b: Store, r: int -> nat, ts: seq<Ty>, x: int)
    requires Ranked(b, r)
  {
    exists t :: t in ts && Adds(b, r, t, x)
  }

  ghost predicate RemovedIn(b: Store, r: int -> nat, ts: seq<Ty>, x: int)
    requires Ranked(b, r)
  {
    exists t :: t in ts && Removes(b, r, t, x)
  }

  /** ... in a scope from number `k` outwards. */
  ghost predicate FreeFrom(b: Store, r: int -> nat, scopes: seq<seq<Ty>>, k: nat, x: int)
    requires Ranked(b, r)
  {
    exists i :: k <= i < |scopes| && FreeIn(b, r, scopes[i], x)
  }

  ghost predicate AddedFrom(b: Store, r: int -> nat, scopes: seq<seq<Ty>>, k: nat, x: int)
    requires Ranked(b, r)
  {
    exists i :: k <= i < |scopes| && AddedIn(b, r, scopes[i], x)
  }

  /** The same scopes, each with its entries in some order. */
  ghost predicate SameScopes(scopes: seq<seq<Ty>>, orders: seq<seq<Ty>>) {
    |scopes| == |orders| && forall k | 0 <= k < |scopes| :: SameEntries(scopes[k], orders[k])
  }

  lemma {:induction false} OneScope(b: Store, r: int -> nat, ts: seq<Ty>, acc: set<int>, x: int)
    requires Ranked(b, r)
    ensures x in CollectAll(b, r, ts, acc) ==> x in acc || AddedIn(b, r, ts, x)
    ensures x !in CollectAll(b, r, ts, acc) ==> (x !in acc && !AddedIn(b, r, ts, x)) || RemovedIn(b, r, ts, x)
    ensures RemovedIn(b, r, ts, x) && !AddedIn(b, r, ts, x) ==> x !in CollectAll(b, r, ts, acc)
  {
    if ts == [] {
    } else {
      InFirstOrRest(ts);
      OneIdAtATime(b, r, ts[0], acc, x);
      OneScope(b, r, ts[1..], Collect(b, r, ts[0], acc), x);
    }
  }

  lemma AddedFromTail(b: Store, r: int -> nat, scopes: seq<seq<Ty>>, k: nat, x: int)
    requires Ranked(b, r) && scopes != []
    ensures AddedFrom(b, r, scopes[1..], k, x) <==> AddedFrom(b, r, scopes, k + 1, x)
    ensures AddedFrom(b, r, scopes, 0, x) <==> AddedIn(b, r, scopes[0], x) || AddedFrom(b, r, scopes, 1, x)
  {
    var rest := scopes[1..];
    if AddedFrom(b, r, scopes, k + 1, x) {
      var i :| k + 1 <= i < |scopes| && AddedIn(b, r, scopes[i], x);
      assert rest[i - 1] == scopes[i];
    }
    if AddedFrom(b, r, rest, k, x) {
      var i :| k <= i < |rest| && AddedIn(b, r, rest[i], x);
      assert scopes[i + 1] == rest[i];
    }
  }

  lemma AddedFromDrop(b: Store, r: int -> nat, scopes: seq<seq<Ty>>, k: nat, x: int)
    requires Ranked(b, r) && k <= |scopes|
    ensures AddedFrom(b, r, scopes[k..], 0, x) ==> AddedFrom(b, r, scopes, k, x)
  {
    if AddedFrom(b, r, scopes[k..], 0, x) {
      var i :| 0 <= i < |scopes[k..]| && AddedIn(b, r, scopes[k..][i], x);
      assert scopes[k + i] == scopes[k..][i];
    }
  }

  /** Wherever a scope removes the id, one further out adds it. */
  ghost predicate AddedFurtherOut(b: Store, r: int -> nat, scopes: seq<seq<Ty>>, x: int)
    requires Ranked(b, r)
  {
    forall k | 0 <= k < |scopes| && RemovedIn(b, r, scopes[k], x) :: AddedFrom(b, r, scopes, k + 1, x)
  }

  lemma {:induction false} CollectedIfFurtherOut(b: Store, r: int -> nat, scopes: seq<seq<Ty>>, acc: set<int>, x: int)
    requires Ranked(b, r) && AddedFurtherOut(b, r, scopes, x) && (x in acc || AddedFrom(b, r, scopes, 0, x))
    ensures x in CollectScopes(b, r, scopes, acc)
    decreases |scopes|
  {
    if scopes == [] {
    } else {
      var rest, next := scopes[1..], CollectAll(b, r, scopes[0], acc);
      OneScope(b, r, scopes[0], acc, x);
      AddedFromTail(b, r, scopes, 0, x);
      assert RemovedIn(b, r, scopes[0], x) ==> AddedFrom(b, r, scopes, 1, x);
      forall k | 0 <= k < |rest| && RemovedIn(b, r, rest[k], x) ensures AddedFrom(b, r, rest, k + 1, x) {
        assert rest[k] == scopes[k + 1];
        AddedFromTail(b, r, scopes, k + 1, x);
      }
      CollectedIfFurtherOut(b, r, rest, next, x);
    }
  }

  /** What is not added any more is not collected any more. */
  lemma {:induction false} NotCollected(b: Store, r: int -> nat, scopes: seq<seq<Ty>>, acc: set<int>, x: int)
    requires Ranked(b, r) && x !in acc && !AddedFrom(b, r, scopes, 0, x)
    ensures x !in CollectScopes(b, r, scopes, acc)
    decreases |scopes|
  {
    if scopes == [] {
    } else {
      OneScope(b, r, scopes[0], acc, x);
      AddedFromTail(b, r, scopes, 0, x);
      NotCollected(b, r, scopes[1..], CollectAll(b, r, scopes[0], acc), x);
    }
  }

  lemma {:induction false} CollectScopesSplit(b: Store, r: int -> nat, scopes: seq<seq<Ty>>, k: nat, acc: set<int>)
    requires Ranked(b, r) && k <= |scopes|
    ensures CollectScopes(b, r, scopes, acc) == CollectScopes(b, r, scopes[k..], CollectScopes(b, r, scopes[..k], acc))
    decreases k
  {
    if k == 0 {
    } else {
      CollectScopesSplit(b, r, scopes[1..], k - 1, CollectAll(b, r, scopes[0], acc));
      assert scopes[1..][k - 1..] == scopes[k..] && scopes[1..][..k - 1] == scopes[..k][1..];
    }
  }

  // ---------------------------------------------------------------- the orders of the entries

  lemma SameScopesDo(b: Store, r: int -> nat, scopes: seq<seq<Ty>>, orders: seq<seq<Ty>>, x: int)
    requires Ranked(b, r) && SameScopes(scopes, orders)
    ensures forall k | 0 <= k < |scopes| :: AddedIn(b, r, orders[k], x) <==> AddedIn(b, r, scopes[k], x)
    ensures forall k | 0 <= k < |scopes| :: RemovedIn(b, r, orders[k], x) <==> RemovedIn(b, r, scopes[k], x)
    ensures forall k: nat :: AddedFrom(b, r, orders, k, x) <==> AddedFrom(b, r, scopes, k, x)
  {
    forall k | 0 <= k < |scopes| ensures forall t :: t in orders[k] <==> t in scopes[k] {
      SameEntriesContain(scopes[k], orders[k]);
    }
    forall k: nat ensures AddedFrom(b, r, orders, k, x) <==> AddedFrom(b, r, scopes, k, x) {
      if AddedFrom(b, r, scopes, k, x) {
        var i :| k <= i < |scopes| && AddedIn(b, r, scopes[i], x);
        assert AddedIn(b, r, orders[i], x);
      }
      if AddedFrom(b, r, orders, k, x) {
        var i :| k <= i < |orders| && AddedIn(b, r, orders[i], x);
        assert AddedIn(b, r, scopes[i], x);
      }
    }
  }

  /** The scopes with the entries of scope `k` reordered so that `t` comes last, which decides about
      `x` as far as that scope. */
  lemma LastInScope(b: Store, r: int -> nat, scopes: seq<seq<Ty>>, k: nat, t: Ty, x: int)
      returns (orders: seq<seq<Ty>>, after: set<int>)
    requires Ranked(b, r) && k < |scopes| && t in scopes[k]
    ensures SameScopes(scopes, orders) && orders[k + 1..] == scopes[k + 1..]
    ensures CollectScopes(b, r, orders, {}) == CollectScopes(b, r, scopes[k + 1..], after)
    ensures (Removes(b, r, t, x) ==> x !in after) && (Adds(b, r, t, x) ==> x in after)
  {
    var i :| 0 <= i < |scopes[k]| && scopes[k][i] == t;
    var rest := scopes[k][..i] + scopes[k][i + 1..];
    assert scopes[k] == scopes[k][..i] + [t] + scopes[k][i + 1..];
    orders := scopes[k := rest + [t]];
    var before := CollectScopes(b, r, orders[..k], {});
    CollectScopesSplit(b, r, orders, k, {});
    CollectAllSplit(b, r, rest, [t], before);
    OneIdAtATime(b, r, t, CollectAll(b, r, rest, before), x);
    after := CollectAll(b, r, rest + [t], before);
    assert orders[k..][0] == rest + [t] && orders[k..][1..] == orders[k + 1..] == scopes[k + 1..];
    assert CollectAll(b, r, [t], CollectAll(b, r, rest, before)) == after;
  }

  /** An id is collected whatever the order of the entries exactly when a scope adds it and, wherever
      one removes it, one further out adds it. */
  lemma {:induction false} AlwaysCollectedIff(b: Store, r: int -> nat, scopes: seq<seq<Ty>>, x: int)
    requires Ranked(b, r)
    ensures (forall orders | SameScopes(scopes, orders) :: x in CollectScopes(b, r, orders, {}))
      <==> AddedFrom(b, r, scopes, 0, x) && AddedFurtherOut(b, r, scopes, x)
  {
    if !AddedFrom(b, r, scopes, 0, x) {
      NotCollected(b, r, scopes, {}, x);
      assert SameScopes(scopes, scopes);
    } else if AddedFurtherOut(b, r, scopes, x) {
      forall orders | SameScopes(scopes, orders) ensures x in CollectScopes(b, r, orders, {}) {
        SameScopesDo(b, r, scopes, orders, x);
        assert AddedFurtherOut(b, r, orders, x);
        CollectedIfFurtherOut(b, r, orders, {}, x);
      }
    } else {
      var k :| 0 <= k < |scopes| && RemovedIn(b, r, scopes[k], x) && !AddedFrom(b, r, scopes, k + 1, x);
      var t :| t in scopes[k] && Removes(b, r, t, x);
      var orders, after := LastInScope(b, r, scopes, k, t, x);
      AddedFromDrop(b, r, scopes, k + 1, x);
      NotCollected(b, r, scopes[k + 1..], after, x);
    }
  }

  /** A scope removes the id, and neither that one nor one further out adds it. */
  ghost predicate RemovedForGood(b: Store, r: int -> nat, scopes: seq<seq<Ty>>, x: int)
    requires Ranked(b, r)
  {
    exists k :: 0 <= k < |scopes| && RemovedIn(b, r, scopes[k], x) && !AddedFrom(b, r, scopes, k, x)
  }

  /** An id is collected in no order of the entries exactly when no scope adds it, or one removes it
      for good. */
  lemma {:induction false} NeverCollectedIff(b: Store, r: int -> nat, scopes: seq<seq<Ty>>, x: int)
    requires Ranked(b, r)
    ensures (forall orders | SameScopes(scopes, orders) :: x !in CollectScopes(b, r, orders, {}))
      <==> !AddedFrom(b, r, scopes, 0, x) || RemovedForGood(b, r, scopes, x)
  {
    if !AddedFrom(b, r, scopes, 0, x) {
      forall orders | SameScopes(scopes, orders) ensures x !in CollectScopes(b, r, orders, {}) {
        SameScopesDo(b, r, scopes, orders, x);
        NotCollected(b, r, orders, {}, x);
      }
    } else if RemovedForGood(b, r, scopes, x) {
      var k :| 0 <= k < |scopes| && RemovedIn(b, r, scopes[k], x) && !AddedFrom(b, r, scopes, k, x);
      forall orders | SameScopes(scopes, orders) ensures x !in CollectScopes(b, r, orders, {}) {
        SameScopesDo(b, r, scopes, orders, x);
        GoneAfter(b, r, orders, k, x);
      }
    } else {
      var k := LastAdding(b, r, scopes, x);
      var t :| t in scopes[k] && Adds(b, r, t, x);
      var orders, after := LastInScope(b, r, scopes, k, t, x);
      var later := scopes[k + 1..];
      forall j | 0 <= j < |later| ensures !RemovedIn(b, r, later[j], x) {
        assert later[j] == scopes[k + 1 + j];
        assert !AddedFrom(b, r, scopes, k + 1 + j, x);
      }
      CollectedIfFurtherOut(b, r, later, after, x);
    }
  }

  lemma GoneAfter(b: Store, r: int -> nat, scopes: seq<seq<Ty>>, k: nat, x: int)
    requires Ranked(b, r) && k < |scopes| && RemovedIn(b, r, scopes[k], x) && !AddedFrom(b, r, scopes, k, x)
    ensures x !in CollectScopes(b, r, scopes, {})
  {
    CollectScopesSplit(b, r, scopes, k, {});
    var before := CollectScopes(b, r, scopes[..k], {});
    OneScope(b, r, scopes[k], before, x);
    assert scopes[k..][0] == scopes[k] && scopes[k..][1..] == scopes[k + 1..];
    AddedFromDrop(b, r, scopes, k + 1, x);
    NotCollected(b, r, scopes[k + 1..], CollectAll(b, r, scopes[k], before), x);
  }

  lemma {:induction false} LastAdding(b: Store, r: int -> nat, scopes: seq<seq<Ty>>, x: int) returns (k: nat)
    requires Ranked(b, r) && AddedFrom(b, r, scopes, 0, x)
    ensures k < |scopes| && AddedIn(b, r, scopes[k], x) && !AddedFrom(b, r, scopes, k + 1, x)
    decreases |scopes|
  {
    AddedFromTail(b, r, scopes, 0, x);
    if AddedFrom(b, r, scopes, 1, x) {
      k := LastAdding(b, r, scopes[1..], x);
      AddedFromTail(b, r, scopes, k + 1, x);
      k := k + 1;
    } else {
      k := 0;
    }
  }

  // ---------------------------------------------------------------- when the walk finds the free ids

  ghost predicate FindsFree(b: Store, r: int -> nat, scopes: seq<seq<Ty>>, orders: seq<seq<Ty>>)
    requires Ranked(b, r)
  {
    forall x :: x in CollectScopes(b, r, orders, {}) <==> FreeFrom(b, r, scopes, 0, x)
  }

  lemma AddedFromIsFree(b: Store, r: int -> nat, scopes: seq<seq<Ty>>, k: nat, x: int)
    requires Ranked(b, r) && AddedFrom(b, r, scopes, k, x)
    ensures FreeFrom(b, r, scopes, k, x)
  {
    var i :| k <= i < |scopes| && AddedIn(b, r, scopes[i], x);
    var t :| t in scopes[i] && Adds(b, r, t, x);
    AddedIsFree(b, r, t, {}, x);
    assert FreeIn(b, r, scopes[i], x);
  }

  /** Whatever the order of the names in their scopes, the walk finds exactly the ids that are free
      in an entry, if and only if for each of those an entry adds it (a tensor adds nothing), and an
      entry further out than wherever one removes it. */
  lemma {:induction false} FindsFreeIff(b: Store, r: int -> nat, scopes: seq<seq<Ty>>)
    requires Ranked(b, r)
    ensures (forall orders | SameScopes(scopes, orders) :: FindsFree(b, r, scopes, orders))
      <==> forall x | FreeFrom(b, r, scopes, 0, x) ::
             AddedFrom(b, r, scopes, 0, x) && AddedFurtherOut(b, r, scopes, x)
  {
    if forall orders | SameScopes(scopes, orders) :: FindsFree(b, r, scopes, orders) {
      forall x | FreeFrom(b, r, scopes, 0, x)
        ensures AddedFrom(b, r, scopes, 0, x) && AddedFurtherOut(b, r, scopes, x)
      {
        AlwaysCollectedIff(b, r, scopes, x);
      }
    }
    if forall x | FreeFrom(b, r, scopes, 0, x) :: AddedFrom(b, r, scopes, 0, x) && AddedFurtherOut(b, r, scopes, x) {
      forall orders, x | SameScopes(scopes, orders)
        ensures x in CollectScopes(b, r, orders, {}) <==> FreeFrom(b, r, scopes, 0, x)
      {
        AlwaysCollectedIff(b, r, scopes, x);
        SameScopesDo(b, r, scopes, orders, x);
        if !FreeFrom(b, r, scopes, 0, x) {
          if AddedFrom(b, r, scopes, 0, x) {
            AddedFromIsFree(b, r, scopes, 0, x);
          }
          NotCollected(b, r, orders, {}, x);
        }
      }
    }
  }

  /** A name whose type is the variable 0 in a scope inside one with a name of type `forall 0. 0`:
      every order loses the id. That happens: an indexed vector has as its type a variable with the
      next id, which a declaration generalises, and the parameter without an annotation of the next
      function has a variable with the same id (`UnificationContext.MadeWithNextId`). */
  lemma OuterSchemeLosesId()
    ensures var scopes := [[Var(0)], [Node(Poly({0}), [Var(0)])]];
            && FreeFrom(Unlinked(), NoRank(), scopes, 0, 0)
            && forall orders | SameScopes(scopes, orders) :: 0 !in CollectScopes(Unlinked(), NoRank(), orders, {})
  {
    var b, r, scheme := Unlinked(), NoRank(), Node(Poly({0}), [Var(0)]);
    var scopes := [[Var(0)], [scheme]];
    assert Full(b, r, Var(0)) == Var(0) && Var(0) in scopes[0];
    assert FreeIn(b, r, scopes[0], 0);
    PrenexEntry(b, r, scheme, 0);
    assert Mono(Var(0)) && IsScheme(scheme);
    assert scheme in scopes[1] && forall t | t in scopes[1] :: t == scheme;
    assert RemovedIn(b, r, scopes[1], 0) && !AddedIn(b, r, scopes[1], 0);
    NeverCollectedIff(b, r, scopes, 0);
  }

  // ---------------------------------------------------------------- the scope chain

  /** A name that is put into a scope. */
  datatype Entry = Entry(name: string, type_: Ty, isMutable: bool)

  /** The names of a scope and those of them that are constant. */
  datatype Table = Table(names: map<string, Ty>, consts: set<string>)

  /** `put_key`: a constant stays what it is. */
  function Put(t: Table, e: Entry): Table {
    if e.name in t.names && e.name in t.consts then t
    else Table(t.names[e.name := e.type_], if e.isMutable then t.consts else t.consts + {e.name})
  }

  function PutAll(t: Table, entries: seq<Entry>): Table
    decreases |entries|
  {
    if entries == [] then t else PutAll(Put(t, entries[0]), entries[1..])
  }

  /** Whatever is put into the scope later, a constant keeps the type it was put in with first. */
  lemma {:induction false} ConstantStays(t: Table, entries: seq<Entry>, name: string)
    requires name in t.names && name in t.consts
    ensures var after := PutAll(t, entries);
      name in after.names && name in after.consts && after.names[name] == t.names[name]
    decreases |entries|
  {
    if entries == [] {
    } else {
      ConstantStays(Put(t, entries[0]), entries[1..], name);
    }
  }

  /** Otherwise it has the type of its first constant entry, and is constant, ... */
  lemma {:induction false} FirstConstantStays(t: Table, entries: seq<Entry>, i: nat)
    requires i < |entries| && !entries[i].isMutable && entries[i].name !in t.consts
    requires forall j | 0 <= j < i && entries[j].name == entries[i].name :: entries[j].isMutable
    ensures var after, name := PutAll(t, entries), entries[i].name;
      name in after.names && name in after.consts && after.names[name] == entries[i].type_
    decreases i
  {
    if i == 0 {
      ConstantStays(Put(t, entries[0]), entries[1..], entries[0].name);
    } else {
      FirstConstantStays(Put(t, entries[0]), entries[1..], i - 1);
    }
  }

  /** ... or, without one, that of its last entry, and is not. */
  lemma {:induction false} LastMutableCounts(t: Table, entries: seq<Entry>, i: nat)
    requires i < |entries| && entries[i].name !in t.consts
    requires forall j | 0 <= j < |entries| && entries[j].name == entries[i].name :: entries[j].isMutable && j <= i
    ensures var after, name := PutAll(t, entries), entries[i].name;
      name in after.names && name !in after.consts && after.names[name] == entries[i].type_
    decreases |entries|
  {
    if i == 0 {
      OthersLeaveIt(Put(t, entries[0]), entries[1..], entries[0].name);
    } else {
      LastMutableCounts(Put(t, entries[0]), entries[1..], i - 1);
    }
  }

  lemma {:induction false} OthersLeaveIt(t: Table, entries: seq<Entry>, name: string)
    requires name in t.names && forall j | 0 <= j < |entries| :: entries[j].name != name
    ensures var after := PutAll(t, entries);
      name in after.names && after.names[name] == t.names[name] && (name in after.consts <==> name in t.consts)
    decreases |entries|
  {
    if entries == [] {
    } else {
      OthersLeaveIt(Put(t, entries[0]), entries[1..], name);
    }
  }

  lemma {:induction false} PutAllSplit(t: Table, more: seq<Entry>, entries: seq<Entry>)
    ensures PutAll(t, more + entries) == PutAll(PutAll(t, more), entries)
    decreases |more|
  {
    if more == [] {
      assert more + entries == entries;
    } else {
      assert (more + entries)[0] == more[0] && (more + entries)[1..] == more[1..] + entries;
      PutAllSplit(Put(t, more[0]), more[1..], entries);
    }
  }

  /** The types of the names, in some order. */
  ghost predicate InSomeOrder(names: map<string, Ty>, types: seq<Ty>) {
    exists order: seq<string> :: InOrder(names, order, types)
  }

  ghost predicate InOrder(names: map<string, Ty>, order: seq<string>, types: seq<Ty>) {
    && |order| == |types|
    && (forall i, j | 0 <= i < j < |order| :: order[i] != order[j])
    && (forall n :: n in order <==> n in names)
    && forall i | 0 <= i < |order| :: order[i] in names && types[i] == names[order[i]]
  }

  lemma InOrderContains(names: map<string, Ty>, types: seq<Ty>, n: string)
    requires InSomeOrder(names, types) && n in names
    ensures names[n] in types
  {
    var order :| InOrder(names, order, types);
    var i :| 0 <= i < |order| && order[i] == n;
    assert types[i] == names[n];
  }

  class Namespace {
    var names: map<string, Ty>
    var consts: set<string>
    const parent: Namespace?
    ghost const chain: set<Namespace>

    ghost predicate Valid()
      decreases chain
    {
      this in chain && (parent != null ==> parent.chain == chain - {this} && this !in parent.chain && parent.Valid())
    }

    constructor (parent: Namespace?)
      requires parent != null ==> parent.Valid()
      ensures Valid() && names == map[] && consts == {} && this.parent == parent
    {
      this.parent := parent;
      names, consts := map[], {};
      chain := (if parent == null then {} else parent.chain) + {this};
    }

    method PutKey(name: string, t: Ty, isMutable: bool)
      modifies this
      ensures Table(names, consts) == Put(old(Table(names, consts)), Entry(name, t, isMutable))
    {
      if name in names && name in consts {
        return;
      }
      names := names[name := t];
      if !isMutable {
        consts := consts + {name};
      }
    }

    /** The types of each scope, from this one outwards, with the names in some order. */
    ghost predicate Lists(scopes: seq<seq<Ty>>)
      requires Valid()
      reads chain
      decreases chain
    {
      && scopes != []
      && InSomeOrder(names, scopes[0])
      && (if parent == null then |scopes| == 1 else parent.Lists(scopes[1..]))
    }

    method CollectFreeVars(context: UnificationContext, acc: set<int>) returns (out: set<int>,
          ghost scopes: seq<seq<Ty>>)
      requires Valid() && context.Valid()
      ensures Lists(scopes)
      ensures out == CollectScopes(context.instance, context.rank, scopes, acc)
      decreases chain
    {
      out := acc;
      ghost var order: seq<string>, types: seq<Ty> := [], [];
      var left := names.Keys;
      while left != {}
        invariant left <= names.Keys
        invariant |order| == |types| && forall i, j | 0 <= i < j < |order| :: order[i] != order[j]
        invariant forall n :: n in order <==> n in names && n !in left
        invariant forall i | 0 <= i < |order| :: order[i] in names && types[i] == names[order[i]]
        invariant out == CollectAll(context.instance, context.rank, types, acc)
      {
        var n := AnyOf(left);
        CollectAllSplit(context.instance, context.rank, types, [names[n]], acc);
        out := context.CollectFreeVars(names[n], out);
        order, types, left := order + [n], types + [names[n]], left - {n};
      }
      assert InOrder(names, order, types);
      if parent != null {
        out, scopes := parent.CollectFreeVars(context, out);
        scopes := [types] + scopes;
        assert scopes[0] == types && scopes[1..] == scopes[1..];
      } else {
        scopes := [types];
      }
    }
  }
}
