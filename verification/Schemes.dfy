/** Free-variable collection, substitution and type schemes (the `collect_free_vars` and
    `substitute` members of include/frontend/checker/type.hpp, `generalize` and `instantiate`
    of unification.hpp), as functions of the store. */
module Schemes {
  import opened Types
  import opened Bindings

  // ---------------------------------------------------------------- the code's walks

  /** `collect_free_vars`: what the accumulator holds after the walk over `t`.  A tensor adds
      nothing, and a scheme removes its quantified ids from everything collected so far. */
  ghost function Collect(b: Store, r: int -> nat, t: Ty, acc: set<int>): set<int>
    requires Ranked(b, r)
    decreases Top(r, t), t
  {
    match t
    case Var(x) => if x in b then Collect(b, r, b[x], acc) else acc + {x}
    case Node(h, kids) =>
      if h.Tensor? then acc
      else if h.Poly? then CollectAll(b, r, kids, acc) - h.bound
      else CollectAll(b, r, kids, acc)
  }

  ghost function CollectAll(b: Store, r: int -> nat, ts: seq<Ty>, acc: set<int>): set<int>
    requires Ranked(b, r)
    decreases TopOf(r, ts), ts
  {
    if ts == [] then acc else CollectAll(b, r, ts[1..], Collect(b, r, ts[0], acc))
  }

  /** `substitute`: bound variables are followed, a tensor is kept as it is, a scheme loses its
      quantifier. */
  ghost function Substitute(b: Store, r: int -> nat, t: Ty, m: map<int, Ty>): Ty
    requires Ranked(b, r)
    decreases Top(r, t), t
  {
    match t
    case Var(x) =>
      if x in b then Substitute(b, r, b[x], m) else if x in m then m[x] else t
    case Node(h, kids) =>
      if h.Tensor? then t
      else if h.Poly? && |kids| == 1 then Substitute(b, r, kids[0], m - h.bound)
      else Node(h, seq(|kids|, i requires 0 <= i < |kids| => Substitute(b, r, kids[i], m)))
  }

  // ---------------------------------------------------------------- what they mean

  /** A term without quantifiers and without variables in tensor elements. */
  ghost predicate Mono(t: Ty) {
    match t
    case Var(_) => true
    case Node(h, kids) =>
      !h.Poly? && forall i | 0 <= i < |kids| :: if h.Tensor? then FreeVars(kids[i]) == {} else Mono(kids[i])
  }

  ghost predicate MonoLinks(b: Store) {
    forall x | x in b :: Mono(b[x])
  }

  ghost predicate IsScheme(t: Ty) {
    t.Node? && t.head.Poly? && |t.kids| == 1 && Mono(t.kids[0])
  }

  /** A type as the environment stores it: quantified at most at its root. */
  ghost predicate Prenex(t: Ty) {
    Mono(t) || IsScheme(t)
  }

  ghost function Quantified(t: Ty): set<int> {
    if IsScheme(t) then t.head.bound else {}
  }

  /** The variables of an environment entry that are free in it. */
  ghost function SchemeFree(b: Store, r: int -> nat, t: Ty): set<int>
    requires Ranked(b, r) && Prenex(t)
  {
    if IsScheme(t) then FreeVars(Full(b, r, t.kids[0])) - t.head.bound else FreeVars(Full(b, r, t))
  }

  ghost function AllFree(b: Store, r: int -> nat, ts: seq<Ty>): set<int>
    requires Ranked(b, r)
  {
    set t, x | t in ts && x in FreeVars(Full(b, r, t)) :: x
  }

  ghost function AsAssignment(m: map<int, Ty>): Assignment {
    (x: int) => if x in m then m[x] else Var(x)
  }

  /** The substitution that puts a variable `m[x]` in place of each `x`. */
  ghost function Renaming(m: map<int, int>): Assignment {
    (x: int) => if x in m then Var(m[x]) else Var(x)
  }

  // ---------------------------------------------------------------- the walks mean that

  lemma AllFreeNode(b: Store, r: int -> nat, h: Head, kids: seq<Ty>)
    requires Ranked(b, r)
    ensures FreeVars(Full(b, r, Node(h, kids))) == AllFree(b, r, kids)
  {
    var full := Full(b, r, Node(h, kids)).kids;
    assert forall i | 0 <= i < |kids| :: full[i] == Full(b, r, kids[i]);
    forall x ensures x in FreeVars(Node(h, full)) <==> x in AllFree(b, r, kids) {
      if x in AllFree(b, r, kids) {
        var t :| t in kids && x in FreeVars(Full(b, r, t));
        var i :| 0 <= i < |kids| && kids[i] == t;
        assert x in FreeVars(full[i]);
      }
    }
  }

  lemma {:induction false} CollectMono(b: Store, r: int -> nat, t: Ty, acc: set<int>)
    requires Ranked(b, r) && MonoLinks(b) && Mono(t)
    ensures Collect(b, r, t, acc) == acc + FreeVars(Full(b, r, t))
    decreases Top(r, t), t
  {
    match t
    case Var(x) =>
      if x in b {
        CollectMono(b, r, b[x], acc);
      }
    case Node(h, kids) =>
      if h.Tensor? {
        FullClosed(b, r, t);
      } else {
        CollectAllMono(b, r, kids, acc);
        AllFreeNode(b, r, h, kids);
      }
  }

  lemma {:induction false} CollectAllMono(b: Store, r: int -> nat, ts: seq<Ty>, acc: set<int>)
    requires Ranked(b, r) && MonoLinks(b) && forall i | 0 <= i < |ts| :: Mono(ts[i])
    ensures CollectAll(b, r, ts, acc) == acc + AllFree(b, r, ts)
    decreases TopOf(r, ts), ts
  {
    if ts == [] {
      assert AllFree(b, r, ts) == {};
    } else {
      CollectMono(b, r, ts[0], acc);
      CollectAllMono(b, r, ts[1..], Collect(b, r, ts[0], acc));
      InFirstOrRest(ts);
    }
  }

  lemma InFirstOrRest(ts: seq<Ty>)
    requires ts != []
    ensures forall t :: t in ts <==> t == ts[0] || t in ts[1..]
  {
    assert ts == [ts[0]] + ts[1..];
  }

  lemma {:induction false} SubstituteMono(b: Store, r: int -> nat, t: Ty, m: map<int, Ty>)
    requires Ranked(b, r) && MonoLinks(b) && Mono(t)
    ensures Substitute(b, r, t, m) == Apply(AsAssignment(m), Full(b, r, t))
    decreases Top(r, t), t
  {
    match t
    case Var(x) =>
      if x in b {
        SubstituteMono(b, r, b[x], m);
      }
    case Node(h, kids) =>
      if h.Tensor? {
        FullClosed(b, r, t);
        ApplyIdentity(AsAssignment(m), t);
      } else {
        forall i | 0 <= i < |kids|
          ensures Substitute(b, r, kids[i], m) == Apply(AsAssignment(m), Full(b, r, kids[i]))
        {
          SubstituteMono(b, r, kids[i], m);
        }
        assert Substitute(b, r, t, m).kids == Apply(AsAssignment(m), Full(b, r, t)).kids;
      }
  }

  // ---------------------------------------------------------------- terms without links

  ghost function Unlinked(): Store {
    map[]
  }

  ghost function NoRank(): int -> nat {
    (x: int) => 0
  }

  /** What `collect_free_vars` finds in a term in which no variable is linked. */
  ghost function Walked(t: Ty): set<int> {
    Collect(Unlinked(), NoRank(), t, {})
  }

  ghost function Fulls(b: Store, r: int -> nat, ts: seq<Ty>): seq<Ty>
    requires Ranked(b, r)
  {
    seq(|ts|, i requires 0 <= i < |ts| => Full(b, r, ts[i]))
  }

  /** The walk sees a term as it sees its full resolution. */
  lemma {:induction false} CollectFull(b: Store, r: int -> nat, t: Ty, acc: set<int>)
    requires Ranked(b, r)
    ensures Collect(b, r, t, acc) == Collect(Unlinked(), NoRank(), Full(b, r, t), acc)
    decreases Top(r, t), t
  {
    match t
    case Var(x) =>
      if x in b {
        CollectFull(b, r, b[x], acc);
      }
    case Node(h, kids) =>
      if !h.Tensor? {
        CollectAllFull(b, r, kids, acc);
        assert Full(b, r, t).kids == Fulls(b, r, kids);
      }
  }

  lemma {:induction false} CollectAllFull(b: Store, r: int -> nat, ts: seq<Ty>, acc: set<int>)
    requires Ranked(b, r)
    ensures CollectAll(b, r, ts, acc) == CollectAll(Unlinked(), NoRank(), Fulls(b, r, ts), acc)
    decreases TopOf(r, ts), ts
  {
    if ts == [] {
    } else {
      CollectFull(b, r, ts[0], acc);
      CollectAllFull(b, r, ts[1..], Collect(b, r, ts[0], acc));
      assert Fulls(b, r, ts)[1..] == Fulls(b, r, ts[1..]);
    }
  }

  /** In a function type whose result is already generalised, the ids that the result quantifies are
      lost from the parameters, which are walked before it. */
  lemma {:induction false} FunctionWalk(b: Store, r: int -> nat, params: seq<Ty>, result: Ty)
    requires Ranked(b, r) && MonoLinks(b) && (forall i | 0 <= i < |params| :: Mono(params[i])) && Prenex(result)
    ensures Collect(b, r, Node(Function, params + [result]), {})
         == (AllFree(b, r, params) - Quantified(result)) + SchemeFree(b, r, result)
  {
    var before := AllFree(b, r, params);
    CollectAllMono(b, r, params, {});
    CollectAllSplit(b, r, params, [result], {});
    assert CollectAll(b, r, params, {}) == before;
    assert CollectAll(b, r, params + [result], {}) == CollectAll(b, r, [result], before);
    CollectPrenex(b, r, result, before);
    assert CollectAll(b, r, [result], before) == Collect(b, r, result, before);
    assert Collect(b, r, Node(Function, params + [result]), {}) == CollectAll(b, r, params + [result], {});
  }

  // ---------------------------------------------------------------- instances

  /** The free ids of an instance: those of the body that are not quantified, plus the fresh
      ids of the quantified ones that occur. */
  lemma {:induction false} InstanceFreeVars(m: map<int, int>, body: Ty)
    ensures FreeVars(Apply(Renaming(m), body))
         == (FreeVars(body) - m.Keys) + set x | x in m && x in FreeVars(body) :: m[x]
  {
    forall y
      ensures y in FreeVars(Apply(Renaming(m), body))
         <==> y in (FreeVars(body) - m.Keys) + set x | x in m && x in FreeVars(body) :: m[x]
    {
      FreeVarsApply(Renaming(m), body, y);
    }
  }

  ghost predicate Injective(m: map<int, int>) {
    forall x, y | x in m && y in m && m[x] == m[y] :: x == y
  }

  /** Two instances that were given different ids share exactly the ids that both schemes leave
      free, unless a new id of one is free in the other. */
  lemma {:induction false} InstancesShare(m1: map<int, int>, m2: map<int, int>, body: Ty)
    requires m1.Keys == m2.Keys <= FreeVars(body) && forall k :: k in m1.Values ==> k !in m2.Values
    ensures FreeVars(Apply(Renaming(m1), body)) == (FreeVars(body) - m1.Keys) + m1.Values
    ensures FreeVars(Apply(Renaming(m2), body)) == (FreeVars(body) - m1.Keys) + m2.Values
    ensures FreeVars(Apply(Renaming(m1), body)) * FreeVars(Apply(Renaming(m2), body)) == FreeVars(body) - m1.Keys
  {
    AllOccur(m1, body);
    AllOccur(m2, body);
  }

  lemma AllOccur(m: map<int, int>, body: Ty)
    requires m.Keys <= FreeVars(body)
    ensures FreeVars(Apply(Renaming(m), body)) == (FreeVars(body) - m.Keys) + m.Values
  {
    InstanceFreeVars(m, body);
    assert m.Values == set x | x in m && x in FreeVars(body) :: m[x];
  }

  lemma {:induction false} ValuesCount(m: map<int, int>)
    requires Injective(m)
    ensures |m.Values| == |m.Keys|
  {
    if m.Keys == {} {
      assert m.Values == {};
    } else {
      var x := Any(m.Keys);
      var rest := m - {x};
      ValuesCount(rest);
      assert m.Keys == rest.Keys + {x};
      assert m.Values == rest.Values + {m[x]} by {
        assert forall y | y in m :: y == x || (y in rest && rest[y] == m[y]);
      }
      assert m[x] !in rest.Values by {
        assert forall y | y in rest :: rest[y] == m[y] && y != x;
      }
    }
  }

  lemma Any<T>(xs: set<T>) returns (x: T)
    requires xs != {}
    ensures x in xs
  {
    x :| x in xs;
  }

  /** An instance has as many ids as the scheme's body exactly when no new id is one that the scheme
      leaves free. */
  lemma NothingCapturedIff(m: map<int, int>, body: Ty)
    requires Injective(m) && m.Keys <= FreeVars(body)
    ensures |FreeVars(Apply(Renaming(m), body))| == |FreeVars(body)| <==> m.Values !! FreeVars(body) - m.Keys
  {
    ValuesCount(m);
    AllOccur(m, body);
    SameCountIff(FreeVars(body), m.Keys, m.Values);
  }

  lemma SameCountIff(all: set<int>, keys: set<int>, values: set<int>)
    requires keys <= all && |values| == |keys|
    ensures |(all - keys) + values| == |all| <==> values !! all - keys
  {
    var free := all - keys;
    var extra := values - free;
    assert free + values == free + extra && |free + extra| == |free| + |extra|;
    assert all == free + keys && |free + keys| == |free| + |keys|;
    assert values == extra + (values * free) && |values| == |extra| + |values * free|;
    assert values !! free <==> |values * free| == 0;
  }

  /** Instantiating with distinct fresh ids loses nothing: renaming back gives the body again. */
  lemma {:induction false} InstanceInvertible(m: map<int, int>, back: map<int, int>, body: Ty)
    requires forall x | x in m :: m[x] in back && back[m[x]] == x
    requires forall y | y in back :: y !in FreeVars(body)
    ensures Apply(Renaming(back), Apply(Renaming(m), body)) == body
  {
    match body
    case Var(_) =>
      assert body.id in FreeVars(body);
    case Node(h, kids) =>
      forall i | 0 <= i < |kids| ensures Apply(Renaming(back), Apply(Renaming(m), kids[i])) == kids[i] {
        assert forall y | y in FreeVars(kids[i]) :: y in FreeVars(body);
        InstanceInvertible(m, back, kids[i]);
      }
      assert Apply(Renaming(back), Apply(Renaming(m), body)).kids == kids;
  }

  // ---------------------------------------------------------------- the environment

  lemma {:induction false} CollectPrenex(b: Store, r: int -> nat, t: Ty, acc: set<int>)
    requires Ranked(b, r) && MonoLinks(b) && Prenex(t)
    ensures Collect(b, r, t, acc) == (acc - Quantified(t)) + SchemeFree(b, r, t)
  {
    if Mono(t) {
      CollectMono(b, r, t, acc);
    } else {
      CollectAllMono(b, r, t.kids, acc);
      assert forall u | u in t.kids :: u == t.kids[0];
      assert AllFree(b, r, t.kids) == FreeVars(Full(b, r, t.kids[0]));
    }
  }

  lemma {:induction false} CollectAllSplit(b: Store, r: int -> nat, ts: seq<Ty>, us: seq<Ty>, acc: set<int>)
    requires Ranked(b, r)
    ensures CollectAll(b, r, ts + us, acc) == CollectAll(b, r, us, CollectAll(b, r, ts, acc))
    decreases |ts|
  {
    if ts == [] {
      assert ts + us == us;
    } else {
      assert (ts + us)[0] == ts[0] && (ts + us)[1..] == ts[1..] + us;
      CollectAllSplit(b, r, ts[1..], us, Collect(b, r, ts[0], acc));
    }
  }

  ghost predicate SameEntries(ts: seq<Ty>, us: seq<Ty>) {
    multiset(ts) == multiset(us)
  }

  lemma SameEntriesContain(ts: seq<Ty>, us: seq<Ty>)
    requires SameEntries(ts, us)
    ensures forall t :: t in us <==> t in ts
  {
    forall t ensures t in us <==> t in ts {
      assert t in us <==> t in multiset(us);
      assert t in ts <==> t in multiset(ts);
    }
  }
}
