/** What `substitute` and `instantiate` (include/frontend/checker/type.hpp) make of a function type whose
    result has been generalised on its own, and what it means that an id is free. */
module InnerSchemes {
  import opened Types
  import opened Bindings
  import opened Schemes
  import opened Unification
  import opened Namespaces

  // ---------------------------------------------------------------- free ids

  /** The path leads, by the places of components, to the variable. */
  ghost predicate LeadsTo(t: Ty, path: seq<nat>, x: int)
    decreases t
  {
    if path == [] then t == Var(x)
    else t.Node? && path[0] < |t.kids| && LeadsTo(t.kids[path[0]], path[1..], x)
  }

  /** A scheme on the way quantifies the id. */
  ghost predicate BoundOn(t: Ty, path: seq<nat>, x: int)
    decreases t
  {
    && path != [] && t.Node? && path[0] < |t.kids|
    && ((t.head.Poly? && x in t.head.bound) || BoundOn(t.kids[path[0]], path[1..], x))
  }

  ghost predicate FreePath(t: Ty, path: seq<nat>, x: int) {
    LeadsTo(t, path, x) && !BoundOn(t, path, x)
  }

  /** An id is free in a type if and only if it stands somewhere where no scheme around it quantifies it. */
  lemma {:induction false} TrulyFreeIff(t: Ty, x: int)
    ensures x in TrulyFree(t) <==> exists path :: FreePath(t, path, x)
  {
    match t
    case Var(y) =>
      if x == y {
        assert FreePath(t, [], x);
      }
    case Node(h, kids) =>
      forall i | 0 <= i < |kids| ensures x in TrulyFree(kids[i]) <==> exists path :: FreePath(kids[i], path, x) {
        TrulyFreeIff(kids[i], x);
      }
      if x in TrulyFree(t) {
        var i :| 0 <= i < |kids| && x in TrulyFree(kids[i]);
        var path :| FreePath(kids[i], path, x);
        assert ([i] + path)[1..] == path;
        assert FreePath(t, [i] + path, x);
      }
      forall path | FreePath(t, path, x) ensures x in TrulyFree(t) {
        assert FreePath(kids[path[0]], path[1..], x);
      }
  }

  // ---------------------------------------------------------------- instances of a function

  ghost function Renamed(m: map<int, int>, ts: seq<Ty>): seq<Ty> {
    seq(|ts|, i requires 0 <= i < |ts| => Apply(Renaming(m), ts[i]))
  }

  lemma RenamedMono(b: Store, r: int -> nat, t: Ty, m: map<int, int>)
    requires Ranked(b, r) && MonoLinks(b) && Mono(t)
    ensures Substitute(b, r, t, Variables(m)) == Apply(Renaming(m), Full(b, r, t))
  {
    SubstituteMono(b, r, t, Variables(m));
    ApplyAgrees(AsAssignment(Variables(m)), Renaming(m), Full(b, r, t));
  }

  /** The quantifier of the result is gone from an instance, and its ids are not renamed. */
  lemma InnerSchemeIsOpened(b: Store, r: int -> nat, params: seq<Ty>, result: Ty, m: map<int, int>)
    requires Ranked(b, r) && MonoLinks(b) && (forall i | 0 <= i < |params| :: Mono(params[i])) && IsScheme(result)
    ensures Substitute(b, r, Node(Function, params + [result]), Variables(m))
         == Node(Function, Renamed(m, Fulls(b, r, params))
                           + [Apply(Renaming(m - result.head.bound), Full(b, r, result.kids[0]))])
  {
    var t := Node(Function, params + [result]);
    var u := Substitute(b, r, t, Variables(m));
    forall i | 0 <= i < |params| ensures u.kids[i] == Apply(Renaming(m), Full(b, r, params[i])) {
      RenamedMono(b, r, params[i], m);
    }
    assert Variables(m) - result.head.bound == Variables(m - result.head.bound);
    RenamedMono(b, r, result.kids[0], m - result.head.bound);
    assert u.kids == Renamed(m, Fulls(b, r, params)) + [u.kids[|params|]];
  }

  /** An id is one of `ids`, or the new one of an id among them. */
  ghost predicate FromOne(m: map<int, int>, ids: set<int>, y: int) {
    exists x :: x in ids && y == if x in m then m[x] else x
  }

  lemma RenamedIds(m: map<int, int>, t: Ty, y: int)
    ensures y in FreeVars(Apply(Renaming(m), t)) <==> FromOne(m, FreeVars(t), y)
  {
    FreeVarsApply(Renaming(m), t, y);
    if x :| x in FreeVars(t) && y == if x in m then m[x] else x {
      assert y in FreeVars(Renaming(m)(x));
    }
  }

  /** The ids of an instance of the function. */
  lemma OpenedFree(b: Store, r: int -> nat, params: seq<Ty>, result: Ty, m: map<int, int>, y: int)
    requires Ranked(b, r) && MonoLinks(b) && (forall i | 0 <= i < |params| :: Mono(params[i])) && IsScheme(result)
    ensures y in FreeVars(Substitute(b, r, Node(Function, params + [result]), Variables(m))) <==>
            || FromOne(m, AllFree(b, r, params), y)
            || FromOne(m - result.head.bound, FreeVars(Full(b, r, result.kids[0])), y)
  {
    var last := Full(b, r, result.kids[0]);
    var kids := Renamed(m, Fulls(b, r, params)) + [Apply(Renaming(m - result.head.bound), last)];
    InnerSchemeIsOpened(b, r, params, result, m);
    RenamedIds(m - result.head.bound, last, y);
    assert y in FreeVars(kids[|params|]) <==> FromOne(m - result.head.bound, FreeVars(last), y);
    forall i | 0 <= i < |params|
      ensures y in FreeVars(kids[i]) <==> FromOne(m, FreeVars(Full(b, r, params[i])), y)
    {
      RenamedIds(m, Full(b, r, params[i]), y);
    }
    if FromOne(m, AllFree(b, r, params), y) {
      var x :| x in AllFree(b, r, params) && y == if x in m then m[x] else x;
      var p :| p in params && x in FreeVars(Full(b, r, p));
      var i :| 0 <= i < |params| && params[i] == p;
      assert y in FreeVars(kids[i]);
    }
    if i :| 0 <= i < |params| && y in FreeVars(kids[i]) {
      var x :| x in FreeVars(Full(b, r, params[i])) && y == if x in m then m[x] else x;
      assert params[i] in params && x in AllFree(b, r, params);
    }
  }

  /** Two instances of a generalised function whose result has been generalised too have in common what
      the scheme leaves free, and besides every id of the result that the result quantifies. */
  lemma OpenedIdsAreShared(b: Store, r: int -> nat, params: seq<Ty>, result: Ty, m1: map<int, int>, m2: map<int, int>)
    requires Ranked(b, r) && MonoLinks(b) && (forall i | 0 <= i < |params| :: Mono(params[i])) && IsScheme(result)
    requires m1.Keys == m2.Keys && m1.Values !! m2.Values
    requires m1.Values + m2.Values !! AllFree(b, r, params) + FreeVars(Full(b, r, result.kids[0]))
    ensures var t, ids := Node(Function, params + [result]), FreeVars(Full(b, r, result.kids[0]));
            FreeVars(Substitute(b, r, t, Variables(m1))) * FreeVars(Substitute(b, r, t, Variables(m2)))
            == (TrulyFree(Full(b, r, t)) - m1.Keys) + (ids * result.head.bound)
  {
    var t, ids := Node(Function, params + [result]), FreeVars(Full(b, r, result.kids[0]));
    var u1, u2 := Substitute(b, r, t, Variables(m1)), Substitute(b, r, t, Variables(m2));
    FunctionFree(b, r, params, result);
    forall y ensures y in FreeVars(u1) * FreeVars(u2) <==>
      y in (TrulyFree(Full(b, r, t)) - m1.Keys) + (ids * result.head.bound)
    {
      OpenedFree(b, r, params, result, m1, y);
      OpenedFree(b, r, params, result, m2, y);
      SharedId(m1, m2, AllFree(b, r, params), ids, result.head.bound, y);
    }
  }

  lemma SharedId(m1: map<int, int>, m2: map<int, int>, params: set<int>, ids: set<int>, bound: set<int>, y: int)
    requires m1.Keys == m2.Keys && m1.Values !! m2.Values && m1.Values + m2.Values !! params + ids
    ensures (FromOne(m1, params, y) || FromOne(m1 - bound, ids, y))
            && (FromOne(m2, params, y) || FromOne(m2 - bound, ids, y))
            <==> y in (params + (ids - bound) - m1.Keys) + (ids * bound)
  {
    assert forall x | x in m1 :: m1[x] in m1.Values;
    assert forall x | x in m2 :: m2[x] in m2.Values;
  }

  lemma {:induction false} FreeIsThere(t: Ty)
    ensures TrulyFree(t) <= FreeVars(t)
  {
    if t.Node? {
      forall i | 0 <= i < |t.kids| ensures TrulyFree(t.kids[i]) <= FreeVars(t.kids[i]) {
        FreeIsThere(t.kids[i]);
      }
    }
  }

  /** Without quantifiers every id is free. */
  lemma {:induction false} MonoIsFree(b: Store, r: int -> nat, t: Ty)
    requires Ranked(b, r) && MonoLinks(b) && Mono(t)
    ensures TrulyFree(Full(b, r, t)) == FreeVars(Full(b, r, t))
    decreases Top(r, t), t
  {
    match t
    case Var(x) =>
      if x in b {
        MonoIsFree(b, r, b[x]);
      }
    case Node(h, kids) =>
      if h.Tensor? {
        FullClosed(b, r, t);
        FreeIsThere(t);
      } else {
        var full := Full(b, r, t).kids;
        forall i | 0 <= i < |kids| ensures TrulyFree(full[i]) == FreeVars(full[i]) {
          MonoIsFree(b, r, kids[i]);
        }
      }
  }

  /** The free ids of a function are those of its parameters, and those that its result does not quantify. */
  lemma FunctionFree(b: Store, r: int -> nat, params: seq<Ty>, result: Ty)
    requires Ranked(b, r) && MonoLinks(b) && (forall i | 0 <= i < |params| :: Mono(params[i])) && IsScheme(result)
    ensures TrulyFree(Full(b, r, Node(Function, params + [result])))
         == AllFree(b, r, params) + (FreeVars(Full(b, r, result.kids[0])) - result.head.bound)
  {
    var t, last := Node(Function, params + [result]), Full(b, r, result.kids[0]);
    var full := Full(b, r, t).kids;
    assert full[|params|] == Full(b, r, result) && Full(b, r, result).kids == [last];
    MonoIsFree(b, r, result.kids[0]);
    assert TrulyFree(full[|params|]) == FreeVars(last) - result.head.bound by {
      assert Full(b, r, result).kids[0] == last;
    }
    forall i | 0 <= i < |params| ensures TrulyFree(full[i]) == FreeVars(Full(b, r, params[i])) {
      assert full[i] == Full(b, r, params[i]);
      MonoIsFree(b, r, params[i]);
    }
    forall x
      ensures x in TrulyFree(Full(b, r, t)) <==> x in AllFree(b, r, params) + (FreeVars(last) - result.head.bound)
    {
      if x in AllFree(b, r, params) {
        var p :| p in params && x in FreeVars(Full(b, r, p));
        var i :| 0 <= i < |params| && params[i] == p;
        assert x in TrulyFree(full[i]);
      }
      if i :| 0 <= i < |params| && x in TrulyFree(full[i]) {
        assert params[i] in params && x in FreeVars(Full(b, r, params[i]));
      }
    }
  }

  /** In `forall p. (p) -> forall a. a` the `a` is one and the same in every instance. */
  lemma ResultIsNotRenamed(p: int, a: int, m: map<int, int>)
    requires m.Keys == {p} && p != a
    ensures Substitute(Unlinked(), NoRank(), Node(Function, [Var(p), Node(Poly({a}), [Var(a)])]), Variables(m))
         == Node(Function, [Var(m[p]), Var(a)])
  {
    var result := Node(Poly({a}), [Var(a)]);
    assert [Var(p), result] == [Var(p)] + [result];
    InnerSchemeIsOpened(Unlinked(), NoRank(), [Var(p)], result, m);
    assert m - {a} == m;
    assert Renamed(m, Fulls(Unlinked(), NoRank(), [Var(p)])) == [Var(m[p])];
  }
}
