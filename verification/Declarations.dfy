/** The type that a `def` is stored with (src/frontend/checker/statements/check_function_stmt.cpp):
    its result and then the function are generalised while the scope that holds the parameters is
    still there. */
module Declarations {
  import opened Types
  import opened Bindings
  import opened Schemes
  import opened Unification
  import opened Namespaces

  function ParamEntries(params: seq<(string, Ty)>): seq<Entry> {
    seq(|params|, i requires 0 <= i < |params| => Entry(params[i].0, params[i].1, false))
  }

  function ParamTypes(params: seq<(string, Ty)>): seq<Ty> {
    seq(|params|, i requires 0 <= i < |params| => params[i].1)
  }

  /** What the scope of the function holds when its body has been checked. */
  function Inner(params: seq<(string, Ty)>, locals: seq<Entry>): Table {
    PutAll(Table(map[], {}), ParamEntries(params) + locals)
  }

  /** The ids that the function's type quantifies, with `env` collected from the scopes. */
  ghost function RootBound(b: Store, r: int -> nat, params: seq<Ty>, result: Ty, env: set<int>): set<int>
    requires Ranked(b, r)
  {
    AllFree(b, r, params) - env - FreeVars(Full(b, r, result))
  }

  // ---------------------------------------------------------------- the declaration

  predicate Distinct(params: seq<(string, Ty)>) {
    forall i, j | 0 <= i < j < |params| :: params[i].0 != params[j].0
  }

  lemma ParamsInScope(params: seq<(string, Ty)>, locals: seq<Entry>, types: seq<Ty>)
    requires InSomeOrder(Inner(params, locals).names, types)
    ensures Distinct(params) ==> forall p | p in ParamTypes(params) :: p in types
  {
    if Distinct(params) {
      forall p | p in ParamTypes(params) ensures p in types {
        var i :| 0 <= i < |params| && p == params[i].1;
        ParamInScope(params, locals, i, types);
      }
    }
  }

  /** The type of a parameter with a name of its own is in the scope when it is collected. */
  lemma ParamInScope(params: seq<(string, Ty)>, locals: seq<Entry>, i: nat, types: seq<Ty>)
    requires i < |params| && (forall j | 0 <= j < i :: params[j].0 != params[i].0)
    requires InSomeOrder(Inner(params, locals).names, types)
    ensures params[i].1 in types
  {
    var entries, empty := ParamEntries(params), Table(map[], {});
    assert entries + locals == entries[..i] + ([entries[i]] + (entries[i + 1..] + locals));
    NotPut(empty, entries[..i], params[i].0);
    PutAllSplit(empty, entries[..i], [entries[i]] + (entries[i + 1..] + locals));
    var before := PutAll(empty, entries[..i]);
    assert ([entries[i]] + (entries[i + 1..] + locals))[1..] == entries[i + 1..] + locals;
    ConstantStays(Put(before, entries[i]), entries[i + 1..] + locals, params[i].0);
    InOrderContains(Inner(params, locals).names, types, params[i].0);
  }

  lemma {:induction false} NotPut(t: Table, entries: seq<Entry>, name: string)
    requires name !in t.names && forall e | e in entries :: e.name != name
    ensures name !in PutAll(t, entries).names
    decreases |entries|
  {
    if entries == [] {
    } else {
      assert entries[0] in entries;
      NotPut(Put(t, entries[0]), entries[1..], name);
    }
  }

  /** A scope inside `parent` with the parameters of a function and the names its body puts there. */
  method PushScope(parent: Namespace, params: seq<(string, Ty)>, locals: seq<Entry>) returns (inner: Namespace)
    requires parent.Valid()
    ensures fresh(inner) && inner.Valid() && inner.parent == parent
    ensures Table(inner.names, inner.consts) == Inner(params, locals)
  {
    inner := new Namespace(parent);
    for i := 0 to |params|
      invariant Table(inner.names, inner.consts) == PutAll(Table(map[], {}), ParamEntries(params[..i]))
    {
      inner.PutKey(params[i].0, params[i].1, false);
      assert ParamEntries(params[..i + 1]) == ParamEntries(params[..i]) + [Entry(params[i].0, params[i].1, false)];
      PutAllSplit(Table(map[], {}), ParamEntries(params[..i]), [Entry(params[i].0, params[i].1, false)]);
    }
    assert params[..|params|] == params && ParamEntries(params) + locals[..0] == ParamEntries(params);
    for i := 0 to |locals|
      invariant Table(inner.names, inner.consts) == PutAll(Table(map[], {}), ParamEntries(params) + locals[..i])
    {
      inner.PutKey(locals[i].name, locals[i].type_, locals[i].isMutable);
      assert ParamEntries(params) + locals[..i + 1] == ParamEntries(params) + locals[..i] + [locals[i]];
      PutAllSplit(Table(map[], {}), ParamEntries(params) + locals[..i], [locals[i]]);
    }
    assert locals[..|locals|] == locals;
  }

  /** A `def` with its parameters, the names that its body has put into its scope, and its result. */
  method CheckFunction(scope: Namespace, context: UnificationContext, name: string, params: seq<(string, Ty)>,
        locals: seq<Entry>, result: Ty) returns (ghost scopes: seq<seq<Ty>>, ghost f: Ty)
    requires scope.Valid() && context.Valid() && MonoLinks(context.instance)
    requires Mono(result) && Within(result, context.known)
    requires forall i | 0 <= i < |params| :: Mono(params[i].1) && Within(params[i].1, context.known)
    modifies scope, context`instance
    ensures context.Valid() && Compressed(old(context.instance), context.instance, context.rank)
    ensures scopes != [] && old(scope.Lists(scopes[1..])) && InSomeOrder(Inner(params, locals).names, scopes[0])
    ensures Distinct(params) ==> forall p | p in ParamTypes(params) :: p in scopes[0]
    ensures f.Node? && f.head == Function && |f.kids| == |params| + 1 && f.kids[..|params|] == ParamTypes(params)
    ensures var b := old(context.instance);
            var env := CollectScopes(b, context.rank, scopes, {});
            var g := Quantify(RootBound(b, context.rank, ParamTypes(params), result, env), f);
            && Generalized(Full(b, context.rank, result), context.instance, context.rank, f.kids[|params|], env)
            && Table(scope.names, scope.consts) == Put(old(Table(scope.names, scope.consts)), Entry(name, g, false))
  {
    var inner := PushScope(scope, params, locals);
    var env;
    env, scopes := inner.CollectFreeVars(context, {});
    ParamsInScope(params, locals, scopes[0]);
    var g;
    g, f := context.GeneralizeFunction(ParamTypes(params), result, env);
    scope.PutKey(name, g, false);
  }

  // ---------------------------------------------------------------- which ids the type quantifies

  /** Of the ids of the parameters the function's type quantifies those that are not free further out. */
  ghost predicate QuantifiesRight(b: Store, r: int -> nat, scopes: seq<seq<Ty>>, params: seq<Ty>, result: Ty,
        env: set<int>)
    requires Ranked(b, r)
  {
    forall x ::
      x in RootBound(b, r, params, result, env) <==> x in AllFree(b, r, params) && !FreeFrom(b, r, scopes, 1, x)
  }

  /** ... of an id, whatever the order of the names in the scopes. */
  ghost predicate AlwaysRight(b: Store, r: int -> nat, scopes: seq<seq<Ty>>, result: Ty, x: int)
    requires Ranked(b, r)
  {
    var collected := AddedFrom(b, r, scopes, 0, x);
    if FreeFrom(b, r, scopes, 1, x) then
      x in FreeVars(Full(b, r, result)) || (collected && AddedFurtherOut(b, r, scopes, x))
    else
      x !in FreeVars(Full(b, r, result)) && (!collected || RemovedForGood(b, r, scopes, x))
  }

  /** The function's type quantifies the ids of its parameters that it should, whatever the order of
      the names in the scopes, if and only if each of them is either free further out and kept (in the
      environment or, what the code does not mean, by the result), or in no way kept: a scope further
      out quantifies it for good, or a second parameter of the same name hides it. */
  lemma {:induction false} FunctionQuantifiesIff(b: Store, r: int -> nat, scopes: seq<seq<Ty>>, params: seq<Ty>,
        result: Ty)
    requires Ranked(b, r)
    ensures (forall orders | SameScopes(scopes, orders) ::
               QuantifiesRight(b, r, scopes, params, result, CollectScopes(b, r, orders, {})))
      <==> forall x | x in AllFree(b, r, params) :: AlwaysRight(b, r, scopes, result, x)
  {
    if forall orders | SameScopes(scopes, orders) ::
      QuantifiesRight(b, r, scopes, params, result, CollectScopes(b, r, orders, {}))
    {
      forall x | x in AllFree(b, r, params) ensures AlwaysRight(b, r, scopes, result, x) {
        assert SameScopes(scopes, scopes);
        AlwaysCollectedIff(b, r, scopes, x);
        NeverCollectedIff(b, r, scopes, x);
      }
    }
    if forall x | x in AllFree(b, r, params) :: AlwaysRight(b, r, scopes, result, x) {
      forall orders, x | SameScopes(scopes, orders)
        ensures x in RootBound(b, r, params, result, CollectScopes(b, r, orders, {}))
          <==> x in AllFree(b, r, params) && !FreeFrom(b, r, scopes, 1, x)
      {
        AlwaysCollectedIff(b, r, scopes, x);
        NeverCollectedIff(b, r, scopes, x);
      }
    }
  }

  /** The parameters are in the scope, so unless a scope quantifies one of their ids, the function's
      type quantifies none of them; it should quantify all that are not free further out. */
  lemma NothingQuantified(b: Store, r: int -> nat, scopes: seq<seq<Ty>>, params: seq<Ty>, result: Ty)
    requires Ranked(b, r) && MonoLinks(b) && scopes != []
    requires forall p | p in params :: Mono(p) && p in scopes[0]
    requires forall k, x | 0 <= k < |scopes| && x in AllFree(b, r, params) :: !RemovedIn(b, r, scopes[k], x)
    ensures forall orders | SameScopes(scopes, orders) ::
              RootBound(b, r, params, result, CollectScopes(b, r, orders, {})) == {}
    ensures (forall orders | SameScopes(scopes, orders) ::
               QuantifiesRight(b, r, scopes, params, result, CollectScopes(b, r, orders, {})))
      <==> forall x | x in AllFree(b, r, params) :: FreeFrom(b, r, scopes, 1, x)
  {
    forall x | x in AllFree(b, r, params)
      ensures AddedFrom(b, r, scopes, 0, x) && !RemovedForGood(b, r, scopes, x) && AddedFurtherOut(b, r, scopes, x)
    {
      var p :| p in params && x in FreeVars(Full(b, r, p));
      CollectMono(b, r, p, {});
      assert Adds(b, r, p, x);
      assert AddedIn(b, r, scopes[0], x);
    }
    forall orders, x | SameScopes(scopes, orders) && x in AllFree(b, r, params)
      ensures x in CollectScopes(b, r, orders, {})
    {
      AlwaysCollectedIff(b, r, scopes, x);
    }
    FunctionQuantifiesIff(b, r, scopes, params, result);
  }

  // ---------------------------------------------------------------- a nested identity

  /** `def id<T>(x: T): T` inside another function, with an id for `T` that no scope around it knows:
      its type is stored without a quantifier. */
  method NestedIdentity(scope: Namespace, context: UnificationContext, name: string, x: string, id: int)
    requires scope.Valid() && context.Valid() && MonoLinks(context.instance) && name !in scope.consts
    requires id in context.known && id !in context.instance
    requires forall scopes | scope.Lists(scopes) :: Unmentioned(context.instance, context.rank, scopes, id)
    modifies scope, context`instance
    ensures context.Valid() && name in scope.names && Mono(scope.names[name])
    ensures Full(context.instance, context.rank, scope.names[name]) == Node(Function, [Var(id), Var(id)])
  {
    ghost var b := context.instance;
    var scopes, f := CheckFunction(scope, context, name, [(x, Var(id))], [], Var(id));
    InnerOfOne(x, Var(id));
    assert ParamTypes([(x, Var(id))]) == [Var(id)];
    IdentityKeepsItsId(b, context.rank, scopes, x, id);
    IdentityIsMono(b, context.instance, context.rank, id, f);
  }

  lemma IdentityIsMono(b: Store, c: Store, r: int -> nat, id: int, f: Ty)
    requires Ranked(b, r) && Compressed(b, c, r) && id !in b
    requires f.Node? && f.head == Function && |f.kids| == 2 && f.kids[..1] == [Var(id)]
    requires Mono(f.kids[1]) && Full(c, r, f.kids[1]) == Full(b, r, Var(id))
    ensures Mono(f) && Full(c, r, f) == Node(Function, [Var(id), Var(id)])
  {
    assert f.kids[0] == f.kids[..1][0];
    assert Full(c, r, f).kids == [Var(id), Var(id)];
  }

  /** No scope has the id free in an entry, and none removes it. */
  ghost predicate Unmentioned(b: Store, r: int -> nat, scopes: seq<seq<Ty>>, x: int)
    requires Ranked(b, r)
  {
    !FreeFrom(b, r, scopes, 0, x) && forall k | 0 <= k < |scopes| :: !RemovedIn(b, r, scopes[k], x)
  }

  lemma IdentityKeepsItsId(b: Store, r: int -> nat, scopes: seq<seq<Ty>>, x: string, id: int)
    requires Ranked(b, r) && id !in b && scopes != [] && Unmentioned(b, r, scopes[1..], id)
    requires InSomeOrder(map[x := Var(id)], scopes[0])
    ensures RootBound(b, r, [Var(id)], Var(id), CollectScopes(b, r, scopes, {})) == {}
    ensures FreeVars(Full(b, r, Var(id))) <= CollectScopes(b, r, scopes, {})
  {
    OnlyParam(b, r, x, id, scopes[0]);
    AddedFromTail(b, r, scopes, 0, id);
    var before := CollectAll(b, r, scopes[0], {});
    OneScope(b, r, scopes[0], {}, id);
    CollectedIfFurtherOut(b, r, scopes[1..], before, id);
  }

  lemma OnlyParam(b: Store, r: int -> nat, x: string, id: int, types: seq<Ty>)
    requires Ranked(b, r) && id !in b && InSomeOrder(map[x := Var(id)], types)
    ensures AddedIn(b, r, types, id) && !RemovedIn(b, r, types, id)
  {
    InOrderContains(map[x := Var(id)], types, x);
    OnlyType(map[x := Var(id)], x, types);
    assert Adds(b, r, Var(id), id);
  }

  lemma OnlyType(names: map<string, Ty>, x: string, types: seq<Ty>)
    requires names.Keys == {x} && InSomeOrder(names, types)
    ensures forall t | t in types :: t == names[x]
  {
    var order :| InOrder(names, order, types);
    forall t | t in types ensures t == names[x] {
      var i :| 0 <= i < |types| && types[i] == t;
      assert order[i] in names.Keys;
    }
  }

  lemma InnerOfOne(x: string, t: Ty)
    ensures Inner([(x, t)], []).names == map[x := t]
  {
    var empty, entries := Table(map[], {}), ParamEntries([(x, t)]) + [];
    assert |entries| == 1 && entries[1..] == [];
    assert PutAll(empty, entries) == PutAll(Put(empty, entries[0]), entries[1..]);
  }
}
