/** `UnificationContext` (include/frontend/checker/unification.hpp): unification that links
    type variables in place, with path compression and an occurs check. */
module Unification {
  import opened Types
  import opened Bindings
  import opened Schemes

  datatype UnifyError =
    | CircularConstraint
    | ArraySizeMismatch
    | TensorRankMismatch
    | TensorShapeMismatch
    | TupleSizeMismatch
    | ParameterCountMismatch
    | CannotUnify(left: Ty, right: Ty)

  /** `Knot`: the code links `x` to `t`, though `x` is somewhere in what `t` stands for; from then on
      its types are infinite, and the model stops. */
  datatype Verdict = Unified | Refused(error: UnifyError) | Knot(x: int, t: Ty)

  // ---------------------------------------------------------------- what unification promises

  /** The assignment makes both terms the same. */
  ghost predicate Unifies(s: Assignment, t1: Ty, t2: Ty) {
    Apply(s, t1) == Apply(s, t2)
  }

  /** Every solution of `c` is a solution of `b`. */
  ghost predicate Entails(c: Store, b: Store) {
    forall s: Assignment :: Respects(s, c) ==> Respects(s, b)
  }

  /** Under every solution of the store the terms are compatible. */
  ghost predicate MadeCompatible(b: Store, t1: Ty, t2: Ty) {
    forall s: Assignment :: Respects(s, b) ==> Compatible(Apply(s, t1), Apply(s, t2))
  }

  /** `c` only adds to `b` what making the terms identical demands anyway. */
  ghost predicate AddsNoMore(b: Store, t1: Ty, t2: Ty, c: Store) {
    forall s: Assignment :: Respects(s, b) && Unifies(s, t1, t2) ==> Respects(s, c)
  }

  ghost predicate NoUnifier(b: Store, t1: Ty, t2: Ty) {
    forall s: Assignment :: Respects(s, b) ==> !Unifies(s, t1, t2)
  }

  /** No solution of the store makes the terms compatible, whatever coercions are granted. */
  ghost predicate NeverCompatible(c: Store, t1: Ty, t2: Ty) {
    forall s: Assignment :: Respects(s, c) ==> !Compatible(Apply(s, t1), Apply(s, t2))
  }

  /** Two terms of one kind whose components `unify` does not look at, with variables in them: two
      maps or two schemes. It takes them only if they are equal already. */
  ghost predicate Opaque(u1: Ty, u2: Ty) {
    && u1.Node? && u2.Node? && SameKind(u1.head, u2.head) && !Constructed(u1.head)
    && !(FreeVars(u1) == {} && FreeVars(u2) == {})
  }

  /** The verdict is not that two opaque terms differ, nor that the links run in a circle. */
  ghost predicate Sure(v: Verdict) {
    match v
    case Unified => true
    case Refused(e) => e.CannotUnify? ==> !Opaque(e.left, e.right)
    case Knot(_, _) => false
  }

  /** All a caller of `Unify` may rely on: `b` is the store before, `c` the store after. */
  ghost predicate UnifyOutcome(b: Store, t1: Ty, t2: Ty, c: Store, v: Verdict) {
    && Entails(c, b)
    && (v.Unified? ==> MadeCompatible(c, t1, t2) && AddsNoMore(b, t1, t2, c))
    && (v.Refused? && Sure(v) ==> NoUnifier(b, t1, t2) && NeverCompatible(c, t1, t2))
    && (v.Knot? ==> NoUnifier(b, t1, t2) && v.x !in c && !Acyclic(c[v.x := v.t]))
  }

  /** The same for the first `n` of two lists of components. */
  ghost predicate PrefixOutcome(b: Store, ts1: seq<Ty>, ts2: seq<Ty>, n: nat, c: Store)
    requires n <= |ts1| && n <= |ts2|
  {
    && Entails(c, b)
    && (forall i | 0 <= i < n :: MadeCompatible(c, ts1[i], ts2[i]))
    && (forall s: Assignment :: Respects(s, b) && UnifiesPrefix(s, ts1, ts2, n) ==> Respects(s, c))
  }

  ghost predicate UnifiesPrefix(s: Assignment, ts1: seq<Ty>, ts2: seq<Ty>, n: nat)
    requires n <= |ts1| && n <= |ts2|
  {
    forall i | 0 <= i < n :: Unifies(s, ts1[i], ts2[i])
  }

  class UnificationContext {
    var nextVarId: int
    var instance: Store          // the `instance` link of each type variable that has one
    ghost var rank: int -> nat   // why the links form no cycle
    ghost var known: set<int>    // the variables in the store or handed to `Unify`

    ghost predicate Valid()
      reads this`instance, this`rank, this`known
    {
      && Ranked(instance, rank)
      && instance.Keys <= known
      && forall x | x in instance :: Within(instance[x], known)
    }

    /** No link leads to a term in which the occurs check would overlook a variable. */
    ghost predicate PlainLinks()
      reads this`instance
    {
      forall x | x in instance :: Plain(instance[x])
    }

    /** Every id in use came from the counter. */
    ghost predicate Issued()
      reads this`nextVarId, this`known
    {
      forall x | x in known :: x < nextVarId
    }

    ghost predicate Root(t: Ty)
      reads this`instance
    {
      t.Var? ==> t.id !in instance
    }

    constructor ()
      ensures Valid() && PlainLinks() && Issued() && instance == map[] && nextVarId == 0 && known == {}
    {
      nextVarId, instance := 0, map[];
      rank, known := (x: int) => 0, {};
    }

    /** A variable with the next id: an unused one, as long as all ids come from here. */
    method NewTypeVar() returns (tv: Ty)
      modifies this`nextVarId
      ensures tv == Var(old(nextVarId)) && nextVarId == old(nextVarId) + 1
      ensures old(Issued()) ==> Issued() && tv.id !in known
    {
      tv := Var(nextVarId);
      nextVarId := nextVarId + 1;
    }

    /** A variable made with the id that `get_next_var_id` tells, as many checks make one: the counter
        stays, so the next `NewTypeVar` gives the same variable again. */
    method MadeWithNextId() returns (tv: Ty, again: Ty)
      modifies this`nextVarId
      ensures tv == again == Var(old(nextVarId))
    {
      tv := Var(nextVarId);
      again := NewTypeVar();
    }

    /** The type a term stands for at its root; shortens the links it walks over. */
    method Resolve(t: Ty) returns (u: Ty)
      requires Valid() && Within(t, known)
      modifies this`instance
      ensures Valid() && Compressed(old(instance), instance, rank)
      ensures Root(u) && Within(u, known) && (t.Node? ==> u == t)
      ensures old(PlainLinks()) ==> PlainLinks() && (Plain(t) ==> Plain(u))
      ensures old(MonoLinks(instance)) ==> MonoLinks(instance) && (Mono(t) ==> Mono(u))
      ensures Full(old(instance), rank, u) == Full(old(instance), rank, t)
      ensures Top(rank, u) <= Top(rank, t)
      decreases Top(rank, t)
    {
      if t.Node? {
        return t;
      }
      if t.id in instance && instance[t.id].Var? {
        var shorter := Resolve(instance[t.id]);
        instance := instance[t.id := shorter];
      }
      u := if t.id in instance then instance[t.id] else t;
    }

    /** Does the unbound variable `v` occur in what `t` stands for? */
    method OccursIn(v: int, t: Ty) returns (found: bool)
      requires Valid() && Within(t, known) && v !in instance
      modifies this`instance
      ensures Valid() && Compressed(old(instance), instance, rank) && (old(PlainLinks()) ==> PlainLinks())
      ensures found <==> Seen(v, Full(old(instance), rank, t))
      decreases Full(instance, rank, t), 1
    {
      var u := Resolve(t);
      ghost var b, c := old(instance), instance;
      CompressedFull(b, c, rank, u);
      if u.Var? {
        found := v == u.id;
      } else if Searched(u.head) {
        found := OccursInKids(v, u);
        CompressedTransitive(b, c, instance, rank);
      } else {
        found := false;
      }
    }

    method OccursInKids(v: int, u: Ty) returns (found: bool)
      requires Valid() && Within(u, known) && u.Node? && Searched(u.head) && v !in instance
      modifies this`instance
      ensures Valid() && Compressed(old(instance), instance, rank) && (old(PlainLinks()) ==> PlainLinks())
      ensures found <==> Seen(v, Full(old(instance), rank, u))
      decreases Full(instance, rank, u), 0
    {
      ghost var b, full := instance, Full(instance, rank, u);
      for i := 0 to |u.kids|
        invariant Valid() && Compressed(b, instance, rank) && (old(PlainLinks()) ==> PlainLinks())
        invariant !SeenAmong(v, full.kids[..i])
      {
        ghost var c := instance;
        KidAfter(b, c, rank, u, i);
        var inKid := OccursIn(v, u.kids[i]);
        CompressedTransitive(b, c, instance, rank);
        SeenNext(v, full, i);
        if inKid {
          return true;
        }
      }
      assert full.kids[..|u.kids|] == full.kids;
      found := false;
    }

    /** `equals`: follows links, changes none. */
    method EqualTerms(t1: Ty, t2: Ty) returns (eq: bool)
      requires Valid()
      ensures eq <==> Equals(instance, rank, t1, t2)
      decreases Top(rank, t1) + Top(rank, t2), t1
    {
      if t1.Var? && t2.Var? {
        if t1.id in instance && t2.id in instance {
          eq := EqualTerms(instance[t1.id], instance[t2.id]);
        } else {
          eq := t1.id == t2.id;
        }
      } else if t1.Var? {
        if t1.id in instance {
          eq := EqualTerms(instance[t1.id], t2);
        } else {
          eq := false;
        }
      } else if t2.Var? || !HeadsEqual(t1.head, t2.head) || |t1.kids| != |t2.kids| {
        eq := false;
      } else {
        for i := 0 to |t1.kids|
          invariant forall j | 0 <= j < i :: Equals(instance, rank, t1.kids[j], t2.kids[j])
        {
          var kidEq := EqualTerms(t1.kids[i], t2.kids[i]);
          if !kidEq {
            return false;
          }
        }
        eq := true;
      }
    }

    /** Is the variable anywhere in what the term stands for? (The code does not ask this; the model
        does, to stop before a link that closes a circle.) */
    method Contains(x: int, t: Ty) returns (found: bool)
      requires Valid()
      ensures found <==> x in FreeVars(Full(instance, rank, t))
      decreases Top(rank, t), t
    {
      if t.Var? {
        if t.id in instance {
          found := Contains(x, instance[t.id]);
        } else {
          found := t.id == x;
        }
      } else {
        ghost var full := Full(instance, rank, t);
        for i := 0 to |t.kids|
          invariant forall j | 0 <= j < i :: x !in FreeVars(full.kids[j])
        {
          KidResolution(instance, rank, t, i);
          var inKid := Contains(x, t.kids[i]);
          if inKid {
            return true;
          }
        }
        found := false;
      }
    }

    /** Makes the two types compatible by linking variables, or reports that they are not.
        Links made before a failure stay. */
    method Unify(t1: Ty, t2: Ty) returns (v: Verdict)
      requires Valid()
      modifies this`instance, this`rank, this`known
      ensures Valid() && known == old(known) + FreeVars(t1) + FreeVars(t2)
      ensures old(instance.Keys) <= instance.Keys
      ensures UnifyOutcome(old(instance), t1, t2, instance, v)
      ensures old(PlainLinks()) && Plain(t1) && Plain(t2) ==> PlainLinks() && Sure(v)
    {
      known := known + FreeVars(t1) + FreeVars(t2);
      StoreWithin(old(instance), old(known), known);
      WithinFreeVars(t1, known);
      WithinFreeVars(t2, known);
      v := UnifyKnown(t1, t2);
    }

    method UnifyKnown(t1: Ty, t2: Ty) returns (v: Verdict)
      requires Valid() && Within(t1, known) && Within(t2, known)
      modifies this`instance, this`rank
      ensures Valid() && Grown(old(instance), old(rank))
      ensures UnifyOutcome(old(instance), t1, t2, instance, v)
      ensures old(PlainLinks()) && Plain(t1) && Plain(t2) ==> PlainLinks() && Sure(v)
      decreases |known - instance.Keys|, Full(instance, rank, t1), 3
    {
      var u1 := Resolve(t1);
      ghost var mid := instance;
      var u2 := Resolve(t2);
      ghost var base, r := instance, rank;
      CompressedFull(old(instance), mid, r, t2);
      CompressedFull(old(instance), mid, r, u2);
      CompressedTransitive(old(instance), mid, base, r);
      CompressedFull(old(instance), base, r, u1);
      v := UnifyRoots(u1, u2);
      TransferOutcome(old(instance), base, r, t1, t2, u1, u2, instance, v);
      GrownTransitive(old(instance), r, base, r);
    }

    method UnifyRoots(u1: Ty, u2: Ty) returns (v: Verdict)
      requires Valid() && Within(u1, known) && Within(u2, known) && Root(u1) && Root(u2)
      modifies this`instance, this`rank
      ensures Valid() && Grown(old(instance), old(rank))
      ensures UnifyOutcome(old(instance), u1, u2, instance, v)
      ensures old(PlainLinks()) && Plain(u1) && Plain(u2) ==> PlainLinks() && Sure(v)
      ensures Opaque(u1, u2) && !Coerces(u1.head, u2.head) ==>
                v == if Equals(old(instance), old(rank), u1, u2) then Unified else Refused(CannotUnify(u1, u2))
      decreases |known - instance.Keys|, Full(instance, rank, u1), 2
    {
      ghost var b, r := instance, rank;
      var eq := EqualTerms(u1, u2);
      if eq {
        EqualsOutcome(b, r, u1, u2);
        return Unified;
      }
      if u1.Var? {
        v := UnifyVariable(u1.id, u2);
      } else if u2.Var? {
        v := UnifyVariable(u2.id, u1);
        SwapOutcome(b, u2, u1, instance, v);
      } else if (u1.head.Enum? && u2.head.Int?) || (u1.head.Int? && u2.head.Enum?) {
        return Unified;
      } else if SameKind(u1.head, u2.head) && Constructed(u1.head) {
        v := UnifyConstructed(u1, u2);
      } else if (u1.head.Int? && u2.head.Float?) || (u1.head.Float? && u2.head.Int?) {
        return Unified;
      } else {
        MismatchOutcome(b, r, u1, u2);
        if Plain(u1) && Plain(u2) {
          PlainIsNotOpaque(u1, u2);
        }
        return Refused(CannotUnify(u1, u2));
      }
    }

    /** The `switch` over two types of one kind that has components. */
    method UnifyConstructed(u1: Ty, u2: Ty) returns (v: Verdict)
      requires Valid() && Within(u1, known) && Within(u2, known)
      requires u1.Node? && u2.Node? && SameKind(u1.head, u2.head) && Constructed(u1.head)
      modifies this`instance, this`rank
      ensures Valid() && Grown(old(instance), old(rank))
      ensures UnifyOutcome(old(instance), u1, u2, instance, v)
      ensures old(PlainLinks()) && Plain(u1) && Plain(u2) ==> PlainLinks() && Sure(v)
      decreases |known - instance.Keys|, Full(instance, rank, u1), 1
    {
      if u1.head.Array? && u1.head.size != u2.head.size {
        v := Refused(ArraySizeMismatch);
      } else if u1.head.Tensor? && |u1.head.dims| != |u2.head.dims| {
        v := Refused(TensorRankMismatch);
      } else if u1.head.Tensor? && !DimsAgree(u1.head.dims, u2.head.dims) {
        v := Refused(TensorShapeMismatch);
      } else if |u1.kids| != |u2.kids| {
        v := Refused(if u1.head.Function? then ParameterCountMismatch else TupleSizeMismatch);
      } else {
        v := UnifyComponents(u1, u2);
        return;
      }
      DifferentOutcome(instance, u1, u2, v.error);
    }

    /** Links the unbound variable `x` to `t`, unless it occurs in it. */
    method UnifyVariable(x: int, t: Ty) returns (v: Verdict)
      requires Valid() && x in known && Within(t, known)
      requires Root(Var(x)) && Root(t) && t != Var(x)
      modifies this`instance, this`rank
      ensures Valid() && Grown(old(instance), old(rank))
      ensures UnifyOutcome(old(instance), Var(x), t, instance, v)
      ensures old(PlainLinks()) && Plain(t) ==> PlainLinks() && Sure(v)
    {
      ghost var b, r := instance, rank;
      if t.Node? {
        var found := OccursIn(x, t);
        if found {
          OccursOutcome(b, instance, r, x, t);
          return Refused(CircularConstraint);
        }
        CompressedFull(b, instance, r, t);
        var circle := Contains(x, t);
        if circle {
          KnotOutcome(b, instance, r, x, t);
          if old(PlainLinks()) && Plain(t) {
            PlainIsNoKnot(b, r, x, t);
          }
          return Knot(x, t);
        }
      }
      ghost var c := instance;
      LinkRanked(c, r, x, t);
      instance := instance[x := t];
      rank := Lifted(c, r, x, t);
      LinkOutcome(b, c, r, x, t);
      return Unified;
    }

    method UnifyComponents(u1: Ty, u2: Ty) returns (v: Verdict)
      requires Valid() && u1.Node? && u2.Node? && Within(u1, known) && Within(u2, known)
      requires Descends(u1.head, u2.head) && |u1.kids| == |u2.kids|
      modifies this`instance, this`rank
      ensures Valid() && Grown(old(instance), old(rank))
      ensures UnifyOutcome(old(instance), u1, u2, instance, v)
      ensures old(PlainLinks()) && Plain(u1) && Plain(u2) ==> PlainLinks() && Sure(v)
      decreases |known - instance.Keys|, Full(instance, rank, u1), 0
    {
      ghost var b, r := instance, rank;
      for i := 0 to |u1.kids|
        invariant Valid() && Grown(b, r)
        invariant PrefixOutcome(b, u1.kids, u2.kids, i, instance)
        invariant old(PlainLinks()) && Plain(u1) && Plain(u2) ==> PlainLinks()
      {
        KidMeasure(b, r, instance, rank, u1, i);
        v := UnifyKid(u1, u2, i, b, r);
        if !v.Unified? {
          return;
        }
      }
      ComponentsUnified(b, u1, u2, instance);
      v := Unified;
    }

    /** One turn of the loop over the components: `b` and `r` are the store before the first. */
    method UnifyKid(u1: Ty, u2: Ty, i: nat, ghost b: Store, ghost r: int -> nat) returns (v: Verdict)
      requires Valid() && u1.Node? && u2.Node? && Within(u1, known) && Within(u2, known)
      requires |u1.kids| == |u2.kids| && i < |u1.kids| && Descends(u1.head, u2.head)
      requires Ranked(b, r) && Grown(b, r) && PrefixOutcome(b, u1.kids, u2.kids, i, instance)
      modifies this`instance, this`rank
      ensures Valid() && Grown(b, r)
      ensures v.Unified? ==> PrefixOutcome(b, u1.kids, u2.kids, i + 1, instance)
      ensures !v.Unified? ==> UnifyOutcome(b, u1, u2, instance, v)
      ensures old(PlainLinks()) && Plain(u1) && Plain(u2) ==> PlainLinks() && Sure(v)
      decreases |known - instance.Keys|, Full(instance, rank, u1.kids[i]), 4
    {
      ghost var c, q := instance, rank;
      if Plain(u1) && Plain(u2) {
        KidPlain(u1, i);
        KidPlain(u2, i);
      }
      v := UnifyKnown(u1.kids[i], u2.kids[i]);
      GrownTransitive(b, r, c, q);
      ComponentOutcome(b, u1, u2, i, c, instance, v);
    }

    /** `collect_free_vars` of a type. */
    method CollectFreeVars(t: Ty, acc: set<int>) returns (out: set<int>)
      requires Valid()
      ensures out == Collect(instance, rank, t, acc)
      decreases Top(rank, t), t, 1
    {
      if t.Var? {
        if t.id in instance {
          out := CollectFreeVars(instance[t.id], acc);
        } else {
          out := acc + {t.id};
        }
      } else if t.head.Tensor? {
        out := acc;
      } else {
        out := CollectFromAll(t.kids, acc);
        if t.head.Poly? {
          out := out - t.head.bound;
        }
      }
    }

    method CollectFromAll(ts: seq<Ty>, acc: set<int>) returns (out: set<int>)
      requires Valid()
      ensures out == CollectAll(instance, rank, ts, acc)
      decreases TopOf(rank, ts), ts, 0
    {
      out := acc;
      for i := 0 to |ts|
        invariant CollectAll(instance, rank, ts, acc) == CollectAll(instance, rank, ts[i..], out)
      {
        assert ts[i..][0] == ts[i] && ts[i..][1..] == ts[i + 1..];
        out := CollectFreeVars(ts[i], out);
      }
      assert ts[|ts|..] == [];
    }

    /** `substitute` of a type. */
    method SubstituteIn(t: Ty, m: map<int, Ty>) returns (u: Ty)
      requires Valid()
      ensures u == Substitute(instance, rank, t, m)
      decreases Top(rank, t), t
    {
      if t.Var? {
        if t.id in instance {
          u := SubstituteIn(instance[t.id], m);
        } else {
          u := if t.id in m then m[t.id] else t;
        }
      } else if t.head.Tensor? {
        u := t;
      } else if t.head.Poly? && |t.kids| == 1 {
        u := SubstituteIn(t.kids[0], m - t.head.bound);
      } else {
        var kids := [];
        for i := 0 to |t.kids|
          invariant |kids| == i
          invariant forall j | 0 <= j < i :: kids[j] == Substitute(instance, rank, t.kids[j], m)
        {
          var kid := SubstituteIn(t.kids[i], m);
          kids := kids + [kid];
        }
        u := Node(t.head, kids);
      }
    }

    /** Quantifies the ids that the walk finds in the type and not in the environment. */
    method Generalize(t: Ty, freeInEnv: set<int>) returns (g: Ty)
      requires Valid() && Within(t, known)
      modifies this`instance
      ensures Valid() && Compressed(old(instance), instance, rank) && (old(MonoLinks(instance)) ==> MonoLinks(instance))
      ensures var full := Full(old(instance), rank, t);
              && Quantifies(full, Walked(full) - freeInEnv, instance, rank, g)
              && (t.Node? ==> g == Quantify(Walked(full) - freeInEnv, t))
      ensures Within(g, known)
      ensures old(MonoLinks(instance)) && Mono(t) ==>
                var full := Full(old(instance), rank, t);
                Walked(full) == FreeVars(full) && Generalized(full, instance, rank, g, freeInEnv)
    {
      var u := Resolve(t);
      CompressedFull(old(instance), instance, rank, u);
      var freeVars := CollectFreeVars(u, {});
      CollectFull(instance, rank, u, {});
      if MonoLinks(instance) && Mono(u) {
        CollectMono(instance, rank, u, {});
      }
      g := Quantify(freeVars - freeInEnv, u);
    }

    /** The type of a declared function: the result is generalised first and the function around it
        afterwards, which never quantifies an id that the result has. */
    method GeneralizeFunction(params: seq<Ty>, result: Ty, freeInEnv: set<int>) returns (g: Ty, ghost f: Ty)
      requires Valid() && MonoLinks(instance) && Mono(result) && Within(result, known)
      requires forall i | 0 <= i < |params| :: Mono(params[i]) && Within(params[i], known)
      modifies this`instance
      ensures Valid() && Compressed(old(instance), instance, rank)
      ensures f.Node? && f.head == Function && |f.kids| == |params| + 1 && f.kids[..|params|] == params
      ensures var inParams, full := AllFree(old(instance), rank, params), Full(old(instance), rank, result);
              && g == Quantify(inParams - freeInEnv - FreeVars(full), f)
              && Generalized(full, instance, rank, f.kids[|params|], freeInEnv)
    {
      ghost var b, r := instance, rank;
      var generalized := Generalize(result, freeInEnv);
      ghost var mid := instance;
      f := Node(Function, params + [generalized]);
      FunctionBound(b, mid, r, params, result, generalized, freeInEnv);
      FunctionWithin(params, generalized, known);
      g := Generalize(Node(Function, params + [generalized]), freeInEnv);
      CompressedTransitive(b, mid, instance, r);
      CompressedFull(mid, instance, r, if generalized.Node? && generalized.head.Poly? then generalized.kids[0]
          else generalized);
    }

    /** A copy of the scheme's body with a new variable, recorded in `m`, for each quantified id. */
    method Instantiate(scheme: Ty) returns (t: Ty, ghost m: map<int, int>)
      requires Valid() && scheme.Node? && scheme.head.Poly? && |scheme.kids| == 1
      modifies this`nextVarId
      ensures IsInstance(instance, rank, scheme, m, t) && NewIds(m, scheme.head.bound, old(nextVarId), nextVarId)
      ensures old(Issued()) ==> Issued() && forall k | k in m.Values :: k !in known
    {
      var subst := NewVariables(scheme.head.bound);
      m := IdsOf(subst, old(nextVarId), nextVarId);
      t := SubstituteIn(scheme.kids[0], subst);
      InstanceOfMono(instance, rank, scheme, m);
    }

    method NewVariables(ids: set<int>) returns (subst: map<int, Ty>)
      modifies this`nextVarId
      ensures subst.Keys == ids && NewVars(subst, old(nextVarId), nextVarId)
    {
      var todo := ids;
      subst := map[];
      while todo != {}
        invariant todo <= ids && subst.Keys == ids - todo && NewVars(subst, old(nextVarId), nextVarId)
      {
        var x := AnyOf(todo);
        NewVarsGrow(subst, x, old(nextVarId), nextVarId);
        var tv := NewTypeVar();
        subst, todo := subst[x := tv], todo - {x};
      }
    }

    /** `PolyType::instantiate`, which counts on in whatever counter it is given. */
    method InstantiateFrom(scheme: Ty, counter: int) returns (t: Ty, next: int, ghost m: map<int, int>)
      requires Valid() && scheme.Node? && scheme.head.Poly? && |scheme.kids| == 1
      ensures IsInstance(instance, rank, scheme, m, t) && NewIds(m, scheme.head.bound, counter, next)
    {
      var todo, subst := scheme.head.bound, map[];
      next := counter;
      while todo != {}
        invariant todo <= scheme.head.bound && subst.Keys == scheme.head.bound - todo && NewVars(subst, counter, next)
      {
        var x := AnyOf(todo);
        NewVarsGrow(subst, x, counter, next);
        subst, todo, next := subst[x := Var(next)], todo - {x}, next + 1;
      }
      m := IdsOf(subst, counter, next);
      t := SubstituteIn(scheme.kids[0], subst);
      InstanceOfMono(instance, rank, scheme, m);
    }

    /** Two uses of a scheme: both instances keep the ids that the scheme leaves free, and those are
        all they share; every quantified id has become one of the next ids of the counter. */
    method UseTwice(scheme: Ty)
        returns (t1: Ty, t2: Ty, ghost m1: map<int, int>, ghost m2: map<int, int>, ghost mid: int)
      requires Valid() && MonoLinks(instance) && IsScheme(scheme)
      requires scheme.head.bound <= FreeVars(Full(instance, rank, scheme.kids[0]))
      modifies this`nextVarId
      ensures TwoInstances(Full(instance, rank, scheme.kids[0]), scheme.head.bound, t1, t2, m1, m2)
      ensures NewIds(m1, scheme.head.bound, old(nextVarId), mid) && NewIds(m2, scheme.head.bound, mid, nextVarId)
      ensures old(Issued()) ==> Issued() && Unused(m1) && Unused(m2)
    {
      t1, m1 := Instantiate(scheme);
      mid := nextVarId;
      t2, m2 := Instantiate(scheme);
      TwoInstancesShare(Full(instance, rank, scheme.kids[0]), scheme.head.bound, m1, m2, old(nextVarId), mid,
          nextVarId);
    }

    /** A type of which something is left to quantify becomes a scheme. */
    method GeneralizeFree(t: Ty, freeInEnv: set<int>) returns (g: Ty)
      requires Valid() && Within(t, known) && MonoLinks(instance) && Mono(t)
      requires !(FreeVars(Full(instance, rank, t)) <= freeInEnv)
      modifies this`instance
      ensures Valid() && MonoLinks(instance) && IsScheme(g)
      ensures Full(instance, rank, g.kids[0]) == Full(old(instance), rank, t)
      ensures g.head.bound == FreeVars(Full(old(instance), rank, t)) - freeInEnv
    {
      g := Generalize(t, freeInEnv);
    }

    /** Generalising a type and using it twice: the instances share exactly the ids that are free in
        the environment; each quantified id has become one of the next ids of the counter, one of its
        own in either instance. If all ids in use came from the counter, the new ones are unused. */
    method GeneralizeAndUseTwice(t: Ty, freeInEnv: set<int>)
        returns (t1: Ty, t2: Ty, ghost m1: map<int, int>, ghost m2: map<int, int>, ghost mid: int)
      requires Valid() && Within(t, known) && MonoLinks(instance) && Mono(t)
      requires !(FreeVars(Full(instance, rank, t)) <= freeInEnv)
      modifies this`instance, this`nextVarId
      ensures Valid()
      ensures var full := Full(old(instance), rank, t);
              var bound := FreeVars(full) - freeInEnv;
              && TwoInstances(full, bound, t1, t2, m1, m2)
              && NewIds(m1, bound, old(nextVarId), mid) && NewIds(m2, bound, mid, nextVarId)
      ensures old(Issued()) ==> Issued() && Unused(m1) && Unused(m2)
      ensures ApartFrom(m1, freeInEnv, old(nextVarId)) && ApartFrom(m2, freeInEnv, old(nextVarId))
    {
      ghost var full, lo := Full(instance, rank, t), nextVarId;
      ghost var bound := FreeVars(full) - freeInEnv;
      var g := GeneralizeFree(t, freeInEnv);
      t1, t2, m1, m2, mid := UseTwice(g);
      NewIdsAreNew(m1, bound, lo, mid, lo, freeInEnv);
      NewIdsAreNew(m2, bound, mid, nextVarId, lo, freeInEnv);
    }

    /** The new ids belong to no variable in the store and to none that `Unify` was given. */
    ghost predicate Unused(m: map<int, int>)
      reads this`known
    {
      forall k | k in m.Values :: k !in known
    }

    /** Reading a polymorphic name twice (check_primary_expr.cpp), each time with a copy of the
        counter: the two instances share all their ids, and the next new variable has one of them. */
    method ReadTwice(scheme: Ty) returns (t1: Ty, t2: Ty)
      requires Valid() && MonoLinks(instance) && IsScheme(scheme) && scheme.head.bound != {}
      requires scheme.head.bound <= FreeVars(Full(instance, rank, scheme.kids[0]))
      ensures FreeVars(t1) == FreeVars(t2) && nextVarId in FreeVars(t1)
    {
      var next;
      ghost var m1, m2;
      t1, next, m1 := InstantiateFrom(scheme, nextVarId);
      t2, next, m2 := InstantiateFrom(scheme, nextVarId);
      SameIds(Full(instance, rank, scheme.kids[0]), m1, m2, scheme.head.bound, nextVarId, next);
    }

    /** The store has more links than `b` had, or the same links, perhaps shortened. */
    ghost predicate Grown(b: Store, r: int -> nat)
      requires Ranked(b, r)
      reads this`instance, this`rank
    {
      b.Keys <= instance.Keys && (instance.Keys == b.Keys ==> rank == r && Compressed(b, instance, r))
    }

    lemma GrownTransitive(b: Store, r: int -> nat, c: Store, q: int -> nat)
      requires Ranked(b, r) && Ranked(c, q) && b.Keys <= c.Keys
      requires c.Keys == b.Keys ==> q == r && Compressed(b, c, r)
      requires Grown(c, q)
      ensures Grown(b, r)
    {
      if instance.Keys == b.Keys {
        CompressedTransitive(b, c, instance, r);
      }
    }

    lemma KidMeasure(b: Store, r: int -> nat, c: Store, q: int -> nat, u: Ty, i: nat)
      requires Ranked(b, r) && Ranked(c, q) && u.Node? && i < |u.kids| && b.Keys <= c.Keys <= known
      requires c.Keys == b.Keys ==> q == r && Compressed(b, c, r)
      ensures || |known - c.Keys| < |known - b.Keys|
              || (|known - c.Keys| == |known - b.Keys| && Full(c, q, u.kids[i]) < Full(b, r, u))
    {
      if c.Keys == b.Keys {
        CompressedFull(b, c, r, u.kids[i]);
        KidResolution(b, r, u, i);
      } else {
        FewerUnbound(known, b.Keys, c.Keys);
      }
    }
  }

  lemma KidAfter(b: Store, c: Store, r: int -> nat, u: Ty, i: nat)
    requires Ranked(b, r) && Compressed(b, c, r) && u.Node? && i < |u.kids|
    ensures Full(b, r, u).Node? && |Full(b, r, u).kids| == |u.kids|
    ensures Full(c, r, u.kids[i]) == Full(b, r, u).kids[i] && Full(c, r, u.kids[i]) < Full(b, r, u)
  {
    KidResolution(b, r, u, i);
    CompressedFull(b, c, r, u.kids[i]);
  }

  /** `v` is visible in one of the terms. */
  ghost predicate SeenAmong(v: int, ts: seq<Ty>) {
    exists j :: 0 <= j < |ts| && Seen(v, ts[j])
  }

  lemma SeenNext(v: int, t: Ty, i: nat)
    requires t.Node? && Searched(t.head) && i < |t.kids|
    ensures SeenAmong(v, t.kids[..i + 1]) <==> SeenAmong(v, t.kids[..i]) || Seen(v, t.kids[i])
    ensures Seen(v, t) <==> SeenAmong(v, t.kids)
    ensures Seen(v, t.kids[i]) ==> Seen(v, t)
  {
    var now, next := t.kids[..i], t.kids[..i + 1];
    assert next[i] == t.kids[i] && forall j | 0 <= j < i :: next[j] == now[j];
  }

  /** The next item in a container's unspecified iteration order. */
  method AnyOf<T>(items: set<T>) returns (x: T)
    requires items != {}
    ensures x in items
  {
    x :| x in items;
  }

  /** The kinds whose components `unify` looks at when both sides have that kind. */
  predicate Constructed(h: Head) {
    Searched(h) || h.Tensor?
  }

  predicate SameKind(h1: Head, h2: Head) {
    match (h1, h2)
    case (Int(_), Int(_)) => true
    case (Float(_), Float(_)) => true
    case (LowLevel(_), LowLevel(_)) => true
    case (Class(_), Class(_)) => true
    case (Interface(_), Interface(_)) => true
    case (Enum(_), Enum(_)) => true
    case (Array(_), Array(_)) => true
    case (Tensor(_), Tensor(_)) => true
    case (Poly(_), Poly(_)) => true
    case _ => h1 == h2
  }

  /** The variables of `subst` are different and have ids from `lo` up to `hi`. */
  ghost predicate NewVars(subst: map<int, Ty>, lo: int, hi: int) {
    && hi == lo + |subst|
    && (forall x | x in subst :: subst[x].Var? && lo <= subst[x].id < hi)
    && (forall x, y | x in subst && y in subst && subst[x] == subst[y] :: x == y)
  }

  /** `m` gives each of `ids` another id; these are the ids from `lo` up to `hi`. */
  ghost predicate NewIds(m: map<int, int>, ids: set<int>, lo: int, hi: int) {
    m.Keys == ids && hi == lo + |ids| && Injective(m) && forall k :: k in m.Values <==> lo <= k < hi
  }

  /** No new id is one of `ids`, if those are older than the counter. */
  ghost predicate ApartFrom(m: map<int, int>, ids: set<int>, counter: int) {
    (forall x | x in ids :: x < counter) ==> m.Values !! ids
  }

  lemma NewIdsAreNew(m: map<int, int>, ids: set<int>, lo: int, hi: int, counter: int, inUse: set<int>)
    requires NewIds(m, ids, lo, hi) && counter <= lo
    ensures ApartFrom(m, inUse, counter)
  {
    if forall x | x in inUse :: x < counter {
      forall k | k in m.Values ensures k !in inUse {
        assert lo <= k;
      }
    }
  }

  /** A variable for each new id. */
  ghost function Variables(m: map<int, int>): map<int, Ty> {
    map x | x in m :: Var(m[x])
  }

  /** The instance is what the walk of `substitute` makes of the body; for a scheme as the
      environment stores it, that is the renamed resolution of the body. */
  ghost predicate IsInstance(b: Store, r: int -> nat, scheme: Ty, m: map<int, int>, t: Ty)
    requires Ranked(b, r) && scheme.Node? && |scheme.kids| == 1
  {
    && t == Substitute(b, r, scheme.kids[0], Variables(m))
    && (MonoLinks(b) && IsScheme(scheme) ==> t == Apply(Renaming(m), Full(b, r, scheme.kids[0])))
  }

  lemma InstanceOfMono(b: Store, r: int -> nat, scheme: Ty, m: map<int, int>)
    requires Ranked(b, r) && scheme.Node? && |scheme.kids| == 1
    ensures IsInstance(b, r, scheme, m, Substitute(b, r, scheme.kids[0], Variables(m)))
  {
    if MonoLinks(b) && IsScheme(scheme) {
      SubstituteMono(b, r, scheme.kids[0], Variables(m));
      ApplyAgrees(AsAssignment(Variables(m)), Renaming(m), Full(b, r, scheme.kids[0]));
    }
  }

  lemma NewVarsGrow(subst: map<int, Ty>, x: int, lo: int, hi: int)
    requires NewVars(subst, lo, hi) && x !in subst
    ensures NewVars(subst[x := Var(hi)], lo, hi + 1)
  {
  }

  ghost function IdsFrom(lo: int, n: nat): (ids: set<int>)
    ensures |ids| == n
    ensures forall k :: k in ids <==> lo <= k < lo + n
  {
    if n == 0 then {} else IdsFrom(lo, n - 1) + {lo + n - 1}
  }

  lemma SameSize<T>(few: set<T>, many: set<T>)
    requires few <= many && |few| == |many|
    ensures few == many
  {
    assert many == few + (many - few) && |many| == |few| + |many - few|;
  }

  lemma KeyOf<K, V>(m: map<K, V>, v: V) returns (k: K)
    requires v in m.Values
    ensures k in m && m[k] == v
  {
    k :| k in m && m[k] == v;
  }

  /** As many new ids as there are between the bounds are all of those. */
  lemma IdsOf(subst: map<int, Ty>, lo: int, hi: int) returns (m: map<int, int>)
    requires NewVars(subst, lo, hi)
    ensures NewIds(m, subst.Keys, lo, hi) && subst == Variables(m)
  {
    m := map x | x in subst :: subst[x].id;
    assert forall x | x in m :: Var(m[x]) == subst[x];
    ValuesCount(m);
    assert m.Keys == subst.Keys;
    assert |m.Keys| == |subst|;
    forall k | k in m.Values ensures lo <= k < hi {
      var x := KeyOf(m, k);
    }
    SameSize(m.Values, IdsFrom(lo, |subst|));
  }

  /** What two uses of a scheme with body `full` have to do with each other. */
  ghost predicate TwoInstances(full: Ty, bound: set<int>, t1: Ty, t2: Ty, m1: map<int, int>, m2: map<int, int>) {
    && t1 == Apply(Renaming(m1), full) && m1.Keys == bound
    && t2 == Apply(Renaming(m2), full) && m2.Keys == bound
    && FreeVars(t1) == (FreeVars(full) - bound) + m1.Values
    && FreeVars(t2) == (FreeVars(full) - bound) + m2.Values
    && FreeVars(t1) * FreeVars(t2) == FreeVars(full) - bound
  }

  lemma SameIds(body: Ty, m1: map<int, int>, m2: map<int, int>, bound: set<int>, lo: int, hi: int)
    requires NewIds(m1, bound, lo, hi) && NewIds(m2, bound, lo, hi) && bound != {} && bound <= FreeVars(body)
    ensures FreeVars(Apply(Renaming(m1), body)) == FreeVars(Apply(Renaming(m2), body))
    ensures lo in FreeVars(Apply(Renaming(m1), body))
  {
    AllOccur(m1, body);
    AllOccur(m2, body);
    assert lo in m1.Values;
  }

  lemma TwoInstancesShare(full: Ty, bound: set<int>, m1: map<int, int>, m2: map<int, int>,
                          lo: int, mid: int, hi: int)
    requires NewIds(m1, bound, lo, mid) && NewIds(m2, bound, mid, hi) && bound <= FreeVars(full)
    ensures TwoInstances(full, bound, Apply(Renaming(m1), full), Apply(Renaming(m2), full), m1, m2)
  {
    InstancesShare(m1, m2, full);
  }

  lemma AllFreeCompressed(b: Store, c: Store, r: int -> nat, ts: seq<Ty>)
    requires Ranked(b, r) && Compressed(b, c, r)
    ensures AllFree(c, r, ts) == AllFree(b, r, ts)
  {
    forall t | t in ts ensures Full(c, r, t) == Full(b, r, t) {
      CompressedFull(b, c, r, t);
    }
  }

  function Quantify(bound: set<int>, t: Ty): Ty {
    if bound == {} then t else Node(Poly(bound), [t])
  }

  /** `g` is a type with the resolution `full`, or a scheme with `bound` and such a body. */
  ghost predicate Quantifies(full: Ty, bound: set<int>, c: Store, r: int -> nat, g: Ty)
    requires Ranked(c, r)
  {
    if bound == {} then Full(c, r, g) == full
    else g.Node? && g.head == Poly(bound) && |g.kids| == 1 && Full(c, r, g.kids[0]) == full
  }

  /** A generalised result is free in what the environment leaves free, and quantifies the rest. */
  ghost predicate Generalized(full: Ty, c: Store, r: int -> nat, g: Ty, freeInEnv: set<int>)
    requires Ranked(c, r)
  {
    if FreeVars(full) <= freeInEnv then Mono(g) && Full(c, r, g) == full
    else IsScheme(g) && g.head.bound == FreeVars(full) - freeInEnv && Full(c, r, g.kids[0]) == full
  }

  lemma FunctionBound(b: Store, c: Store, r: int -> nat, params: seq<Ty>, result: Ty, g: Ty, freeInEnv: set<int>)
    requires Ranked(b, r) && Compressed(b, c, r) && MonoLinks(c)
    requires forall i | 0 <= i < |params| :: Mono(params[i])
    requires Generalized(Full(b, r, result), c, r, g, freeInEnv)
    ensures Walked(Full(c, r, Node(Function, params + [g]))) - freeInEnv
         == AllFree(b, r, params) - freeInEnv - FreeVars(Full(b, r, result))
  {
    CollectFull(c, r, Node(Function, params + [g]), {});
    FunctionWalk(c, r, params, g);
    AllFreeCompressed(b, c, r, params);
    assert Quantified(g) == FreeVars(Full(b, r, result)) - freeInEnv && SchemeFree(c, r, g) <= freeInEnv;
  }

  lemma FunctionWithin(params: seq<Ty>, g: Ty, ids: set<int>)
    requires Within(g, ids) && forall i | 0 <= i < |params| :: Within(params[i], ids)
    ensures Within(Node(Function, params + [g]), ids)
  {
    var kids := params + [g];
    assert forall i | 0 <= i < |kids| :: kids[i] == if i < |params| then params[i] else g;
  }

  // ---------------------------------------------------------------- why each step keeps the promise

  lemma StoreWithin(b: Store, ids: set<int>, more: set<int>)
    requires ids <= more && forall x | x in b :: Within(b[x], ids)
    ensures forall x | x in b :: Within(b[x], more)
  {
    forall x | x in b ensures Within(b[x], more) {
      WithinFreeVars(b[x], ids);
      WithinFreeVars(b[x], more);
    }
  }

  lemma FewerUnbound(u: set<int>, b: set<int>, c: set<int>)
    requires b < c <= u
    ensures |u - c| < |u - b|
  {
    assert u - b == (u - c) + (c - b);
    assert c - b != {};
  }

  lemma KidPlain(u: Ty, i: nat)
    requires u.Node? && i < |u.kids| && Plain(u)
    ensures Plain(u.kids[i])
  {
    if !Searched(u.head) {
      ClosedIsPlain(u.kids[i]);
    }
  }

  lemma KidResolution(b: Store, r: int -> nat, u: Ty, i: nat)
    requires Ranked(b, r) && u.Node? && i < |u.kids|
    ensures Full(b, r, u).Node? && |Full(b, r, u).kids| == |u.kids|
    ensures Full(b, r, u).kids[i] == Full(b, r, u.kids[i])
    ensures Full(b, r, u.kids[i]) < Full(b, r, u)
  {
    assert Full(b, r, u).kids[i] == Full(b, r, u.kids[i]);
    assert Full(b, r, u).kids[i] < Full(b, r, u);
  }

  lemma {:induction false} ClosedIsPlain(t: Ty)
    requires FreeVars(t) == {}
    ensures Plain(t)
  {
    if t.Var? {
    } else {
      forall i | 0 <= i < |t.kids| ensures Plain(t.kids[i]) && FreeVars(t.kids[i]) == {} {
        assert forall x | x in FreeVars(t.kids[i]) :: x in FreeVars(t);
        ClosedIsPlain(t.kids[i]);
      }
    }
  }

  lemma CompressedOutcome(b: Store, c: Store, r: int -> nat)
    requires Ranked(b, r) && Compressed(b, c, r)
    ensures Entails(c, b) && Entails(b, c)
  {
    forall s: Assignment ensures Respects(s, b) <==> Respects(s, c) {
      CompressedRespects(b, c, r, s);
    }
  }

  /** An outcome for the resolved roots is an outcome for the terms themselves. */
  lemma TransferOutcome(b: Store, c: Store, r: int -> nat, t1: Ty, t2: Ty, u1: Ty, u2: Ty,
                        d: Store, v: Verdict)
    requires Ranked(b, r) && Compressed(b, c, r)
    requires Full(b, r, u1) == Full(b, r, t1) && Full(b, r, u2) == Full(b, r, t2)
    requires UnifyOutcome(c, u1, u2, d, v)
    ensures UnifyOutcome(b, t1, t2, d, v)
  {
    CompressedOutcome(b, c, r);
    forall s: Assignment | Respects(s, b)
      ensures Apply(s, t1) == Apply(s, u1) && Apply(s, t2) == Apply(s, u2)
    {
      FullIsMostGeneral(s, b, r, t1);
      FullIsMostGeneral(s, b, r, u1);
      FullIsMostGeneral(s, b, r, t2);
      FullIsMostGeneral(s, b, r, u2);
    }
  }

  lemma EqualsOutcome(b: Store, r: int -> nat, u1: Ty, u2: Ty)
    requires Ranked(b, r) && Equals(b, r, u1, u2)
    ensures UnifyOutcome(b, u1, u2, b, Unified)
  {
    forall s: Assignment | Respects(s, b) ensures Compatible(Apply(s, u1), Apply(s, u2)) {
      EqualsSound(s, b, r, u1, u2);
    }
  }

  lemma {:induction false} CompatibleSymmetric(a: Ty, b: Ty)
    requires Compatible(a, b)
    ensures Compatible(b, a)
  {
    if Same(a, b) {
      SameSymmetric(a, b);
    } else if !Coerces(a.head, b.head) {
      forall i | 0 <= i < |a.kids| ensures Compatible(b.kids[i], a.kids[i]) {
        CompatibleSymmetric(a.kids[i], b.kids[i]);
      }
    }
  }

  lemma {:induction false} SameSymmetric(a: Ty, b: Ty)
    requires Same(a, b)
    ensures Same(b, a)
  {
    if a.Var? {
    } else {
      forall i | 0 <= i < |a.kids| ensures Same(b.kids[i], a.kids[i]) {
        SameSymmetric(a.kids[i], b.kids[i]);
      }
    }
  }

  lemma SwapOutcome(b: Store, u1: Ty, u2: Ty, c: Store, v: Verdict)
    requires UnifyOutcome(b, u1, u2, c, v)
    ensures UnifyOutcome(b, u2, u1, c, v)
  {
    if v.Unified? {
      forall s: Assignment | Respects(s, c) ensures Compatible(Apply(s, u2), Apply(s, u1)) {
        CompatibleSymmetric(Apply(s, u1), Apply(s, u2));
      }
      forall s: Assignment | Respects(s, b) && Unifies(s, u2, u1) ensures Respects(s, c) {
        assert Unifies(s, u1, u2);
      }
    } else if v.Knot? || Sure(v) {
      forall s: Assignment | Respects(s, b) ensures !Unifies(s, u2, u1) {
        assert !Unifies(s, u1, u2);
      }
      forall s: Assignment | NeverCompatible(c, u1, u2) && Respects(s, c)
        ensures !Compatible(Apply(s, u2), Apply(s, u1))
      {
        if Compatible(Apply(s, u2), Apply(s, u1)) {
          CompatibleSymmetric(Apply(s, u2), Apply(s, u1));
        }
      }
    }
  }

  /** A variable properly inside a term has no finite type that makes the two equal. */
  lemma OccursOutcome(b: Store, c: Store, r: int -> nat, x: int, t: Ty)
    requires Ranked(b, r) && Compressed(b, c, r) && t.Node? && Seen(x, Full(b, r, t))
    ensures UnifyOutcome(b, Var(x), t, c, Refused(CircularConstraint))
  {
    CompressedOutcome(b, c, r);
    SeenOrHidden(Full(b, r, t), x);
    forall s: Assignment | Respects(s, b)
      ensures !Unifies(s, Var(x), t) && !Compatible(Apply(s, Var(x)), Apply(s, t))
    {
      FullIsMostGeneral(s, b, r, t);
      ApplyContains(s, x, Full(b, r, t));
      SeenIsDeeper(s, x, Full(b, r, t));
      if Compatible(s(x), Apply(s, t)) {
        CompatibleDepth(s(x), Apply(s, t));
      }
    }
  }

  /** Nor has one that hides in it. */
  lemma KnotOutcome(b: Store, c: Store, r: int -> nat, x: int, t: Ty)
    requires Ranked(b, r) && Compressed(b, c, r) && t.Node? && x !in b && x in FreeVars(Full(c, r, t))
    ensures UnifyOutcome(b, Var(x), t, c, Knot(x, t))
  {
    CompressedOutcome(b, c, r);
    LinkAcyclicIff(c, r, x, t);
    forall s: Assignment | Respects(s, b) ensures !Unifies(s, Var(x), t) {
      FullIsMostGeneral(s, c, r, t);
      ApplyContains(s, x, Full(c, r, t));
    }
  }

  lemma PlainIsNoKnot(b: Store, r: int -> nat, x: int, t: Ty)
    requires Ranked(b, r) && Plain(t) && forall y | y in b :: Plain(b[y])
    ensures x in FreeVars(Full(b, r, t)) ==> Seen(x, Full(b, r, t))
  {
    FullPlain(b, r, t);
    PlainHidesNothing(Full(b, r, t));
    SeenOrHidden(Full(b, r, t), x);
  }

  lemma LinkOutcome(b: Store, c: Store, r: int -> nat, x: int, t: Ty)
    requires Ranked(b, r) && Compressed(b, c, r) && x !in b
    ensures UnifyOutcome(b, Var(x), t, c[x := t], Unified)
  {
    CompressedOutcome(b, c, r);
    var d := c[x := t];
    forall s: Assignment | Respects(s, d)
      ensures Respects(s, c) && Compatible(Apply(s, Var(x)), Apply(s, t))
    {
      assert forall y | y in c :: d[y] == c[y];
      assert s(x) == Apply(s, d[x]);
      SameReflexive(Apply(s, t));
    }
    forall s: Assignment | Respects(s, b) && Unifies(s, Var(x), t) ensures Respects(s, d) {
      assert Respects(s, c);
    }
  }

  lemma DifferentOutcome(b: Store, u1: Ty, u2: Ty, e: UnifyError)
    requires u1.Node? && u2.Node? && (!HeadsEqual(u1.head, u2.head) || |u1.kids| != |u2.kids|)
    requires !Coerces(u1.head, u2.head) && (!Descends(u1.head, u2.head) || |u1.kids| != |u2.kids|)
    ensures UnifyOutcome(b, u1, u2, b, Refused(e))
  {
    forall s: Assignment ensures !Unifies(s, u1, u2) && !Compatible(Apply(s, u1), Apply(s, u2)) {
      assert Apply(s, u1).head == u1.head && |Apply(s, u1).kids| == |u1.kids|;
      assert Apply(s, u2).head == u2.head && |Apply(s, u2).kids| == |u2.kids|;
    }
  }

  /** Roots of different kinds, or of the same kind with nothing to unify inside, that are
      neither equal nor coerced, can never be made identical, unless they are opaque. */
  lemma MismatchOutcome(b: Store, r: int -> nat, u1: Ty, u2: Ty)
    requires Ranked(b, r) && u1.Node? && u2.Node?
    requires !Equals(b, r, u1, u2) && !Coerces(u1.head, u2.head)
    requires !(SameKind(u1.head, u2.head) && Constructed(u1.head))
    ensures UnifyOutcome(b, u1, u2, b, Refused(CannotUnify(u1, u2)))
  {
    if !SameKind(u1.head, u2.head) {
      DifferentOutcome(b, u1, u2, CannotUnify(u1, u2));
    } else if !Opaque(u1, u2) {
      EqualsClosed(b, r, u1, u2);
      SameReflexive(u1);
      forall s: Assignment ensures !Unifies(s, u1, u2) && !Compatible(Apply(s, u1), Apply(s, u2)) {
        ApplyIdentity(s, u1);
        ApplyIdentity(s, u2);
      }
    }
  }

  /** Plain terms are not opaque. */
  lemma PlainIsNotOpaque(u1: Ty, u2: Ty)
    requires Plain(u1) && Plain(u2)
    ensures !Opaque(u1, u2)
  {
    assert u1.Node? && !Searched(u1.head) ==> FreeVars(u1) == {};
    assert u2.Node? && !Searched(u2.head) ==> FreeVars(u2) == {};
  }

  /** The smallest refusal of types that could be made identical: a map from an undecided type
      against a map from integers. */
  lemma MapRefusedThoughUnifiable(s: Assignment)
    requires s(0) == Node(Int(64), [])
    ensures var k := Node(Int(64), []);
            var m1, m2 := Node(Map, [Var(0), k]), Node(Map, [k, k]);
            Opaque(m1, m2) && Unifies(s, m1, m2) && !Equals(Unlinked(), NoRank(), m1, m2)
  {
    var k := Node(Int(64), []);
    var m1, m2 := Node(Map, [Var(0), k]), Node(Map, [k, k]);
    assert 0 in FreeVars(m1.kids[0]) && 0 in FreeVars(m1);
    assert Apply(s, k) == k == Apply(s, Var(0));
    forall i | 0 <= i < 2 ensures Apply(s, m1).kids[i] == k == Apply(s, m2).kids[i] {
      assert m1.kids[i] in {Var(0), k} && m2.kids[i] == k;
    }
    assert Apply(s, m1).kids == Apply(s, m2).kids;
    assert !Equals(Unlinked(), NoRank(), m1.kids[0], m2.kids[0]);
  }

  // ---------------------------------------------------------------- component by component

  lemma PrefixExtends(b: Store, ts1: seq<Ty>, ts2: seq<Ty>, n: nat, c: Store, d: Store, v: Verdict)
    requires n < |ts1| && n < |ts2| && v.Unified?
    requires PrefixOutcome(b, ts1, ts2, n, c)
    requires UnifyOutcome(c, ts1[n], ts2[n], d, v)
    ensures PrefixOutcome(b, ts1, ts2, n + 1, d)
  {
    forall s: Assignment | Respects(s, b) && UnifiesPrefix(s, ts1, ts2, n + 1) ensures Respects(s, d) {
      assert UnifiesPrefix(s, ts1, ts2, n);
      assert Respects(s, c) && Unifies(s, ts1[n], ts2[n]);
    }
  }

  lemma KidsUnified(s: Assignment, u1: Ty, u2: Ty)
    requires u1.Node? && u2.Node? && |u1.kids| == |u2.kids| && Unifies(s, u1, u2)
    ensures forall n: nat | n <= |u1.kids| :: UnifiesPrefix(s, u1.kids, u2.kids, n)
    ensures forall i | 0 <= i < |u1.kids| :: Unifies(s, u1.kids[i], u2.kids[i])
  {
    forall i | 0 <= i < |u1.kids| ensures Unifies(s, u1.kids[i], u2.kids[i]) {
      assert Apply(s, u1).kids[i] == Apply(s, u2).kids[i];
    }
  }

  lemma ComponentRefused(b: Store, u1: Ty, u2: Ty, n: nat, c: Store, d: Store, v: Verdict)
    requires u1.Node? && u2.Node? && |u1.kids| == |u2.kids| && n < |u1.kids| && !v.Unified?
    requires Descends(u1.head, u2.head)
    requires PrefixOutcome(b, u1.kids, u2.kids, n, c)
    requires UnifyOutcome(c, u1.kids[n], u2.kids[n], d, v)
    ensures UnifyOutcome(b, u1, u2, d, v)
  {
    if v.Knot? || Sure(v) {
      forall s: Assignment | Respects(s, b) ensures !Unifies(s, u1, u2) {
        if Unifies(s, u1, u2) {
          KidsUnified(s, u1, u2);
        }
      }
    }
    if v.Refused? && Sure(v) {
      forall s: Assignment | Respects(s, d) ensures !Compatible(Apply(s, u1), Apply(s, u2)) {
        assert !Compatible(Apply(s, u1).kids[n], Apply(s, u2).kids[n]);
      }
    }
  }

  lemma ComponentOutcome(b: Store, u1: Ty, u2: Ty, n: nat, c: Store, d: Store, v: Verdict)
    requires u1.Node? && u2.Node? && |u1.kids| == |u2.kids| && n < |u1.kids| && Descends(u1.head, u2.head)
    requires PrefixOutcome(b, u1.kids, u2.kids, n, c)
    requires UnifyOutcome(c, u1.kids[n], u2.kids[n], d, v)
    ensures v.Unified? ==> PrefixOutcome(b, u1.kids, u2.kids, n + 1, d)
    ensures !v.Unified? ==> UnifyOutcome(b, u1, u2, d, v)
  {
    if v.Unified? {
      PrefixExtends(b, u1.kids, u2.kids, n, c, d, v);
    } else {
      ComponentRefused(b, u1, u2, n, c, d, v);
    }
  }

  lemma ComponentsUnified(b: Store, u1: Ty, u2: Ty, c: Store)
    requires u1.Node? && u2.Node? && Descends(u1.head, u2.head) && |u1.kids| == |u2.kids|
    requires PrefixOutcome(b, u1.kids, u2.kids, |u1.kids|, c)
    ensures UnifyOutcome(b, u1, u2, c, Unified)
  {
    forall s: Assignment | Respects(s, c) ensures Compatible(Apply(s, u1), Apply(s, u2)) {
      forall i | 0 <= i < |u1.kids| ensures Compatible(Apply(s, u1).kids[i], Apply(s, u2).kids[i]) {
        assert MadeCompatible(c, u1.kids[i], u2.kids[i]);
      }
    }
    forall s: Assignment | Respects(s, b) && Unifies(s, u1, u2) ensures Respects(s, c) {
      KidsUnified(s, u1, u2);
    }
  }

  // ---------------------------------------------------------------- most general unifiers

  /** After a success, and however many more links follow, the two resolved types are
      compatible; and every assignment that makes the two types identical factors through the
      store that `Unify` left, so what it found is a most general unifier. */
  lemma UnifiedIsMostGeneral(b: Store, t1: Ty, t2: Ty, c: Store, r: int -> nat, d: Store, q: int -> nat)
    requires Ranked(c, r) && UnifyOutcome(b, t1, t2, c, Unified)
    requires Ranked(d, q) && Entails(d, c)
    ensures Compatible(Full(d, q, t1), Full(d, q, t2))
    ensures forall s: Assignment, t: Ty ::
              Respects(s, b) && Unifies(s, t1, t2) ==> Apply(s, Full(c, r, t)) == Apply(s, t)
  {
    SolutionRespects(d, q);
    FullIsApply(d, q, t1);
    FullIsApply(d, q, t2);
    forall s: Assignment, t: Ty | Respects(s, b) && Unifies(s, t1, t2)
      ensures Apply(s, Full(c, r, t)) == Apply(s, t)
    {
      FullIsMostGeneral(s, c, r, t);
    }
  }

  /** The verdict is exact: `Unify` succeeds if and only if the types, resolved through the links it
      leaves, are compatible, unless it came upon opaque terms that differ or upon a circle; so on
      types without variables it decides compatibility. */
  lemma VerdictIsExact(b: Store, t1: Ty, t2: Ty, c: Store, r: int -> nat, v: Verdict)
    requires Ranked(c, r) && UnifyOutcome(b, t1, t2, c, v) && Sure(v)
    ensures v.Unified? <==> Compatible(Full(c, r, t1), Full(c, r, t2))
  {
    SolutionRespects(c, r);
    FullIsApply(c, r, t1);
    FullIsApply(c, r, t2);
  }
}
