/** The type terms of the checker (include/frontend/checker/type.hpp).

    A term is either a type variable, known by its id, or a `Node`: the kind of the type
    together with the data that is not itself a type (a width, a name, a size, dims,
    quantified ids) in its `Head`, and the types it is built from in `kids`.  A function
    keeps its parameter types followed by its return type. */
module Types {

  datatype Head =
    | Str | Chr | Bool | NoneKind | Vector | ErrorKind
    | Int(bits: int)
    | Float(bits: int)
    | LowLevel(typeName: string)
    | Class(name: string)
    | Interface(name: string)
    | Enum(name: string)
    | Option | Result | Future
    | Array(size: nat)
    | Tuple
    | Function
    | Map
    | Tensor(dims: seq<int>)
    | Poly(bound: set<int>)

  datatype Ty =
    | Var(id: int)
    | Node(head: Head, kids: seq<Ty>)

  /** An assignment of a type to every variable id. */
  type Assignment = int -> Ty

  /** The heads that the occurs check descends into. */
  predicate Searched(h: Head) {
    h.Option? || h.Result? || h.Future? || h.Array? || h.Tuple? || h.Function?
  }

  /** Variables anywhere in a term, also where the occurs check does not look. */
  ghost function FreeVars(t: Ty): set<int> {
    match t
    case Var(x) => {x}
    case Node(_, kids) => set i, x | 0 <= i < |kids| && x in FreeVars(kids[i]) :: x
  }

  /** Every variable of the term is among `ids`. */
  ghost predicate Within(t: Ty, ids: set<int>) {
    match t
    case Var(x) => x in ids
    case Node(_, kids) => forall i | 0 <= i < |kids| :: Within(kids[i], ids)
  }

  /** The occurs check comes across variable `x` in a term without links. */
  ghost predicate Seen(x: int, t: Ty) {
    match t
    case Var(y) => x == y
    case Node(h, kids) => Searched(h) && exists i | 0 <= i < |kids| :: Seen(x, kids[i])
  }

  /** The variable `x` occurs under a MAP, a TENSOR or a POLY_TYPE. */
  ghost predicate Hidden(x: int, t: Ty) {
    match t
    case Var(_) => false
    case Node(h, kids) =>
      if Searched(h) then exists i | 0 <= i < |kids| :: Hidden(x, kids[i]) else x in FreeVars(t)
  }

  /** No variable sits where the occurs check does not look: under MAP, TENSOR, POLY_TYPE
      (the other kinds outside `Searched` have no component types at all). */
  ghost predicate Plain(t: Ty) {
    match t
    case Var(_) => true
    case Node(h, kids) =>
      forall i | 0 <= i < |kids| ::
        if Searched(h) then Plain(kids[i]) else FreeVars(kids[i]) == {}
  }

  ghost function Apply(s: Assignment, t: Ty): Ty {
    match t
    case Var(x) => s(x)
    case Node(h, kids) => Node(h, seq(|kids|, i requires 0 <= i < |kids| => Apply(s, kids[i])))
  }

  // ---------------------------------------------------------------- compatibility

  predicate DimsAgree(d1: seq<int>, d2: seq<int>) {
    |d1| == |d2| && forall i | 0 <= i < |d1| :: d1[i] == -1 || d2[i] == -1 || d1[i] == d2[i]
  }

  predicate WidthsAgree(b1: int, b2: int) {
    b1 == 0 || b2 == 0 || b1 == b2
  }

  /** What each `equals` compares besides the component types. */
  predicate HeadsEqual(h1: Head, h2: Head) {
    match (h1, h2)
    case (Int(b1), Int(b2)) => WidthsAgree(b1, b2)
    case (Float(b1), Float(b2)) => WidthsAgree(b1, b2)
    case (Tensor(d1), Tensor(d2)) => DimsAgree(d1, d2)
    case (Poly(v1), Poly(v2)) => |v1| == |v2|
    case _ => h1 == h2
  }

  /** The two concrete coercions `unify` grants: enum with int, int with float. */
  predicate Coerces(h1: Head, h2: Head) {
    || (h1.Enum? && h2.Int?) || (h1.Int? && h2.Enum?)
    || (h1.Int? && h2.Float?) || (h1.Float? && h2.Int?)
  }

  /** The kinds on whose components `unify` calls itself, given that the heads fit. */
  predicate Descends(h1: Head, h2: Head) {
    || (Searched(h1) && h1 == h2)
    || (h1.Tensor? && h2.Tensor? && DimsAgree(h1.dims, h2.dims))
  }

  /** Structural equality up to undecided widths and dynamic dimensions. */
  ghost predicate Same(a: Ty, b: Ty) {
    match (a, b)
    case (Var(x), Var(y)) => x == y
    case (Node(h1, k1), Node(h2, k2)) =>
      HeadsEqual(h1, h2) && |k1| == |k2| && forall i | 0 <= i < |k1| :: Same(k1[i], k2[i])
    case _ => false
  }

  /** The relation `unify` establishes: `Same` up to the coercions, at any depth it descends to. */
  ghost predicate Compatible(a: Ty, b: Ty) {
    || Same(a, b)
    || (a.Node? && b.Node? &&
        (|| Coerces(a.head, b.head)
         || (Descends(a.head, b.head) && |a.kids| == |b.kids| &&
             forall i | 0 <= i < |a.kids| :: Compatible(a.kids[i], b.kids[i]))))
  }

  // ---------------------------------------------------------------- lemmas

  lemma {:induction false} SeenOrHidden(t: Ty, x: int)
    ensures x in FreeVars(t) <==> Seen(x, t) || Hidden(x, t)
  {
    if t.Var? || !Searched(t.head) {
    } else {
      forall i | 0 <= i < |t.kids|
        ensures x in FreeVars(t.kids[i]) <==> Seen(x, t.kids[i]) || Hidden(x, t.kids[i])
      {
        SeenOrHidden(t.kids[i], x);
      }
    }
  }

  lemma {:induction false} WithinFreeVars(t: Ty, ids: set<int>)
    ensures Within(t, ids) <==> FreeVars(t) <= ids
  {
    if t.Var? {
    } else {
      forall i | 0 <= i < |t.kids| ensures Within(t.kids[i], ids) <==> FreeVars(t.kids[i]) <= ids {
        WithinFreeVars(t.kids[i], ids);
      }
      if FreeVars(t) <= ids {
        forall i, x | 0 <= i < |t.kids| && x in FreeVars(t.kids[i]) ensures x in FreeVars(t) {}
        assert forall i | 0 <= i < |t.kids| :: FreeVars(t.kids[i]) <= ids;
      }
    }
  }

  /** The occurs check misses nothing in the plain terms, and only in those. */
  lemma {:induction false} PlainHidesNothing(t: Ty)
    ensures Plain(t) <==> forall x :: !Hidden(x, t)
  {
    if t.Var? {
    } else {
      forall i | 0 <= i < |t.kids| ensures Plain(t.kids[i]) <==> forall x :: !Hidden(x, t.kids[i]) {
        PlainHidesNothing(t.kids[i]);
      }
      if i, x :| 0 <= i < |t.kids| && (if Searched(t.head) then Hidden(x, t.kids[i]) else x in FreeVars(t.kids[i])) {
        assert Hidden(x, t);
      } else if !Searched(t.head) {
        assert forall i | 0 <= i < |t.kids| :: FreeVars(t.kids[i]) == {};
      }
    }
  }

  lemma {:induction false} SameReflexive(t: Ty)
    ensures Same(t, t)
  {
    if t.Var? {
    } else {
      forall i | 0 <= i < |t.kids| ensures Same(t.kids[i], t.kids[i]) {
        SameReflexive(t.kids[i]);
      }
    }
  }

  /** An assignment matters only on the free variables. */
  lemma {:induction false} ApplyAgrees(s1: Assignment, s2: Assignment, t: Ty)
    requires forall x | x in FreeVars(t) :: s1(x) == s2(x)
    ensures Apply(s1, t) == Apply(s2, t)
  {
    if t.Var? {
    } else {
      forall i | 0 <= i < |t.kids| ensures Apply(s1, t.kids[i]) == Apply(s2, t.kids[i]) {
        assert forall x | x in FreeVars(t.kids[i]) :: x in FreeVars(t);
        ApplyAgrees(s1, s2, t.kids[i]);
      }
    }
  }

  lemma {:induction false} ApplyIdentity(s: Assignment, t: Ty)
    requires forall x | x in FreeVars(t) :: s(x) == Var(x)
    ensures Apply(s, t) == t
  {
    if t.Var? {
    } else {
      forall i | 0 <= i < |t.kids| ensures Apply(s, t.kids[i]) == t.kids[i] {
        assert forall x | x in FreeVars(t.kids[i]) :: x in FreeVars(t);
        ApplyIdentity(s, t.kids[i]);
      }
      assert Apply(s, t).kids == t.kids;
    }
  }

  /** What an assignment puts in place of a variable sits inside the instantiated term,
      properly inside unless the term is that variable. */
  lemma {:induction false} ApplyContains(s: Assignment, x: int, t: Ty)
    requires x in FreeVars(t)
    ensures t.Var? ==> Apply(s, t) == s(x)
    ensures t.Node? ==> s(x) < Apply(s, t)
  {
    if t.Var? {
    } else {
      var i :| 0 <= i < |t.kids| && x in FreeVars(t.kids[i]);
      ApplyContains(s, x, t.kids[i]);
      assert Apply(s, t).kids[i] == Apply(s, t.kids[i]);
      assert Apply(s, t).kids[i] < Apply(s, t);
    }
  }

  /** The free variables of an instance are those of what replaces the free variables. */
  lemma {:induction false} FreeVarsApply(s: Assignment, t: Ty, y: int)
    ensures y in FreeVars(Apply(s, t)) <==> exists x :: x in FreeVars(t) && y in FreeVars(s(x))
  {
    if t.Var? {
    } else {
      var kids := Apply(s, t).kids;
      forall i | 0 <= i < |kids|
        ensures y in FreeVars(kids[i]) <==> exists x :: x in FreeVars(t.kids[i]) && y in FreeVars(s(x))
      {
        FreeVarsApply(s, t.kids[i], y);
      }
      if y in FreeVars(Apply(s, t)) {
        var i :| 0 <= i < |kids| && y in FreeVars(kids[i]);
        var x :| x in FreeVars(t.kids[i]) && y in FreeVars(s(x));
        assert x in FreeVars(t);
      }
      if x :| x in FreeVars(t) && y in FreeVars(s(x)) {
        var i :| 0 <= i < |t.kids| && x in FreeVars(t.kids[i]);
        assert y in FreeVars(kids[i]);
      }
    }
  }

  // ---------------------------------------------------------------- compatible types have one depth

  /** How deep a type is under the kinds that the occurs check descends into. */
  ghost function Depth(t: Ty): nat {
    if t.Node? && Searched(t.head) then 1 + DepthOf(t.kids) else 0
  }

  ghost function DepthOf(ts: seq<Ty>): (n: nat)
    ensures forall i | 0 <= i < |ts| :: Depth(ts[i]) <= n
  {
    if ts == [] then 0
    else
      var h, n := Depth(ts[0]), DepthOf(ts[1..]);
      assert forall i | 1 <= i < |ts| :: ts[i] == ts[1..][i - 1];
      if h < n then n else h
  }

  lemma {:induction false} DepthOfEqual(ts: seq<Ty>, us: seq<Ty>)
    requires |ts| == |us| && forall i | 0 <= i < |ts| :: Depth(ts[i]) == Depth(us[i])
    ensures DepthOf(ts) == DepthOf(us)
  {
    if ts == [] {
    } else {
      DepthOfEqual(ts[1..], us[1..]);
    }
  }

  lemma {:induction false} SameDepth(a: Ty, b: Ty)
    requires Same(a, b)
    ensures Depth(a) == Depth(b)
  {
    if a.Var? || !Searched(a.head) {
    } else {
      forall i | 0 <= i < |a.kids| ensures Depth(a.kids[i]) == Depth(b.kids[i]) {
        SameDepth(a.kids[i], b.kids[i]);
      }
      DepthOfEqual(a.kids, b.kids);
    }
  }

  lemma {:induction false} CompatibleDepth(a: Ty, b: Ty)
    requires Compatible(a, b)
    ensures Depth(a) == Depth(b)
  {
    if Same(a, b) {
      SameDepth(a, b);
    } else if Searched(a.head) {
      forall i | 0 <= i < |a.kids| ensures Depth(a.kids[i]) == Depth(b.kids[i]) {
        CompatibleDepth(a.kids[i], b.kids[i]);
      }
      DepthOfEqual(a.kids, b.kids);
    }
  }

  /** What is put for a visible variable is less deep than the instance around it. */
  lemma {:induction false} SeenIsDeeper(s: Assignment, x: int, t: Ty)
    requires Seen(x, t)
    ensures if t.Var? then Apply(s, t) == s(x) else Depth(s(x)) < Depth(Apply(s, t))
  {
    if t.Var? {
    } else {
      var i :| 0 <= i < |t.kids| && Seen(x, t.kids[i]);
      SeenIsDeeper(s, x, t.kids[i]);
      assert Apply(s, t).kids[i] == Apply(s, t.kids[i]);
      assert Depth(Apply(s, t).kids[i]) <= DepthOf(Apply(s, t).kids);
    }
  }
}
