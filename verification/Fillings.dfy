/** What it means that two types agree (`equals` in include/frontend/checker/type.hpp) or are
    compatible (`unify` in include/frontend/checker/unification.hpp), said without comparing them:
    by the types that an incomplete type may still become. */
module Fillings {
  import opened Types
  import opened Bindings
  import opened Unification

  // ---------------------------------------------------------------- what a type may become

  /** `g` is `h` with a width in place of an undecided one, dimensions in place of dynamic ones, and
      any ids in place of as many quantified ones. */
  predicate FillsHead(h: Head, g: Head) {
    match h
    case Int(bits) => g.Int? && (bits != 0 ==> g == h)
    case Float(bits) => g.Float? && (bits != 0 ==> g == h)
    case Tensor(dims) =>
      g.Tensor? && |g.dims| == |dims| && forall i | 0 <= i < |dims| && dims[i] != -1 :: g.dims[i] == dims[i]
    case Poly(bound) => g.Poly? && |g.bound| == |bound|
    case _ => g == h
  }

  /** ... everywhere in the type. */
  ghost predicate Fills(t: Ty, f: Ty) {
    match t
    case Var(_) => f == t
    case Node(h, kids) =>
      f.Node? && FillsHead(h, f.head) && |f.kids| == |kids| && forall i | 0 <= i < |kids| :: Fills(kids[i], f.kids[i])
  }

  /** The kinds whose components `unify` goes into. */
  predicate HasComponents(h: Head) {
    h.Option? || h.Result? || h.Future? || h.Array? || h.Tuple? || h.Function? || h.Tensor?
  }

  /** `c` is `t` with, among its components, some integers made enums or floats, or the other way. */
  ghost predicate Converts(t: Ty, c: Ty) {
    || c == t
    || (t.Node? && c.Node? && t.head.Int? && (c.head.Enum? || c.head.Float?))
    || (t.Node? && c.Node? && (t.head.Enum? || t.head.Float?) && c.head.Int?)
    || (t.Node? && c.Node? && HasComponents(t.head) && c.head == t.head && |c.kids| == |t.kids|
          && forall i | 0 <= i < |t.kids| :: Converts(t.kids[i], c.kids[i]))
  }

  // ---------------------------------------------------------------- agreeing is having a filling in common

  function CommonDims(d1: seq<int>, d2: seq<int>): seq<int>
    requires |d1| == |d2|
  {
    seq(|d1|, i requires 0 <= i < |d1| => if d1[i] == -1 then d2[i] else d1[i])
  }

  function CommonHead(h1: Head, h2: Head): Head {
    match (h1, h2)
    case (Int(b1), Int(_)) => if b1 == 0 then h2 else h1
    case (Float(b1), Float(_)) => if b1 == 0 then h2 else h1
    case (Tensor(d1), Tensor(d2)) => if |d1| == |d2| then Tensor(CommonDims(d1, d2)) else h1
    case _ => h1
  }

  lemma CommonHeadFills(h1: Head, h2: Head)
    requires HeadsEqual(h1, h2)
    ensures FillsHead(h1, CommonHead(h1, h2)) && FillsHead(h2, CommonHead(h1, h2))
  {
    match (h1, h2)
    case (Tensor(d1), Tensor(d2)) => assert CommonHead(h1, h2) == Tensor(CommonDims(d1, d2));
    case _ =>
  }

  lemma FilledHeadsEqual(h1: Head, h2: Head, g: Head)
    requires FillsHead(h1, g) && FillsHead(h2, g)
    ensures HeadsEqual(h1, h2)
  {
    if h1.Tensor? {
      forall i | 0 <= i < |h1.dims| ensures h1.dims[i] == -1 || h2.dims[i] == -1 || h1.dims[i] == h2.dims[i] {
        assert h1.dims[i] != -1 ==> g.dims[i] == h1.dims[i];
      }
    }
  }

  /** A filling that the two have in common, if there is one. */
  ghost function Common(a: Ty, b: Ty): Ty {
    if a.Node? && b.Node? && |a.kids| == |b.kids| then
      Node(CommonHead(a.head, b.head), seq(|a.kids|, i requires 0 <= i < |a.kids| => Common(a.kids[i], b.kids[i])))
    else a
  }

  lemma {:induction false} CommonFills(a: Ty, b: Ty)
    requires Same(a, b)
    ensures Fills(a, Common(a, b)) && Fills(b, Common(a, b))
  {
    if a.Var? {
    } else {
      CommonHeadFills(a.head, b.head);
      forall i | 0 <= i < |a.kids|
        ensures Fills(a.kids[i], Common(a.kids[i], b.kids[i])) && Fills(b.kids[i], Common(a.kids[i], b.kids[i]))
      {
        CommonFills(a.kids[i], b.kids[i]);
      }
    }
  }

  lemma {:induction false} FilledAreSame(a: Ty, b: Ty, f: Ty)
    requires Fills(a, f) && Fills(b, f)
    ensures Same(a, b)
  {
    if a.Var? {
    } else {
      FilledHeadsEqual(a.head, b.head, f.head);
      forall i | 0 <= i < |a.kids| ensures Same(a.kids[i], b.kids[i]) {
        FilledAreSame(a.kids[i], b.kids[i], f.kids[i]);
      }
    }
  }

  /** There is a type that both can become. */
  ghost predicate Meet(a: Ty, b: Ty) {
    exists f :: Fills(a, f) && Fills(b, f)
  }

  /** Two types agree if and only if there is a type that both can become. */
  lemma SameIff(a: Ty, b: Ty)
    ensures Same(a, b) <==> Meet(a, b)
  {
    if Same(a, b) {
      CommonFills(a, b);
      assert Fills(a, Common(a, b)) && Fills(b, Common(a, b));
    }
    if f :| Fills(a, f) && Fills(b, f) {
      FilledAreSame(a, b, f);
    }
  }

  // ---------------------------------------------------------------- compatible is converted and filled alike

  ghost function Converted(a: Ty, b: Ty): Ty
    requires Compatible(a, b)
  {
    if Same(a, b) then a
    else if Coerces(a.head, b.head) then b
    else Node(a.head, seq(|a.kids|, i requires 0 <= i < |a.kids| => Converted(a.kids[i], b.kids[i])))
  }

  lemma {:induction false} ConvertedFits(a: Ty, b: Ty)
    requires Compatible(a, b)
    ensures Converts(a, Converted(a, b)) && Same(Converted(a, b), b)
  {
    if Same(a, b) {
    } else if Coerces(a.head, b.head) {
      SameReflexive(b);
    } else {
      forall i | 0 <= i < |a.kids|
        ensures Converts(a.kids[i], Converted(a.kids[i], b.kids[i])) && Same(Converted(a.kids[i], b.kids[i]), b.kids[i])
      {
        ConvertedFits(a.kids[i], b.kids[i]);
      }
    }
  }

  lemma {:induction false} ConvertedIsCompatible(a: Ty, c: Ty, b: Ty)
    requires Converts(a, c) && Same(c, b)
    ensures Compatible(a, b)
  {
    if c == a || a.head.Int? || a.head.Enum? || a.head.Float? {
    } else {
      forall i | 0 <= i < |a.kids| ensures Compatible(a.kids[i], b.kids[i]) {
        ConvertedIsCompatible(a.kids[i], c.kids[i], b.kids[i]);
      }
    }
  }

  /** Two types are compatible if and only if the first, with some of its integers, enums and floats
      converted, and the second can become the same type. */
  lemma CompatibleIff(a: Ty, b: Ty)
    ensures Compatible(a, b) <==> exists c :: Converts(a, c) && Meet(c, b)
  {
    if Compatible(a, b) {
      ConvertedFits(a, b);
      SameIff(Converted(a, b), b);
    }
    forall c | Converts(a, c) && Meet(c, b) ensures Compatible(a, b) {
      SameIff(c, b);
      ConvertedIsCompatible(a, c, b);
    }
  }

  // ---------------------------------------------------------------- types with nothing left to decide

  /** Every width and dimension is decided, and nothing is quantified. */
  ghost predicate Decided(t: Ty) {
    t.Node? ==>
      && (t.head.Int? || t.head.Float? ==> t.head.bits != 0)
      && (t.head.Tensor? ==> -1 !in t.head.dims)
      && !t.head.Poly?
      && forall i | 0 <= i < |t.kids| :: Decided(t.kids[i])
  }

  /** At no place does one of the types have an integer and the other an enum or a float. */
  ghost predicate NoConversion(a: Ty, b: Ty) {
    a.Node? && b.Node? ==>
      && (a.head.Int? ==> !b.head.Enum? && !b.head.Float?)
      && (b.head.Int? ==> !a.head.Enum? && !a.head.Float?)
      && (|a.kids| == |b.kids| ==> forall i | 0 <= i < |a.kids| :: NoConversion(a.kids[i], b.kids[i]))
  }

  lemma {:induction false} DecidedFillsItself(t: Ty, f: Ty)
    requires Decided(t)
    ensures Fills(t, f) <==> f == t
  {
    if t.Var? || !f.Node? || |f.kids| != |t.kids| {
    } else {
      forall i | 0 <= i < |t.kids| ensures Fills(t.kids[i], f.kids[i]) <==> f.kids[i] == t.kids[i] {
        DecidedFillsItself(t.kids[i], f.kids[i]);
      }
      if t.head.Tensor? && FillsHead(t.head, f.head) {
        assert f.head.dims == t.head.dims;
      }
      assert f == t <==> f.head == t.head && f.kids == t.kids;
    }
  }

  lemma {:induction false} ConvertsNothing(a: Ty, c: Ty, b: Ty)
    requires NoConversion(a, b) && Converts(a, c) && Same(c, b)
    ensures c == a
  {
    if c == a {
    } else {
      forall i | 0 <= i < |a.kids| ensures c.kids[i] == a.kids[i] {
        ConvertsNothing(a.kids[i], c.kids[i], b.kids[i]);
      }
    }
  }

  /** Decided types agree only if they are equal. */
  lemma {:induction false} DecidedSameIff(a: Ty, b: Ty)
    requires Decided(a) && Decided(b)
    ensures Same(a, b) <==> a == b
  {
    SameIff(a, b);
    forall f ensures (Fills(a, f) <==> f == a) && (Fills(b, f) <==> f == b) {
      DecidedFillsItself(a, f);
      DecidedFillsItself(b, f);
    }
    assert a == b ==> Fills(a, a) && Fills(b, a);
  }

  /** ... and where nothing can be converted they are compatible only if they are equal. */
  lemma DecidedCompatibleIff(a: Ty, b: Ty)
    requires Decided(a) && Decided(b) && NoConversion(a, b)
    ensures Compatible(a, b) <==> a == b
  {
    DecidedSameIff(a, b);
    if Compatible(a, b) {
      ConvertedFits(a, b);
      ConvertsNothing(a, Converted(a, b), b);
    }
  }

  /** So `unify` refuses two different types without variables, with nothing left to decide and
      nothing to convert, and accepts equal ones. */
  method UnifyDecided(context: UnificationContext, a: Ty, b: Ty) returns (v: Verdict)
    requires context.Valid() && FreeVars(a) == FreeVars(b) == {} && Decided(a) && Decided(b) && NoConversion(a, b)
    modifies context`instance, context`rank, context`known
    ensures context.Valid() && (v.Unified? ==> a == b)
    ensures old(context.PlainLinks()) && a == b ==> v.Unified?
  {
    v := context.Unify(a, b);
    FullClosed(context.instance, context.rank, a);
    FullClosed(context.instance, context.rank, b);
    ClosedIsPlain(a);
    ClosedIsPlain(b);
    DecidedCompatibleIff(a, b);
    if v.Unified? || Sure(v) {
      VerdictIsExact(old(context.instance), a, b, context.instance, context.rank, v);
    }
  }

  /** The shape is part of a tensor type: all dimensions are compared, and not only the first. */
  lemma ShapesDiffer(element: Ty, d: int, d1: int, d2: int)
    requires Decided(element) && -1 !in [d, d1, d2] && d1 != d2
    ensures var a, b := Node(Tensor([d, d1]), [element]), Node(Tensor([d, d2]), [element]);
      !Compatible(a, b) && Compatible(a, Node(Tensor([d, -1]), [element]))
  {
    var a, b := Node(Tensor([d, d1]), [element]), Node(Tensor([d, d2]), [element]);
    assert [d, d1][1] != [d, d2][1];
    assert !DimsAgree(a.head.dims, b.head.dims);
    SameReflexive(element);
  }
}
