/** The rewrite patterns that the dialect registers (src/backend/nir/NarvalOps.cpp) over the
    operations of mlir/NarvalOps.td. An expression is an operation with the operations that
    define its operands below it. Tensor elements are exact numbers. */
module Folds {

  datatype Option<T> = None | Some(value: T)

  datatype Attribute = IntegerAttr(i: int) | FloatAttr(r: real) | OtherAttr(text: string)

  datatype Expr =
    | Argument(index: nat)
    | Constant(value: Attribute)
    | ComptimeConst(value: Attribute)
    | ComptimeCall(callee: string, args: seq<Expr>, numResults: nat, valueAttr: Option<Attribute>,
        resultAttr: Option<Attribute>)
    | Move(source: Expr)
    | Borrow(source: Expr)
    | TensorAdd(lhs: Expr, rhs: Expr)
    | TensorFill(fillValue: Expr, fillShape: seq<nat>)
    | TensorTranspose(input: Expr, permutation: seq<int>)

  // ---------------------------------------------------------------- values

  type Index = seq<nat>

  datatype Value =
    | Scalar(attribute: Attribute)
    | Tensor(shape: seq<nat>, at: imap<Index, real>)
    | Wrong

  predicate InBounds(shape: seq<nat>, x: Index) {
    |x| == |shape| && forall i | 0 <= i < |x| :: x[i] < shape[i]
  }

  ghost predicate Whole(v: Value) {
    v.Tensor? ==> forall x :: x in v.at <==> InBounds(v.shape, x)
  }

  function Number(a: Attribute): Option<real> {
    match a
    case IntegerAttr(i) => Some(i as real)
    case FloatAttr(r) => Some(r)
    case OtherAttr(_) => None
  }

  ghost function Filled(v: Value, shape: seq<nat>): Value {
    if v.Scalar? && Number(v.attribute).Some? then
      Tensor(shape, imap x | InBounds(shape, x) :: Number(v.attribute).value)
    else Wrong
  }

  ghost function Added(v: Value, w: Value): Value {
    if v.Tensor? && w.Tensor? && v.shape == w.shape && Whole(v) && Whole(w) then
      Tensor(v.shape, imap x | InBounds(v.shape, x) :: v.at[x] + w.at[x])
    else Wrong
  }

  predicate InRange(p: seq<int>) {
    forall i | 0 <= i < |p| :: 0 <= p[i] < |p|
  }

  predicate Injective(p: seq<int>) {
    forall i, j | 0 <= i < j < |p| :: p[i] != p[j]
  }

  predicate IsPermutation(p: seq<int>) {
    InRange(p) && Injective(p)
  }

  function IndexOf(p: seq<int>, j: int): (i: nat)
    requires j in p
    ensures i < |p| && p[i] == j
  {
    if p[0] == j then 0 else 1 + IndexOf(p[1..], j)
  }

  function Permuted(p: seq<int>, shape: seq<nat>): (r: seq<nat>)
    requires InRange(p) && |p| == |shape|
  {
    seq(|p|, i requires 0 <= i < |p| => shape[p[i]])
  }

  /** The index that `x` of the transposed tensor stands for: entry `p[i]` of it is `x[i]`. */
  function Scattered(p: seq<int>, x: Index): (y: Index)
    requires IsPermutation(p) && |p| == |x|
    ensures |y| == |x| && forall i | 0 <= i < |x| :: y[p[i]] == x[i]
  {
    PermutationHitsAll(p);
    var y := seq(|x|, j requires 0 <= j < |x| => x[IndexOf(p, j)]);
    assert forall i | 0 <= i < |x| :: IndexOf(p, p[i]) == i;
    y
  }

  /** `linalg.transpose`: dimension `i` of the result is dimension `p[i]` of the input. */
  ghost function Transposed(v: Value, p: seq<int>): Value {
    if v.Tensor? && IsPermutation(p) && |p| == |v.shape| && Whole(v) then
      var shape := Permuted(p, v.shape);
      Tensor(shape, imap x | InBounds(shape, x) :: (ScatteredInBounds(v.shape, p, x); v.at[Scattered(p, x)]))
    else Wrong
  }

  lemma ScatteredInBounds(shape: seq<nat>, p: seq<int>, x: Index)
    requires IsPermutation(p) && |p| == |shape| && InBounds(Permuted(p, shape), x)
    ensures InBounds(shape, Scattered(p, x))
  {
    PermutationHitsAll(p);
    var y := Scattered(p, x);
    forall j | 0 <= j < |y| ensures y[j] < shape[j] {
      var i := IndexOf(p, j);
      assert y[p[i]] == x[i] && x[i] < shape[p[i]];
    }
  }

  // ---------------------------------------------------------------- counting

  ghost function UpTo(n: nat): (s: set<int>)
    ensures |s| == n && forall x :: x in s <==> 0 <= x < n
  {
    if n == 0 then {} else UpTo(n - 1) + {n - 1}
  }

  ghost function Values(p: seq<int>): (s: set<int>)
    ensures forall x :: x in s <==> x in p
    ensures Injective(p) ==> |s| == |p|
  {
    if p == [] then {} else
      assert Injective(p) ==> p[|p| - 1] !in p[..|p| - 1];
      Values(p[..|p| - 1]) + {p[|p| - 1]}
  }

  lemma SubsetOfSameSize(a: set<int>, b: set<int>)
    requires a <= b && |a| == |b|
    ensures a == b
  {
    assert b == a + (b - a) && |b| == |a| + |b - a|;
  }

  /** The pigeonhole principle: an injection of 0..n into itself hits every number. */
  lemma PermutationHitsAll(p: seq<int>)
    requires IsPermutation(p)
    ensures forall j | 0 <= j < |p| :: j in p
  {
    assert Values(p) <= UpTo(|p|);
    SubsetOfSameSize(Values(p), UpTo(|p|));
    forall j | 0 <= j < |p| ensures j in p {
      assert j in UpTo(|p|);
    }
  }

  // ---------------------------------------------------------------- the transposes that cancel

  /** `outer` undoes `inner` in the order that the pattern tests. */
  predicate Composes(outer: seq<int>, inner: seq<int>)
    requires |outer| == |inner| && InRange(inner)
  {
    forall i | 0 <= i < |inner| :: outer[inner[i]] == i
  }

  /** The test of the pattern: fill `composed`, then look for an entry that is not its own index. */
  method ComposedIsIdentity(outer: seq<int>, inner: seq<int>) returns (isIdentity: bool)
    requires |outer| == |inner| && InRange(inner)
    ensures isIdentity <==> Composes(outer, inner)
  {
    var composed := new int[|outer|];
    for i := 0 to |inner|
      invariant forall k | 0 <= k < i :: composed[k] == outer[inner[k]]
    {
      composed[i] := outer[inner[i]];
    }
    isIdentity := true;
    for i := 0 to composed.Length
      invariant isIdentity && forall k | 0 <= k < i :: composed[k] == k
    {
      if composed[i] != i {
        isIdentity := false;
        assert outer[inner[i]] != i;
        break;
      }
    }
  }

  /** The test asks for `outer` after `inner` to be the identity, the meaning for `inner` after
      `outer`: on finite index lists the first implies the second, and both are permutations. */
  lemma LeftInverseIsRightInverse(outer: seq<int>, inner: seq<int>)
    requires |outer| == |inner| && InRange(inner) && Composes(outer, inner)
    ensures IsPermutation(inner) && IsPermutation(outer) && Composes(inner, outer)
  {
    forall i, j | 0 <= i < j < |inner| ensures inner[i] != inner[j] {
      assert outer[inner[i]] == i && outer[inner[j]] == j;
    }
    PermutationHitsAll(inner);
    forall j | 0 <= j < |outer| ensures 0 <= outer[j] < |outer| && inner[outer[j]] == j {
      var i := IndexOf(inner, j);
      assert outer[inner[i]] == i;
    }
    forall i, j | 0 <= i < j < |outer| ensures outer[i] != outer[j] {
      assert inner[outer[i]] == i && inner[outer[j]] == j;
    }
  }

  lemma ScatteredTwice(outer: seq<int>, inner: seq<int>, x: Index)
    requires |outer| == |inner| == |x| && IsPermutation(outer) && IsPermutation(inner) && Composes(inner, outer)
    ensures Scattered(inner, Scattered(outer, x)) == x
  {
    var y := Scattered(outer, x);
    var z := Scattered(inner, y);
    forall i | 0 <= i < |x| ensures z[i] == x[i] {
      assert z[inner[outer[i]]] == y[outer[i]] && y[outer[i]] == x[i];
    }
  }

  lemma PermutedTwice(outer: seq<int>, inner: seq<int>, shape: seq<nat>)
    requires |outer| == |inner| == |shape| && InRange(outer) && InRange(inner) && Composes(inner, outer)
    ensures Permuted(outer, Permuted(inner, shape)) == shape
  {
  }

  lemma {:induction false} TransposesCancel(v: Value, outer: seq<int>, inner: seq<int>)
    requires |outer| == |inner| && InRange(inner) && Composes(outer, inner)
    requires v.Tensor? && Whole(v) && |v.shape| == |inner|
    ensures Transposed(Transposed(v, inner), outer) == v
  {
    LeftInverseIsRightInverse(outer, inner);
    PermutedTwice(outer, inner, v.shape);
    var once := Transposed(v, inner);
    var twice := Transposed(once, outer);
    forall x | InBounds(v.shape, x) ensures twice.at[x] == v.at[x] {
      ScatteredInBounds(once.shape, outer, x);
      ScatteredInBounds(v.shape, inner, Scattered(outer, x));
      ScatteredTwice(outer, inner, x);
    }
    assert twice.at == v.at;
  }

  /** For two permutations the pattern applies exactly when the two transposes are the identity
      on every tensor of that rank. */
  lemma {:induction false} DoubleTransposeIff(outer: seq<int>, inner: seq<int>)
    requires |outer| == |inner| && IsPermutation(inner) && IsPermutation(outer)
    ensures Composes(outer, inner) <==>
            forall v: Value | v.Tensor? && Whole(v) && |v.shape| == |inner| ::
              Transposed(Transposed(v, inner), outer) == v
  {
    if Composes(outer, inner) {
      forall v: Value | v.Tensor? && Whole(v) && |v.shape| == |inner|
        ensures Transposed(Transposed(v, inner), outer) == v
      {
        TransposesCancel(v, outer, inner);
      }
    } else {
      TransposesDiffer(outer, inner);
    }
  }

  lemma TransposesDiffer(outer: seq<int>, inner: seq<int>)
    requires |outer| == |inner| && IsPermutation(inner) && IsPermutation(outer) && !Composes(outer, inner)
    ensures exists v: Value ::
              v.Tensor? && Whole(v) && |v.shape| == |inner| && Transposed(Transposed(v, inner), outer) != v
  {
    var shape: seq<nat> := seq(|inner|, i requires 0 <= i => i);
    var v := Tensor(shape, imap x | InBounds(shape, x) :: 0.0);
    var once := Transposed(v, inner);
    var twice := Transposed(once, outer);
    if forall i | 0 <= i < |inner| :: inner[outer[i]] == i {
      LeftInverseIsRightInverse(inner, outer);
    } else {
      var i :| 0 <= i < |inner| && inner[outer[i]] != i;
      assert twice.shape[i] == once.shape[outer[i]] == shape[inner[outer[i]]];
    }
  }

  // ---------------------------------------------------------------- the patterns

  function FoldComptimeCall(e: Expr): Option<Expr>
    requires e.ComptimeCall?
  {
    if e.numResults != 1 then None
    else if e.valueAttr.Some? then Some(ComptimeConst(e.valueAttr.value))
    else if e.resultAttr.Some? then Some(ComptimeConst(e.resultAttr.value))
    else None
  }

  function FoldMove(e: Expr): Option<Expr>
    requires e.Move?
  {
    match e.source
    case Move(x) => Some(Move(x))
    case Borrow(x) => Some(x)
    case _ => None
  }

  predicate IsZero(a: Attribute) {
    match a
    case IntegerAttr(i) => i == 0
    case FloatAttr(r) => r == 0.0
    case OtherAttr(_) => false
  }

  function FoldAdd(e: Expr): Option<Expr>
    requires e.TensorAdd?
  {
    if e.rhs.TensorFill? && e.rhs.fillValue.Constant? && IsZero(e.rhs.fillValue.value) then Some(e.lhs) else None
  }

  function FoldTranspose(e: Expr): Option<Expr>
    requires e.TensorTranspose? && (e.input.TensorTranspose? ==> InRange(e.input.permutation))
  {
    if e.input.TensorTranspose? && |e.permutation| == |e.input.permutation|
        && Composes(e.permutation, e.input.permutation)
    then Some(e.input.input) else None
  }

  /** The registered pattern that matches at an operation, if one does. */
  function Fold(e: Expr): Option<Expr>
    requires Indexable(e)
  {
    match e
    case ComptimeConst(a) => Some(Constant(a))
    case ComptimeCall(_, _, _, _, _) => FoldComptimeCall(e)
    case Move(_) => FoldMove(e)
    case TensorAdd(_, _) => FoldAdd(e)
    case TensorTranspose(_, _) => FoldTranspose(e)
    case _ => None
  }

  /** The permutations that the transpose pattern indexes with are lists of dimensions. */
  predicate Indexable(e: Expr) {
    e.TensorTranspose? ==> InRange(e.permutation) && (e.input.TensorTranspose? ==> InRange(e.input.permutation))
  }

  method MatchTranspose(e: Expr) returns (r: Option<Expr>)
    requires e.TensorTranspose? && Indexable(e)
    ensures r == Fold(e)
  {
    if !e.input.TensorTranspose? || |e.permutation| != |e.input.permutation| {
      return None;
    }
    var isIdentity := ComposedIsIdentity(e.permutation, e.input.permutation);
    return if isIdentity then Some(e.input.input) else None;
  }

  // ---------------------------------------------------------------- what operations compute

  /** The values of the arguments, and what the compile-time functions return. */
  datatype Env = Env(argument: nat -> Value, call: (string, seq<Value>) -> Value)

  ghost function Eval(env: Env, e: Expr): Value {
    match e
    case Argument(i) => env.argument(i)
    case Constant(a) => Scalar(a)
    case ComptimeConst(a) => Scalar(a)
    case ComptimeCall(f, args, _, _, _) => env.call(f, EvalAll(env, args))
    case Move(x) => Eval(env, x)
    case Borrow(x) => Eval(env, x)
    case TensorAdd(l, r) => Added(Eval(env, l), Eval(env, r))
    case TensorFill(x, shape) => Filled(Eval(env, x), shape)
    case TensorTranspose(x, p) => Transposed(Eval(env, x), p)
  }

  ghost function EvalAll(env: Env, es: seq<Expr>): (vs: seq<Value>)
    ensures |vs| == |es| && forall i | 0 <= i < |es| :: vs[i] == Eval(env, es[i])
  {
    if es == [] then [] else [Eval(env, es[0])] + EvalAll(env, es[1..])
  }

  /** Every operation has a value, and a compile-time call that carries its value carries the right
      one: the attribute `value`, or `result` where there is no `value`. */
  ghost predicate Good(env: Env, e: Expr) {
    && Eval(env, e) != Wrong
    && match e
       case ComptimeCall(f, args, n, value, result) =>
         && (n == 1 && value.Some? ==> Eval(env, e) == Scalar(value.value))
         && (n == 1 && value.None? && result.Some? ==> Eval(env, e) == Scalar(result.value))
         && forall i | 0 <= i < |args| :: Good(env, args[i])
       case Move(x) => Good(env, x)
       case Borrow(x) => Good(env, x)
       case TensorAdd(l, r) => Good(env, l) && Good(env, r)
       case TensorFill(x, _) => Good(env, x)
       case TensorTranspose(x, _) => Good(env, x)
       case _ => true
  }

  function Measure(e: Expr): (m: nat)
    ensures m >= 1
  {
    match e
    case ComptimeConst(_) => 2
    case ComptimeCall(_, args, _, _, _) => 3 + MeasureAll(args)
    case Move(x) => 1 + Measure(x)
    case Borrow(x) => 1 + Measure(x)
    case TensorAdd(l, r) => 1 + Measure(l) + Measure(r)
    case TensorFill(x, _) => 1 + Measure(x)
    case TensorTranspose(x, _) => 1 + Measure(x)
    case _ => 1
  }

  function MeasureAll(es: seq<Expr>): nat {
    if es == [] then 0 else Measure(es[0]) + MeasureAll(es[1..])
  }

  // ---------------------------------------------------------------- rewriting keeps the meaning

  /** One pattern applied at one place. */
  ghost predicate Rewrites(e: Expr, f: Expr)
    decreases e
  {
    || (Indexable(e) && Fold(e) == Some(f))
    || match e
       case ComptimeCall(c, args, n, v, r) =>
         && f.ComptimeCall? && f == ComptimeCall(c, f.args, n, v, r) && |f.args| == |args|
         && exists i :: 0 <= i < |args| && Rewrites(args[i], f.args[i]) && f.args == args[i := f.args[i]]
       case Move(x) => f.Move? && Rewrites(x, f.source)
       case Borrow(x) => f.Borrow? && Rewrites(x, f.source)
       case TensorAdd(l, r) =>
         f.TensorAdd? && ((Rewrites(l, f.lhs) && f.rhs == r) || (f.lhs == l && Rewrites(r, f.rhs)))
       case TensorFill(x, shape) => f.TensorFill? && f.fillShape == shape && Rewrites(x, f.fillValue)
       case TensorTranspose(x, p) => f.TensorTranspose? && f.permutation == p && Rewrites(x, f.input)
       case _ => false
  }

  lemma ZeroAddsNothing(v: Value, a: Attribute, shape: seq<nat>)
    requires IsZero(a) && v.Tensor? && Whole(v)
    ensures Added(v, Filled(Scalar(a), shape)) == if shape == v.shape then v else Wrong
  {
    var sum := Added(v, Filled(Scalar(a), shape));
    if shape == v.shape {
      assert forall x | InBounds(v.shape, x) :: sum.at[x] == v.at[x];
      assert sum.at == v.at;
    }
  }

  /** So is addition that of the elements: it has a zero, it commutes, and constants add up. */
  lemma AdditionCommutes(v: Value, w: Value)
    ensures Added(v, w) == Added(w, v)
  {
    if Added(v, w).Tensor? {
      assert Added(v, w).at == Added(w, v).at;
    }
  }

  lemma ConstantsAdd(i: int, r: real, shape: seq<nat>)
    ensures Added(Filled(Scalar(IntegerAttr(i)), shape), Filled(Scalar(FloatAttr(r)), shape))
            == Filled(Scalar(FloatAttr(i as real + r)), shape)
    ensures Filled(Scalar(FloatAttr(r)), shape).Tensor? && Whole(Filled(Scalar(FloatAttr(r)), shape))
    ensures forall x | InBounds(shape, x) :: Filled(Scalar(FloatAttr(r)), shape).at[x] == r
  {
    var sum := Added(Filled(Scalar(IntegerAttr(i)), shape), Filled(Scalar(FloatAttr(r)), shape));
    var whole := Filled(Scalar(FloatAttr(i as real + r)), shape);
    assert forall x | InBounds(shape, x) :: sum.at[x] == whole.at[x];
    assert sum.at == whole.at;
  }

  function Both(outer: seq<int>, inner: seq<int>): (both: seq<int>)
    requires |outer| == |inner| && IsPermutation(outer) && IsPermutation(inner)
    ensures |both| == |outer| && IsPermutation(both) && forall i | 0 <= i < |both| :: both[i] == inner[outer[i]]
  {
    var both := seq(|outer|, i requires 0 <= i < |outer| => inner[outer[i]]);
    assert forall i, j | 0 <= i < j < |both| :: outer[i] != outer[j] && both[i] != both[j];
    both
  }

  lemma TransposedIsWhole(v: Value, p: seq<int>)
    requires v.Tensor? && Whole(v) && IsPermutation(p) && |p| == |v.shape|
    ensures Transposed(v, p).Tensor? && Transposed(v, p).shape == Permuted(p, v.shape) && Whole(Transposed(v, p))
  {
  }

  lemma PermutedBoth(outer: seq<int>, inner: seq<int>, shape: seq<nat>)
    requires IsPermutation(outer) && IsPermutation(inner) && |outer| == |inner| == |shape|
    ensures Permuted(outer, Permuted(inner, shape)) == Permuted(Both(outer, inner), shape)
  {
  }

  /** Two transposes are one, by `inner` after `outer`. */
  lemma TransposesCompose(v: Value, outer: seq<int>, inner: seq<int>)
    requires v.Tensor? && Whole(v) && IsPermutation(outer) && IsPermutation(inner) && |outer| == |inner| == |v.shape|
    ensures Transposed(Transposed(v, inner), outer) == Transposed(v, Both(outer, inner))
  {
    PermutedBoth(outer, inner, v.shape);
    TransposedIsWhole(v, inner);
    TransposedIsWhole(Transposed(v, inner), outer);
    TransposedIsWhole(v, Both(outer, inner));
    ElementsCompose(v, outer, inner);
    SameElements(Transposed(Transposed(v, inner), outer), Transposed(v, Both(outer, inner)));
  }

  lemma SameElements(v: Value, w: Value)
    requires v.Tensor? && w.Tensor? && v.shape == w.shape && Whole(v) && Whole(w)
    requires forall x | InBounds(v.shape, x) :: v.at[x] == w.at[x]
    ensures v == w
  {
    assert v.at == w.at;
  }

  lemma ElementsCompose(v: Value, outer: seq<int>, inner: seq<int>)
    requires v.Tensor? && Whole(v) && IsPermutation(outer) && IsPermutation(inner) && |outer| == |inner| == |v.shape|
    ensures var twice, direct := Transposed(Transposed(v, inner), outer), Transposed(v, Both(outer, inner));
            forall x | InBounds(Permuted(Both(outer, inner), v.shape), x) ::
              x in twice.at && x in direct.at && twice.at[x] == direct.at[x]
  {
    forall x | InBounds(Permuted(Both(outer, inner), v.shape), x)
      ensures var twice, direct := Transposed(Transposed(v, inner), outer), Transposed(v, Both(outer, inner));
              x in twice.at && x in direct.at && twice.at[x] == direct.at[x]
    {
      ElementComposes(v, outer, inner, x);
    }
  }

  lemma ElementComposes(v: Value, outer: seq<int>, inner: seq<int>, x: Index)
    requires v.Tensor? && Whole(v) && IsPermutation(outer) && IsPermutation(inner) && |outer| == |inner| == |v.shape|
    requires InBounds(Permuted(Both(outer, inner), v.shape), x)
    ensures var twice, direct := Transposed(Transposed(v, inner), outer), Transposed(v, Both(outer, inner));
            x in twice.at && x in direct.at && twice.at[x] == direct.at[x]
  {
    var once := Transposed(v, inner);
    PermutedBoth(outer, inner, v.shape);
    ScatteredInBounds(once.shape, outer, x);
    ScatteredInBounds(v.shape, inner, Scattered(outer, x));
    ScatteredBy(outer, inner, Both(outer, inner), x);
  }

  lemma ScatteredBy(outer: seq<int>, inner: seq<int>, both: seq<int>, x: Index)
    requires IsPermutation(outer) && IsPermutation(inner) && IsPermutation(both)
    requires |outer| == |inner| == |both| == |x| && forall i | 0 <= i < |both| :: both[i] == inner[outer[i]]
    ensures Scattered(inner, Scattered(outer, x)) == Scattered(both, x)
  {
    var y := Scattered(outer, x);
    var z, w := Scattered(inner, y), Scattered(both, x);
    PermutationHitsAll(both);
    forall j | 0 <= j < |x| ensures z[j] == w[j] {
      var i := IndexOf(both, j);
      assert w[both[i]] == x[i] && z[inner[outer[i]]] == y[outer[i]] && y[outer[i]] == x[i];
    }
  }

  /** Each pattern, where it applies, leaves the value, and makes the expression smaller. */
  lemma FoldKeepsValue(env: Env, e: Expr)
    requires Good(env, e) && Indexable(e) && Fold(e).Some?
    ensures Good(env, Fold(e).value) && Eval(env, Fold(e).value) == Eval(env, e)
    ensures Measure(Fold(e).value) < Measure(e)
  {
    match e
    case TensorAdd(l, r) =>
      assert Eval(env, r) == Filled(Eval(env, r.fillValue), r.fillShape);
      ZeroAddsNothing(Eval(env, l), r.fillValue.value, r.fillShape);
    case TensorTranspose(x, p) => TransposesCancel(Eval(env, x.input), p, x.permutation);
    case _ =>
  }

  lemma {:induction false} MeasureReplaced(es: seq<Expr>, i: nat, f: Expr)
    requires i < |es| && Measure(f) < Measure(es[i])
    ensures MeasureAll(es[i := f]) < MeasureAll(es)
  {
    if i == 0 {
    } else {
      MeasureReplaced(es[1..], i - 1, f);
      assert es[i := f][1..] == es[1..][i - 1 := f];
    }
  }

  lemma RewriteInCall(env: Env, e: Expr, i: nat, x: Expr)
    requires Good(env, e) && e.ComptimeCall? && i < |e.args|
    requires Good(env, x) && Eval(env, x) == Eval(env, e.args[i]) && Measure(x) < Measure(e.args[i])
    ensures var f := e.(args := e.args[i := x]); Good(env, f) && Eval(env, f) == Eval(env, e) && Measure(f) < Measure(e)
  {
    assert EvalAll(env, e.args[i := x]) == EvalAll(env, e.args);
    MeasureReplaced(e.args, i, x);
  }

  lemma {:induction false} RewriteKeepsValue(env: Env, e: Expr, f: Expr)
    requires Good(env, e) && Rewrites(e, f)
    ensures Good(env, f) && Eval(env, f) == Eval(env, e) && Measure(f) < Measure(e)
    decreases e
  {
    if Indexable(e) && Fold(e) == Some(f) {
      FoldKeepsValue(env, e);
    } else {
      match e
      case ComptimeCall(c, args, n, v, r) =>
        var i :| 0 <= i < |args| && Rewrites(args[i], f.args[i]) && f.args == args[i := f.args[i]];
        RewriteKeepsValue(env, args[i], f.args[i]);
        RewriteInCall(env, e, i, f.args[i]);
        assert f == e.(args := e.args[i := f.args[i]]);
      case Move(x) => RewriteKeepsValue(env, x, f.source);
      case Borrow(x) => RewriteKeepsValue(env, x, f.source);
      case TensorAdd(l, r) =>
        if Rewrites(l, f.lhs) && f.rhs == r {
          RewriteKeepsValue(env, l, f.lhs);
        } else {
          RewriteKeepsValue(env, r, f.rhs);
        }
      case TensorFill(x, _) => RewriteKeepsValue(env, x, f.fillValue);
      case TensorTranspose(x, _) => RewriteKeepsValue(env, x, f.input);
    }
  }

  /** However the patterns are applied, in any order and at any places: every expression on the
      way has the value of the first one, and there are at most as many as its measure. */
  lemma {:induction false} RewritingStops(env: Env, es: seq<Expr>)
    requires es != [] && Good(env, es[0]) && forall i | 0 < i < |es| :: Rewrites(es[i - 1], es[i])
    ensures |es| <= Measure(es[0])
    ensures forall i | 0 <= i < |es| :: Eval(env, es[i]) == Eval(env, es[0])
    decreases |es|
  {
    if |es| <= 1 {
    } else {
      RewriteKeepsValue(env, es[0], es[1]);
      assert forall i | 0 < i < |es[1..]| :: es[1..][i - 1] == es[i] && es[1..][i] == es[i + 1];
      RewritingStops(env, es[1..]);
      assert forall i | 0 < i < |es| :: es[i] == es[1..][i - 1];
    }
  }

  // ---------------------------------------------------------------- where rewriting ends

  /** Two transposes that leave every tensor of their rank as it is. */
  ghost predicate Undone(outer: seq<int>, inner: seq<int>) {
    && |outer| == |inner| && IsPermutation(outer) && IsPermutation(inner)
    && forall v: Value | v.Tensor? && Whole(v) && |v.shape| == |inner| :: Transposed(Transposed(v, inner), outer) == v
  }

  lemma UndoneIff(outer: seq<int>, inner: seq<int>)
    requires |outer| == |inner| && InRange(outer) && InRange(inner)
    ensures Composes(outer, inner) <==> Undone(outer, inner)
  {
    if Composes(outer, inner) {
      LeftInverseIsRightInverse(outer, inner);
    }
    if IsPermutation(outer) && IsPermutation(inner) {
      DoubleTransposeIff(outer, inner);
    }
  }

  ghost predicate Zero(e: Expr) {
    e == Constant(IntegerAttr(0)) || e == Constant(FloatAttr(0.0))
  }

  /** An expression without a compile-time constant, a call that carries its one value, a move of a
      move or of a borrow, the addition of a zero fill, or two transposes that undo each other. */
  ghost predicate Simple(e: Expr) {
    match e
    case Argument(_) => true
    case Constant(_) => true
    case ComptimeConst(_) => false
    case ComptimeCall(_, args, n, value, result) =>
      !(n == 1 && (value.Some? || result.Some?)) && forall i | 0 <= i < |args| :: Simple(args[i])
    case Move(x) => !x.Move? && !x.Borrow? && Simple(x)
    case Borrow(x) => Simple(x)
    case TensorAdd(l, r) => !(r.TensorFill? && Zero(r.fillValue)) && Simple(l) && Simple(r)
    case TensorFill(x, _) => Simple(x)
    case TensorTranspose(x, p) => !(x.TensorTranspose? && Undone(p, x.permutation)) && Simple(x)
  }

  /** No pattern matches at the operation itself exactly when it is not one of those. */
  lemma FoldsIff(e: Expr)
    ensures Indexable(e) && Fold(e).Some? <==>
      match e
      case ComptimeConst(_) => true
      case ComptimeCall(_, _, n, value, result) => n == 1 && (value.Some? || result.Some?)
      case Move(x) => x.Move? || x.Borrow?
      case TensorAdd(_, r) => r.TensorFill? && Zero(r.fillValue)
      case TensorTranspose(x, p) => x.TensorTranspose? && Undone(p, x.permutation)
      case _ => false
  {
    if e.TensorTranspose? && e.input.TensorTranspose? && |e.permutation| == |e.input.permutation| && Indexable(e) {
      UndoneIff(e.permutation, e.input.permutation);
    }
  }

  /** A pattern can be applied somewhere in the expression. */
  ghost predicate Reducible(e: Expr) {
    exists f :: Rewrites(e, f)
  }

  /** That is so if and only if the expression is not simple. */
  lemma {:induction false} SimpleIff(e: Expr)
    ensures Simple(e) <==> !Reducible(e)
  {
    FoldsIff(e);
    if Indexable(e) && Fold(e).Some? {
      assert Rewrites(e, Fold(e).value);
    } else {
      match e
      case ComptimeCall(_, _, _, _, _) => SimpleCallIff(e);
      case Move(x) => SimpleUnder(e, x);
      case Borrow(x) => SimpleUnder(e, x);
      case TensorAdd(l, r) =>
        SimpleIff(l);
        SimpleIff(r);
        if Reducible(l) {
          var g :| Rewrites(l, g);
          assert Rewrites(e, TensorAdd(g, r));
        } else if Reducible(r) {
          var g :| Rewrites(r, g);
          assert Rewrites(e, TensorAdd(l, g));
        } else {
          forall f ensures !Rewrites(e, f) {
            assert f.TensorAdd? ==> !Rewrites(l, f.lhs) && !Rewrites(r, f.rhs);
          }
        }
      case TensorFill(x, _) => SimpleUnder(e, x);
      case TensorTranspose(x, _) => SimpleUnder(e, x);
      case _ =>
    }
  }

  /** ... of an operation with one operand. */
  lemma {:induction false} SimpleUnder(e: Expr, x: Expr)
    requires e in {Move(x), Borrow(x)} || (e.TensorFill? && e.fillValue == x) || (e.TensorTranspose? && e.input == x)
    requires Indexable(e) ==> Fold(e).None?
    ensures Simple(e) <==> !Reducible(e)
    decreases e, 0
  {
    FoldsIff(e);
    SimpleIff(x);
    if Reducible(x) {
      var g :| Rewrites(x, g);
      var f := match e
        case Move(_) => Move(g)
        case Borrow(_) => Borrow(g)
        case TensorFill(_, shape) => TensorFill(g, shape)
        case TensorTranspose(_, p) => TensorTranspose(g, p)
        case _ => g;
      assert Rewrites(e, f);
    } else {
      forall f ensures !Rewrites(e, f) {
        assert f.Move? || f.Borrow? ==> !Rewrites(x, f.source);
        assert f.TensorFill? ==> !Rewrites(x, f.fillValue);
        assert f.TensorTranspose? ==> !Rewrites(x, f.input);
      }
    }
  }

  lemma {:induction false} SimpleCallIff(e: Expr)
    requires e.ComptimeCall? && Fold(e).None?
    ensures Simple(e) <==> !Reducible(e)
    decreases e, 0
  {
    var args := e.args;
    forall i | 0 <= i < |args| ensures Simple(args[i]) <==> !Reducible(args[i]) {
      SimpleIff(args[i]);
    }
    if Simple(e) {
      forall f ensures !Rewrites(e, f) {
        assert f.ComptimeCall? ==> forall i | 0 <= i < |args| && i < |f.args| :: !Rewrites(args[i], f.args[i]);
      }
    } else {
      var i :| 0 <= i < |args| && !Simple(args[i]);
      var g :| Rewrites(args[i], g);
      var f := e.(args := args[i := g]);
      assert f.args[i] == g && Rewrites(e, f);
    }
  }

  /** Every expression can be rewritten to a simple one, which has its value. */
  lemma {:induction false} SimpleFormExists(env: Env, e: Expr) returns (f: Expr)
    requires Good(env, e)
    ensures Simple(f) && Good(env, f) && Eval(env, f) == Eval(env, e)
    decreases Measure(e)
  {
    SimpleIff(e);
    if Simple(e) {
      f := e;
    } else {
      var g :| Rewrites(e, g);
      RewriteKeepsValue(env, e, g);
      f := SimpleFormExists(env, g);
    }
  }

  /** Which one it is can depend on the order: a move of a move of a borrow becomes what is borrowed, or a
      move of it. */
  lemma OrderMatters(x: Expr)
    requires Simple(x) && !x.Move? && !x.Borrow?
    ensures var e := Move(Move(Borrow(x)));
            && Rewrites(e, Move(Borrow(x))) && Rewrites(Move(Borrow(x)), x) && Simple(x)
            && Rewrites(e, Move(x)) && Simple(Move(x)) && Move(x) != x
  {
    assert Fold(Move(Move(Borrow(x)))) == Some(Move(Borrow(x)));
    assert Fold(Move(Borrow(x))) == Some(x);
  }
}
