/** The `instance` links of the type variables, as a store from variable id to the type the
    variable stands for, and what it means for such a store to be acyclic. */
module Bindings {
  import opened Types

  type Store = map<int, Ty>

  /** One more than the largest rank of a variable in the term, or 0. */
  ghost function Top(r: int -> nat, t: Ty): nat {
    match t
    case Var(x) => r(x) + 1
    case Node(_, kids) => TopOf(r, kids)
  }

  ghost function TopOf(r: int -> nat, ts: seq<Ty>): (n: nat)
    ensures forall i | 0 <= i < |ts| :: Top(r, ts[i]) <= n
  {
    if ts == [] then 0
    else
      var h, n := Top(r, ts[0]), TopOf(r, ts[1..]);
      assert forall i | 1 <= i < |ts| :: ts[i] == ts[1..][i - 1];
      if h < n then n else h
  }

  /** `r` witnesses that the links of `b` form no cycle: they all point strictly downwards. */
  ghost predicate Ranked(b: Store, r: int -> nat) {
    forall x | x in b :: Top(r, b[x]) <= r(x)
  }

  ghost predicate Acyclic(b: Store) {
    exists r: int -> nat :: Ranked(b, r)
  }

  /** The term with every link followed, at every depth. */
  ghost function Full(b: Store, r: int -> nat, t: Ty): Ty
    requires Ranked(b, r)
    decreases Top(r, t), t
  {
    match t
    case Var(x) => if x in b then Full(b, r, b[x]) else t
    case Node(h, kids) => Node(h, seq(|kids|, i requires 0 <= i < |kids| => Full(b, r, kids[i])))
  }

  /** The assignment that the store describes. */
  ghost function Solution(b: Store, r: int -> nat): Assignment
    requires Ranked(b, r)
  {
    (x: int) => Full(b, r, Var(x))
  }

  /** The assignment agrees with every link. */
  ghost predicate Respects(s: Assignment, b: Store) {
    forall x | x in b :: s(x) == Apply(s, b[x])
  }

  /** `equals` on terms whose variables may carry links (it follows them, changing none). */
  ghost predicate Equals(b: Store, r: int -> nat, t1: Ty, t2: Ty)
    requires Ranked(b, r)
    decreases Top(r, t1) + Top(r, t2), t1
  {
    match (t1, t2)
    case (Var(x), Var(y)) =>
      if x in b && y in b then Equals(b, r, b[x], b[y]) else x == y
    case (Var(x), Node(_, _)) =>
      x in b && Equals(b, r, b[x], t2)
    case (Node(_, _), Var(_)) => false
    case (Node(h1, k1), Node(h2, k2)) =>
      HeadsEqual(h1, h2) && |k1| == |k2| && forall i | 0 <= i < |k1| :: Equals(b, r, k1[i], k2[i])
  }

  // ---------------------------------------------------------------- ranks and free variables

  lemma {:induction false} RankBelowTop(r: int -> nat, t: Ty, x: int)
    requires x in FreeVars(t)
    ensures r(x) < Top(r, t)
  {
    if t.Var? {
    } else {
      var i :| 0 <= i < |t.kids| && x in FreeVars(t.kids[i]);
      RankBelowTop(r, t.kids[i], x);
    }
  }

  lemma {:induction false} TopLeast(r: int -> nat, t: Ty, n: nat)
    requires forall x | x in FreeVars(t) :: r(x) < n
    ensures Top(r, t) <= n
  {
    if t.Var? {
    } else {
      forall i | 0 <= i < |t.kids| ensures Top(r, t.kids[i]) <= n {
        assert forall x | x in FreeVars(t.kids[i]) :: x in FreeVars(t);
        TopLeast(r, t.kids[i], n);
      }
      TopOfLeast(r, t.kids, n);
    }
  }

  lemma {:induction false} TopOfLeast(r: int -> nat, ts: seq<Ty>, n: nat)
    requires forall i | 0 <= i < |ts| :: Top(r, ts[i]) <= n
    ensures TopOf(r, ts) <= n
  {
    if ts == [] {
    } else {
      TopOfLeast(r, ts[1..], n);
    }
  }

  // ---------------------------------------------------------------- full resolution

  /** Every assignment that respects the store sees a term and its full resolution alike:
      the store's own solution is its most general one. */
  lemma {:induction false} FullIsMostGeneral(s: Assignment, b: Store, r: int -> nat, t: Ty)
    requires Ranked(b, r) && Respects(s, b)
    ensures Apply(s, Full(b, r, t)) == Apply(s, t)
    decreases Top(r, t), t
  {
    match t
    case Var(x) =>
      if x in b {
        FullIsMostGeneral(s, b, r, b[x]);
      }
    case Node(h, kids) =>
      forall i | 0 <= i < |kids| ensures Apply(s, Full(b, r, kids[i])) == Apply(s, kids[i]) {
        FullIsMostGeneral(s, b, r, kids[i]);
      }
      assert Apply(s, Full(b, r, t)).kids == Apply(s, t).kids;
  }

  lemma {:induction false} FullIsApply(b: Store, r: int -> nat, t: Ty)
    requires Ranked(b, r)
    ensures Full(b, r, t) == Apply(Solution(b, r), t)
  {
    if t.Var? {
    } else {
      forall i | 0 <= i < |t.kids| ensures Full(b, r, t.kids[i]) == Apply(Solution(b, r), t.kids[i]) {
        FullIsApply(b, r, t.kids[i]);
      }
    }
  }

  /** An acyclic store has a solution. */
  lemma {:induction false} SolutionRespects(b: Store, r: int -> nat)
    requires Ranked(b, r)
    ensures Respects(Solution(b, r), b)
  {
    forall x | x in b ensures Solution(b, r)(x) == Apply(Solution(b, r), b[x]) {
      FullIsApply(b, r, b[x]);
    }
  }

  /** Nothing is left to follow in a full resolution, and ranks do not rise. */
  lemma {:induction false} FullFreeVars(b: Store, r: int -> nat, t: Ty, x: int)
    requires Ranked(b, r) && x in FreeVars(Full(b, r, t))
    ensures x !in b && r(x) < Top(r, t)
    decreases Top(r, t), t
  {
    match t
    case Var(y) =>
      if y in b {
        FullFreeVars(b, r, b[y], x);
      }
    case Node(h, kids) =>
      var fkids := Full(b, r, t).kids;
      var i :| 0 <= i < |fkids| && x in FreeVars(fkids[i]);
      FullFreeVars(b, r, kids[i], x);
  }

  /** The full resolution does not depend on which ranks witness acyclicity. */
  lemma {:induction false} FullUnique(b: Store, r1: int -> nat, r2: int -> nat, t: Ty)
    requires Ranked(b, r1) && Ranked(b, r2)
    ensures Full(b, r1, t) == Full(b, r2, t)
  {
    var s2 := Solution(b, r2);
    SolutionRespects(b, r2);
    FullIsMostGeneral(s2, b, r1, t);
    FullIsApply(b, r2, t);
    forall x | x in FreeVars(Full(b, r1, t)) ensures s2(x) == Var(x) {
      FullFreeVars(b, r1, t, x);
    }
    ApplyIdentity(s2, Full(b, r1, t));
  }

  lemma {:induction false} FullClosed(b: Store, r: int -> nat, t: Ty)
    requires Ranked(b, r) && FreeVars(t) == {}
    ensures Full(b, r, t) == t
  {
    FullIsApply(b, r, t);
    ApplyIdentity(Solution(b, r), t);
  }

  lemma {:induction false} FullWithin(b: Store, r: int -> nat, t: Ty, ids: set<int>)
    requires Ranked(b, r) && Within(t, ids) && forall x | x in b :: Within(b[x], ids)
    ensures FreeVars(Full(b, r, t)) <= ids
    decreases Top(r, t), t
  {
    match t
    case Var(x) =>
      if x in b {
        FullWithin(b, r, b[x], ids);
      }
    case Node(h, kids) =>
      forall i | 0 <= i < |kids| ensures FreeVars(Full(b, r, t).kids[i]) <= ids {
        FullWithin(b, r, kids[i], ids);
      }
  }

  // ---------------------------------------------------------------- path compression

  /** `c` is `b` with some links shortened: same variables bound, to the same resolutions. */
  ghost predicate Compressed(b: Store, c: Store, r: int -> nat)
    requires Ranked(b, r)
  {
    && c.Keys == b.Keys
    && Ranked(c, r)
    && forall x | x in b :: Full(b, r, c[x]) == Full(b, r, b[x])
  }

  lemma {:induction false} CompressedFull(b: Store, c: Store, r: int -> nat, t: Ty)
    requires Ranked(b, r) && Compressed(b, c, r)
    ensures Full(c, r, t) == Full(b, r, t)
    decreases Top(r, t), t
  {
    match t
    case Var(x) =>
      if x in b {
        CompressedFull(b, c, r, c[x]);
      }
    case Node(h, kids) =>
      forall i | 0 <= i < |kids| ensures Full(c, r, kids[i]) == Full(b, r, kids[i]) {
        CompressedFull(b, c, r, kids[i]);
      }
      assert Full(c, r, t).kids == Full(b, r, t).kids;
  }

  lemma {:induction false} CompressedTransitive(b: Store, c: Store, d: Store, r: int -> nat)
    requires Ranked(b, r) && Compressed(b, c, r) && Compressed(c, d, r)
    ensures Compressed(b, d, r)
  {
    forall x | x in b ensures Full(b, r, d[x]) == Full(b, r, b[x]) {
      CompressedFull(b, c, r, d[x]);
      CompressedFull(b, c, r, c[x]);
    }
  }

  /** Path compression leaves the set of assignments that respect the store unchanged. */
  lemma {:induction false} CompressedRespects(b: Store, c: Store, r: int -> nat, s: Assignment)
    requires Ranked(b, r) && Compressed(b, c, r)
    ensures Respects(s, b) <==> Respects(s, c)
  {
    if Respects(s, b) {
      forall x | x in c ensures s(x) == Apply(s, c[x]) {
        FullIsMostGeneral(s, b, r, c[x]);
        FullIsMostGeneral(s, b, r, b[x]);
      }
    }
    if Respects(s, c) {
      forall x | x in b ensures s(x) == Apply(s, b[x]) {
        FullIsMostGeneral(s, c, r, c[x]);
        FullIsMostGeneral(s, c, r, b[x]);
        CompressedFull(b, c, r, c[x]);
        CompressedFull(b, c, r, b[x]);
      }
    }
  }

  // ---------------------------------------------------------------- adding a link

  /** Ranks for the store in which `v` is linked to `t`: whatever reaches `v` moves above `t`. */
  ghost function Lifted(b: Store, r: int -> nat, v: int, t: Ty): int -> nat
    requires Ranked(b, r)
  {
    (x: int) => if v in FreeVars(Full(b, r, Var(x))) then r(x) + Top(r, t) else r(x)
  }

  lemma {:induction false} FullFreeVarsVia(b: Store, r: int -> nat, t: Ty, y: int, v: int)
    requires Ranked(b, r) && y in FreeVars(t) && v in FreeVars(Full(b, r, Var(y)))
    ensures v in FreeVars(Full(b, r, t))
  {
    if t.Var? {
    } else {
      var i :| 0 <= i < |t.kids| && y in FreeVars(t.kids[i]);
      FullFreeVarsVia(b, r, t.kids[i], y, v);
      assert Full(b, r, t).kids[i] == Full(b, r, t.kids[i]);
    }
  }

  lemma {:induction false} LinkRanked(b: Store, r: int -> nat, v: int, t: Ty)
    requires Ranked(b, r) && v !in b && v !in FreeVars(Full(b, r, t))
    ensures Ranked(b[v := t], Lifted(b, r, v, t))
  {
    var r' := Lifted(b, r, v, t);
    forall x | x in b[v := t] ensures Top(r', b[v := t][x]) <= r'(x) {
      var u := b[v := t][x];
      assert x == v ==> v in FreeVars(Full(b, r, Var(x)));
      assert x != v ==> Full(b, r, Var(x)) == Full(b, r, u);
      forall y | y in FreeVars(u) ensures r'(y) < r'(x) {
        RankBelowTop(r, u, y);
        if v in FreeVars(Full(b, r, Var(y))) {
          FullFreeVarsVia(b, r, u, y, v);
          assert x != v && r'(x) == r(x) + Top(r, t);
        }
      }
      TopLeast(r', u, r'(x));
    }
  }

  /** Linking an unbound variable keeps the store acyclic exactly when the variable is not in
      the full resolution of what it is linked to. */
  lemma {:induction false} LinkAcyclicIff(b: Store, r: int -> nat, v: int, t: Ty)
    requires Ranked(b, r) && v !in b
    ensures Acyclic(b[v := t]) <==> v !in FreeVars(Full(b, r, t))
  {
    if v !in FreeVars(Full(b, r, t)) {
      LinkRanked(b, r, v, t);
    }
    var c := b[v := t];
    if Acyclic(c) && v in FreeVars(Full(b, r, t)) {
      var q: int -> nat :| Ranked(c, q);
      assert Ranked(b, q) by {
        assert forall x | x in b :: c[x] == b[x];
      }
      assert Top(q, c[v]) <= q(v);
      FullUnique(b, r, q, t);
      FullFreeVars(b, q, t, v);
    }
  }

  /** The link that an occurs check on visible variables lets through closes a cycle exactly
      when the variable hides under a MAP, a TENSOR or a POLY_TYPE of the resolved term. */
  lemma {:induction false} UnseenLinkAcyclicIff(b: Store, r: int -> nat, v: int, t: Ty)
    requires Ranked(b, r) && v !in b && !Seen(v, Full(b, r, t))
    ensures Acyclic(b[v := t]) <==> !Hidden(v, Full(b, r, t))
  {
    LinkAcyclicIff(b, r, v, t);
    SeenOrHidden(Full(b, r, t), v);
  }

  /** The smallest such link: 'a := map<'a, int>. */
  lemma MapHidesCycle()
    ensures var t := Node(Map, [Var(0), Node(Int(64), [])]);
            !Seen(0, Full(map[], (x: int) => 0, t)) && !Acyclic(map[0 := t])
  {
    var t := Node(Map, [Var(0), Node(Int(64), [])]);
    var r: int -> nat := (x: int) => 0;
    assert Full(map[], r, t).head == Map && Full(map[], r, t).kids[0] == Full(map[], r, Var(0)) == Var(0);
    var full := Full(map[], r, t);
    assert 0 in FreeVars(full.kids[0]);
    assert 0 in FreeVars(full);
    LinkAcyclicIff(map[], r, 0, t);
    var empty: Store := map[];
    assert empty[0 := t] == map[0 := t];
  }

  lemma {:induction false} FullPlain(b: Store, r: int -> nat, t: Ty)
    requires Ranked(b, r) && Plain(t) && forall x | x in b :: Plain(b[x])
    ensures Plain(Full(b, r, t))
    decreases Top(r, t), t
  {
    match t
    case Var(x) =>
      if x in b {
        FullPlain(b, r, b[x]);
      }
    case Node(h, kids) =>
      forall i | 0 <= i < |kids| && Searched(h) ensures Plain(Full(b, r, kids[i])) {
        FullPlain(b, r, kids[i]);
      }
      forall i | 0 <= i < |kids| && !Searched(h) ensures FreeVars(Full(b, r, kids[i])) == {} {
        FullClosed(b, r, kids[i]);
      }
  }

  // ---------------------------------------------------------------- equals

  lemma {:induction false} EqualsReflexive(b: Store, r: int -> nat, t: Ty)
    requires Ranked(b, r)
    ensures Equals(b, r, t, t)
    decreases Top(r, t), t
  {
    match t
    case Var(x) =>
      if x in b {
        EqualsReflexive(b, r, b[x]);
      }
    case Node(h, kids) =>
      forall i | 0 <= i < |kids| ensures Equals(b, r, kids[i], kids[i]) {
        EqualsReflexive(b, r, kids[i]);
      }
  }

  /** Terms that `equals` accepts stay the same, up to widths and dims, under every assignment
      that respects the store. */
  lemma {:induction false} EqualsSound(s: Assignment, b: Store, r: int -> nat, t1: Ty, t2: Ty)
    requires Ranked(b, r) && Respects(s, b) && Equals(b, r, t1, t2)
    ensures Same(Apply(s, t1), Apply(s, t2))
    decreases Top(r, t1) + Top(r, t2), t1
  {
    match (t1, t2)
    case (Var(x), Var(y)) =>
      if x in b && y in b {
        EqualsSound(s, b, r, b[x], b[y]);
      } else {
        SameReflexive(s(x));
      }
    case (Var(x), Node(_, _)) =>
      EqualsSound(s, b, r, b[x], t2);
    case (Node(_, _), Var(_)) =>
    case (Node(h1, k1), Node(h2, k2)) =>
      forall i | 0 <= i < |k1| ensures Same(Apply(s, k1[i]), Apply(s, k2[i])) {
        EqualsSound(s, b, r, k1[i], k2[i]);
      }
  }

  /** On types without variables `equals` is `Same`. */
  lemma {:induction false} EqualsClosed(b: Store, r: int -> nat, t1: Ty, t2: Ty)
    requires Ranked(b, r) && FreeVars(t1) == {} && FreeVars(t2) == {}
    ensures Equals(b, r, t1, t2) <==> Same(t1, t2)
  {
    if t1.Var? || t2.Var? || |t1.kids| != |t2.kids| {
    } else {
      forall i | 0 <= i < |t1.kids| ensures Equals(b, r, t1.kids[i], t2.kids[i]) <==> Same(t1.kids[i], t2.kids[i]) {
        assert forall x | x in FreeVars(t1.kids[i]) :: x in FreeVars(t1);
        assert forall x | x in FreeVars(t2.kids[i]) :: x in FreeVars(t2);
        EqualsClosed(b, r, t1.kids[i], t2.kids[i]);
      }
    }
  }

  /** Wherever `equals` comes upon a variable on the right, it follows it: only a variable on the left
      that is linked as well makes it do that. */
  ghost predicate Followed(b: Store, r: int -> nat, t1: Ty, t2: Ty)
    requires Ranked(b, r)
    decreases Top(r, t1) + Top(r, t2), t1
  {
    match (t1, t2)
    case (Var(x), Var(y)) => if x in b && y in b then Followed(b, r, b[x], b[y]) else x !in b && y !in b
    case (Var(x), Node(_, _)) => x in b ==> Followed(b, r, b[x], t2)
    case (Node(_, _), Var(y)) => y !in b
    case (Node(_, k1), Node(_, k2)) => |k1| == |k2| ==> forall i | 0 <= i < |k1| :: Followed(b, r, k1[i], k2[i])
  }

  /** `equals` accepts two types if and only if they are the same through all links, and it follows
      those on the right. */
  lemma {:induction false} EqualsIff(b: Store, r: int -> nat, t1: Ty, t2: Ty)
    requires Ranked(b, r)
    ensures Equals(b, r, t1, t2) <==> Same(Full(b, r, t1), Full(b, r, t2)) && Followed(b, r, t1, t2)
    decreases Top(r, t1) + Top(r, t2), t1
  {
    match (t1, t2)
    case (Var(x), Var(y)) =>
      if x in b && y in b {
        EqualsIff(b, r, b[x], b[y]);
      }
    case (Var(x), Node(_, _)) =>
      if x in b {
        EqualsIff(b, r, b[x], t2);
      }
    case (Node(_, _), Var(_)) =>
    case (Node(h1, k1), Node(h2, k2)) =>
      if |k1| == |k2| {
        forall i | 0 <= i < |k1|
          ensures Equals(b, r, k1[i], k2[i]) <==>
                  Same(Full(b, r, k1[i]), Full(b, r, k2[i])) && Followed(b, r, k1[i], k2[i])
        {
          EqualsIff(b, r, k1[i], k2[i]);
        }
        var f1, f2 := Full(b, r, t1).kids, Full(b, r, t2).kids;
        assert forall i | 0 <= i < |k1| :: f1[i] == Full(b, r, k1[i]) && f2[i] == Full(b, r, k2[i]);
      }
  }

  /** With a variable linked to a type, `equals` accepts the two in one order and not in the other. */
  lemma EqualsIsLopsided(t: Ty, r: int -> nat)
    requires FreeVars(t) == {} && t.Node? && Ranked(map[0 := t], r)
    ensures Equals(map[0 := t], r, Var(0), t) && !Equals(map[0 := t], r, t, Var(0))
  {
    EqualsClosed(map[0 := t], r, t, t);
    SameReflexive(t);
  }
}
