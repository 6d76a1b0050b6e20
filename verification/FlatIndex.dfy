/** The row-major offset of a tensor element (`nv_tensor_flat_index`,
    src/backend/runtime/nir_bridge.c). */
module FlatIndex {

  function Product(dims: seq<nat>): nat {
    if dims == [] then 1 else dims[0] * Product(dims[1..])
  }

  /** The offset of the element, or of the sub-block, that the coordinates address. */
  function Flat(dims: seq<nat>, coords: seq<int>): int {
    if dims == [] || coords == [] then 0
    else coords[0] * Product(dims[1..]) + Flat(dims[1..], coords[1..])
  }

  const MAX_COORDS := 4

  function Min(a: int, b: int): int { if a < b then a else b }

  /** The coordinates that the loop gets to: `n` of the four, and none past the rank. */
  function Used(dims: seq<nat>, n: int, coords: seq<int>): (k: nat)
    requires |coords| == MAX_COORDS
    ensures k <= |coords| && k <= |dims|
  {
    if n < 0 then 0 else Min(n, Min(MAX_COORDS, |dims|))
  }

  /** The inner loop: how far apart neighbours along dimension `k` are. */
  method Stride(dims: seq<nat>, k: nat) returns (stride: nat)
    requires k < |dims|
    ensures stride == Product(dims[k + 1..])
  {
    stride := 1;
    var d := k + 1;
    while d < |dims|
      invariant k < d <= |dims|
      invariant stride * Product(dims[d..]) == Product(dims[k + 1..])
    {
      assert dims[d..][0] == dims[d] && dims[d..][1..] == dims[d + 1..];
      assert stride * (dims[d] * Product(dims[d + 1..])) == (stride * dims[d]) * Product(dims[d + 1..]);
      stride := stride * dims[d];
      d := d + 1;
    }
    assert dims[|dims|..] == [];
  }

  method TensorFlatIndex(dims: seq<nat>, n: int, coords: seq<int>) returns (flat: int)
    requires |coords| == MAX_COORDS
    ensures n <= 0 ==> flat == 0
    ensures 0 <= n <= MAX_COORDS && n <= |dims| ==> flat == Flat(dims, coords[..n])
    ensures n == |dims| <= MAX_COORDS && InBounds(dims, coords[..n]) ==>
              0 <= flat < Product(dims) && Coordinates(dims, flat) == coords[..n]
    ensures n >= |dims| || n >= MAX_COORDS ==>
              forall all: seq<int> | |all| == |dims| && Agree(all, coords) :: flat == Offset(dims, all)
  {
    flat := 0;
    var k := 0;
    ghost var used := Used(dims, n, coords);
    assert dims[0..] == dims;
    while k < n && k < MAX_COORDS && k < |dims|
      invariant 0 <= k <= used
      invariant flat + Flat(dims[k..], coords[k..used]) == Flat(dims, coords[..used])
    {
      var stride := Stride(dims, k);
      assert dims[k..][0] == dims[k] && dims[k..][1..] == dims[k + 1..];
      assert coords[k..used][0] == coords[k] && coords[k..used][1..] == coords[k + 1..used];
      flat := flat + coords[k] * stride;
      k := k + 1;
    }
    assert flat == Flat(dims, coords[..used]);
    if n == |dims| <= MAX_COORDS && InBounds(dims, coords[..n]) {
      FlatInRange(dims, coords[..n]);
      CoordinatesOfFlat(dims, coords[..n]);
    }
    forall all: seq<int> | |all| == |dims| && Agree(all, coords) && used == Min(MAX_COORDS, |dims|)
      ensures flat == Offset(dims, all)
    {
      assert all[..used] == coords[..used];
    }
  }

  /** The coordinates begin alike, as far as both go. */
  predicate Agree(all: seq<int>, coords: seq<int>) {
    forall i | 0 <= i < |all| && i < |coords| :: all[i] == coords[i]
  }

  // ---------------------------------------------------------------- one coordinate per dimension

  predicate InBounds(dims: seq<nat>, coords: seq<int>) {
    |coords| == |dims| && forall i | 0 <= i < |dims| :: 0 <= coords[i] < dims[i]
  }

  function Coordinates(dims: seq<nat>, flat: nat): (coords: seq<int>)
    requires flat < Product(dims)
    ensures |coords| == |dims|
  {
    if dims == [] then []
    else
      var block := Product(dims[1..]);
      Within(dims[0], block, flat);
      [flat / block] + Coordinates(dims[1..], flat % block)
  }

  lemma MulMono(a: int, b: int, c: nat)
    ensures a <= b ==> a * c <= b * c
  {
  }

  lemma Within(dim: nat, block: nat, flat: nat)
    requires flat < dim * block
    ensures block > 0 && 0 <= flat / block < dim && 0 <= flat % block < block
  {
    MulMono(dim, flat / block, block);
  }

  lemma Divided(q: nat, block: nat, rest: nat)
    requires rest < block
    ensures (q * block + rest) / block == q && (q * block + rest) % block == rest
  {
    var x := q * block + rest;
    MulMono(q + 1, x / block, block);
    MulMono(x / block, q - 1, block);
  }

  lemma RowBound(dim: nat, c: nat, block: nat, rest: nat)
    requires c < dim && rest < block
    ensures c * block + rest < dim * block
  {
    MulMono(c + 1, dim, block);
  }

  lemma {:induction false} FlatInRange(dims: seq<nat>, coords: seq<int>)
    requires InBounds(dims, coords)
    ensures 0 <= Flat(dims, coords) < Product(dims)
    decreases |dims|
  {
    if dims == [] {
    } else {
      FlatInRange(dims[1..], coords[1..]);
      RowBound(dims[0], coords[0], Product(dims[1..]), Flat(dims[1..], coords[1..]));
    }
  }

  lemma {:induction false} CoordinatesOfFlat(dims: seq<nat>, coords: seq<int>)
    requires InBounds(dims, coords) && 0 <= Flat(dims, coords) < Product(dims)
    ensures Coordinates(dims, Flat(dims, coords)) == coords
    decreases |dims|
  {
    if dims == [] {
    } else {
      FlatInRange(dims[1..], coords[1..]);
      CoordinatesOfFlat(dims[1..], coords[1..]);
      Divided(coords[0], Product(dims[1..]), Flat(dims[1..], coords[1..]));
    }
  }

  lemma {:induction false} CoordinatesInBounds(dims: seq<nat>, flat: nat)
    requires flat < Product(dims)
    ensures InBounds(dims, Coordinates(dims, flat)) && Flat(dims, Coordinates(dims, flat)) == flat
    decreases |dims|
  {
    if dims == [] {
    } else {
      var block := Product(dims[1..]);
      Within(dims[0], block, flat);
      CoordinatesInBounds(dims[1..], flat % block);
      var coords := Coordinates(dims, flat);
      assert coords[1..] == Coordinates(dims[1..], flat % block);
    }
  }

  ghost predicate Addressed(dims: seq<nat>, flat: int) {
    exists c :: InBounds(dims, c) && Flat(dims, c) == flat
  }

  /** With one coordinate per dimension, in-bounds coordinates and offsets below the number of
      elements correspond one to one. */
  lemma FlatIsBijection(dims: seq<nat>)
    ensures forall c, d | InBounds(dims, c) && InBounds(dims, d) && Flat(dims, c) == Flat(dims, d) :: c == d
    ensures forall flat :: Addressed(dims, flat) <==> 0 <= flat < Product(dims)
  {
    forall c | InBounds(dims, c) ensures 0 <= Flat(dims, c) < Product(dims) && Coordinates(dims, Flat(dims, c)) == c {
      FlatInRange(dims, c);
      CoordinatesOfFlat(dims, c);
    }
    forall flat | 0 <= flat < Product(dims) ensures Addressed(dims, flat) {
      CoordinatesInBounds(dims, flat);
      assert InBounds(dims, Coordinates(dims, flat));
    }
  }

  // ---------------------------------------------------------------- fewer coordinates

  /** Coordinates for the leading dimensions address the first element of their sub-block: the
      elements of the sub-block are the `Product` of the other dimensions that follow from there. */
  lemma {:induction false} FlatOfPrefix(dims: seq<nat>, coords: seq<int>, rest: seq<int>)
    requires |coords| <= |dims|
    ensures Flat(dims, coords + rest) == Flat(dims, coords) + Flat(dims[|coords|..], rest)
    decreases |coords|
  {
    if coords == [] {
      assert [] + rest == rest && dims[0..] == dims;
    } else {
      assert (coords + rest)[0] == coords[0] && (coords + rest)[1..] == coords[1..] + rest;
      FlatOfPrefix(dims[1..], coords[1..], rest);
      assert dims[1..][|coords| - 1..] == dims[|coords|..];
    }
  }

  ghost predicate AddressedUnder(dims: seq<nat>, coords: seq<int>, flat: int)
    requires |coords| <= |dims|
  {
    exists rest :: InBounds(dims[|coords|..], rest) && Flat(dims, coords + rest) == flat
  }

  /** The elements under some leading coordinates are those from the offset of the coordinates
      on, as many as the other dimensions have. */
  lemma PrefixStartsBlock(dims: seq<nat>, coords: seq<int>, flat: int)
    requires |coords| <= |dims|
    ensures AddressedUnder(dims, coords, flat) <==> 0 <= flat - Flat(dims, coords) < Product(dims[|coords|..])
  {
    var inner := dims[|coords|..];
    var k := flat - Flat(dims, coords);
    if 0 <= k < Product(inner) {
      var rest := Coordinates(inner, k);
      CoordinatesInBounds(inner, k);
      FlatOfPrefix(dims, coords, rest);
      assert InBounds(inner, rest);
    }
    if AddressedUnder(dims, coords, flat) {
      var rest :| InBounds(inner, rest) && Flat(dims, coords + rest) == flat;
      FlatOfPrefix(dims, coords, rest);
      FlatInRange(inner, rest);
    }
  }

  // ---------------------------------------------------------------- more than four dimensions

  /** What the function returns when every coordinate of a tensor of any rank is given. */
  function Offset(dims: seq<nat>, coords: seq<int>): int
    requires |coords| == |dims|
  {
    Flat(dims, coords[..Min(MAX_COORDS, |dims|)])
  }

  /** No two elements have one offset. */
  ghost predicate OffsetsDistinct(dims: seq<nat>) {
    forall c, d | InBounds(dims, c) && InBounds(dims, d) && Offset(dims, c) == Offset(dims, d) :: c == d
  }

  lemma NoElements(dims: seq<nat>, i: nat, coords: seq<int>)
    requires i < |dims| && dims[i] == 0
    ensures !InBounds(dims, coords)
  {
  }

  lemma {:induction false} FlatOfZeros(dims: seq<nat>, coords: seq<int>)
    requires |coords| <= |dims| && forall i | 0 <= i < |coords| :: coords[i] == 0
    ensures Flat(dims, coords) == 0
    decreases |coords|
  {
    if coords == [] {
    } else {
      FlatOfZeros(dims[1..], coords[1..]);
    }
  }

  /** Distinct elements have distinct offsets exactly when there are no elements at all, or none to
      tell apart past the fourth dimension. */
  lemma OffsetsDistinctIff(dims: seq<nat>)
    ensures OffsetsDistinct(dims) <==> 0 in dims || forall i | MAX_COORDS <= i < |dims| :: dims[i] == 1
  {
    if 0 in dims {
      var i :| 0 <= i < |dims| && dims[i] == 0;
      forall c: seq<int> ensures !InBounds(dims, c) {
        NoElements(dims, i, c);
      }
    } else if forall i | MAX_COORDS <= i < |dims| :: dims[i] == 1 {
      forall c, d | InBounds(dims, c) && InBounds(dims, d) && Offset(dims, c) == Offset(dims, d) ensures c == d {
        var k := Min(MAX_COORDS, |dims|);
        assert c[k..] == d[k..];
        FlatOfPrefix(dims, c[..k], c[k..]);
        FlatOfPrefix(dims, d[..k], d[k..]);
        assert c[..k] + c[k..] == c && d[..k] + d[k..] == d;
        FlatInRange(dims, c);
        CoordinatesOfFlat(dims, c);
        CoordinatesOfFlat(dims, d);
      }
    } else {
      var i :| MAX_COORDS <= i < |dims| && dims[i] != 1;
      assert forall j | 0 <= j < |dims| :: dims[j] in dims;
      SharedOffset(dims, i);
    }
  }

  /** The first element and its neighbour along a dimension past the fourth have the same offset. */
  lemma SharedOffset(dims: seq<nat>, i: nat)
    requires 0 !in dims && MAX_COORDS <= i < |dims| && dims[i] > 1
    ensures !OffsetsDistinct(dims)
  {
    var c: seq<int> := seq(|dims|, _ => 0);
    var d := c[i := 1];
    assert InBounds(dims, c) && InBounds(dims, d) by {
      assert forall j | 0 <= j < |dims| :: dims[j] in dims;
    }
    assert c[i] != d[i];
    assert c[..MAX_COORDS] == d[..MAX_COORDS];
    assert Offset(dims, c) == Offset(dims, d);
  }

  /** The smallest tensor in which two elements share an offset. */
  lemma RankFiveSharesOffsets()
    ensures var dims, c, d := [1, 1, 1, 1, 2], [0, 0, 0, 0, 0], [0, 0, 0, 0, 1];
            InBounds(dims, c) && InBounds(dims, d) && Offset(dims, c) == Offset(dims, d) == 0
  {
    var dims: seq<nat>, c: seq<int>, d: seq<int> := [1, 1, 1, 1, 2], [0, 0, 0, 0, 0], [0, 0, 0, 0, 1];
    FlatOfZeros(dims, c[..4]);
    FlatOfZeros(dims, d[..4]);
  }
}
