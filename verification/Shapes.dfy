/** Shapes of tensors: broadcasting, and their packed representation. */
module Shapes {

  const INT64_MAX: nat := 0x7fff_ffff_ffff_ffff

  type Dims = seq<int>

  function Numel(dims: Dims): int {
    if dims == [] then 1 else dims[0] * Numel(dims[1..])
  }

  predicate Positive(dims: Dims) { forall i :: 0 <= i < |dims| ==> dims[i] > 0 }

  /** What every shape satisfies once it has been created. */
  predicate ValidShape(dims: Dims) { Positive(dims) && Numel(dims) <= INT64_MAX }

  // ---- Number of elements ----

  lemma {:induction false} NumelSplit(dims: Dims, i: nat)
    requires i <= |dims|
    ensures Numel(dims) == Numel(dims[..i]) * Numel(dims[i..])
  {
    if i == 0 {
      assert dims[..0] == [] && dims[0..] == dims;
    } else {
      NumelSplit(dims[1..], i - 1);
      assert dims[1..][..i - 1] == dims[..i][1..] && dims[1..][i - 1..] == dims[i..];
      Reassociate(dims[0], Numel(dims[..i][1..]), Numel(dims[i..]));
    }
  }

  lemma Reassociate(a: int, b: int, c: int)
    ensures a * (b * c) == (a * b) * c
  {
  }

  lemma {:induction false} NumelPositive(dims: Dims)
    requires Positive(dims)
    ensures Numel(dims) > 0
  {
    if dims != [] {
      NumelPositive(dims[1..]);
      PositiveProduct(dims[0], Numel(dims[1..]));
    }
  }

  lemma PositiveProduct(a: int, b: int)
    requires a > 0 && b > 0
    ensures a * b > 0 && a * b >= a && a * b >= b
  {
  }

  /** A partial product is at most the total. */
  lemma PrefixIsSmaller(dims: Dims, i: nat)
    requires Positive(dims) && i <= |dims|
    ensures 0 < Numel(dims[..i]) <= Numel(dims)
  {
    NumelSplit(dims, i);
    NumelPositive(dims[..i]);
    NumelPositive(dims[i..]);
    PositiveProduct(Numel(dims[..i]), Numel(dims[i..]));
  }

  lemma NumelSnoc(dims: Dims, i: nat)
    requires i < |dims|
    ensures Numel(dims[..i + 1]) == Numel(dims[..i]) * dims[i]
  {
    NumelSplit(dims[..i + 1], i);
    assert dims[..i + 1][..i] == dims[..i] && dims[..i + 1][i..] == [dims[i]];
    assert Numel([dims[i]]) == dims[i] * Numel([dims[i]][1..]);
  }

  datatype Option<T> = None | Some(value: T)

  /** Stops at the first partial product that does not fit 64 bits. */
  method CheckedNumel(dims: Dims) returns (r: Option<int>)
    requires Positive(dims)
    ensures r == if Numel(dims) <= INT64_MAX then Some(Numel(dims)) else None
  {
    var ret := 1;
    for i := 0 to |dims|
      invariant ret == Numel(dims[..i]) && 0 < ret <= INT64_MAX
    {
      NumelSnoc(dims, i);
      PrefixIsSmaller(dims, i + 1);
      if ret * dims[i] > INT64_MAX {
        return None;
      }
      ret := ret * dims[i];
    }
    assert dims[..|dims|] == dims;
    return Some(ret);
  }

  // ---- Broadcasting ----

  /** Dimension i of the shape when it is aligned to the last of n dimensions. */
  function Aligned(dims: Dims, n: nat, i: nat): int
    requires |dims| <= n && i < n
  {
    if i < n - |dims| then 1 else dims[i - (n - |dims|)]
  }

  function Rank(x: Dims, y: Dims): nat { if |x| < |y| then |y| else |x| }

  /** Every dimension of x is repeated as often as z says, or is that of z already. */
  ghost predicate BroadcastsTo(x: Dims, z: Dims) {
    && |x| <= |z|
    && forall i :: 0 <= i < |z| ==> Aligned(x, |z|, i) == z[i] || Aligned(x, |z|, i) == 1
  }

  predicate Agree(d: int, e: int) { d == e || d == 1 || e == 1 }

  predicate AgreeAt(x: Dims, y: Dims, n: nat, i: nat)
    requires |x| <= n && |y| <= n && i < n
  {
    Agree(Aligned(x, n, i), Aligned(y, n, i))
  }

  ghost predicate Compatible(x: Dims, y: Dims) {
    forall i :: 0 <= i < Rank(x, y) ==> AgreeAt(x, y, Rank(x, y), i)
  }

  function Larger(d: int, e: int): int { if d == 1 then e else d }

  function JoinDims(x: Dims, y: Dims): (z: Dims)
    ensures |z| == Rank(x, y)
    ensures forall i :: 0 <= i < |z| ==> z[i] == Larger(Aligned(x, |z|, i), Aligned(y, |z|, i))
  {
    var n := Rank(x, y);
    seq(n, i requires 0 <= i < n => Larger(Aligned(x, n, i), Aligned(y, n, i)))
  }

  datatype Broadcasted = Broadcasted(dims: Dims) | NotBroadcastable | TooManyElements

  ghost function Broadcast(x: Dims, y: Dims): Broadcasted {
    if !Compatible(x, y) then NotBroadcastable
    else if Numel(JoinDims(x, y)) > INT64_MAX then TooManyElements
    else Broadcasted(JoinDims(x, y))
  }

  /** Two shapes broadcast to the least shape that both broadcast to, if there is any. */
  lemma JoinIsLeast(x: Dims, y: Dims, z: Dims)
    ensures Compatible(x, y) ==> BroadcastsTo(x, JoinDims(x, y)) && BroadcastsTo(y, JoinDims(x, y))
    ensures BroadcastsTo(x, z) && BroadcastsTo(y, z) ==> Compatible(x, y) && BroadcastsTo(JoinDims(x, y), z)
  {
    var j, n := JoinDims(x, y), |z|;
    if Compatible(x, y) {
      forall i | 0 <= i < |j|
        ensures Aligned(x, |j|, i) == j[i] || Aligned(x, |j|, i) == 1
        ensures Aligned(y, |j|, i) == j[i] || Aligned(y, |j|, i) == 1
      {
        assert AgreeAt(x, y, |j|, i);
      }
    }
    if BroadcastsTo(x, z) && BroadcastsTo(y, z) {
      var offset := n - |j|;
      forall i | 0 <= i < |j| ensures AgreeAt(x, y, |j|, i) {
        assert Aligned(x, |j|, i) == Aligned(x, n, i + offset) && Aligned(y, |j|, i) == Aligned(y, n, i + offset);
      }
      forall i | 0 <= i < n ensures Aligned(j, n, i) == z[i] || Aligned(j, n, i) == 1 {
        if i >= offset {
          assert Aligned(x, |j|, i - offset) == Aligned(x, n, i) && Aligned(y, |j|, i - offset) == Aligned(y, n, i);
        }
      }
    }
  }

  lemma {:induction false} OrderIsAntisymmetric(x: Dims, z: Dims)
    requires BroadcastsTo(x, z) && BroadcastsTo(z, x)
    ensures x == z
  {
    assert forall i :: 0 <= i < |z| ==> Aligned(x, |z|, i) == x[i] && Aligned(z, |x|, i) == z[i];
  }

  lemma OrderIsTransitive(x: Dims, y: Dims, z: Dims)
    requires BroadcastsTo(x, y) && BroadcastsTo(y, z)
    ensures BroadcastsTo(x, z)
  {
    forall i | 0 <= i < |z| ensures Aligned(x, |z|, i) == z[i] || Aligned(x, |z|, i) == 1 {
      var k := i - (|z| - |y|);
      if k >= 0 {
        assert Aligned(x, |z|, i) == Aligned(x, |y|, k) && Aligned(y, |z|, i) == y[k];
      }
    }
  }

  lemma BroadcastIsCommutative(x: Dims, y: Dims)
    ensures Broadcast(x, y) == Broadcast(y, x)
  {
    var n := Rank(x, y);
    assert forall i :: 0 <= i < n ==> (AgreeAt(x, y, n, i) <==> AgreeAt(y, x, n, i));
    if Compatible(x, y) {
      assert JoinDims(x, y) == JoinDims(y, x) by {
        forall i | 0 <= i < n ensures JoinDims(x, y)[i] == JoinDims(y, x)[i] {
          assert AgreeAt(x, y, n, i);
        }
      }
    }
  }

  /** A bigger shape has more elements. */
  lemma {:induction false} OrderIsBySize(x: Dims, z: Dims)
    requires BroadcastsTo(x, z) && Positive(z)
    ensures Positive(x) && 0 < Numel(x) <= Numel(z)
    decreases |z|
  {
    NumelPositive(z);
    forall i | 0 <= i < |x| ensures x[i] > 0 {
      assert Aligned(x, |z|, i + (|z| - |x|)) == x[i];
    }
    NumelPositive(x);
    if z != [] {
      var x' := if |x| == |z| then x[1..] else x;
      assert BroadcastsTo(x', z[1..]) by {
        forall i | 0 <= i < |z[1..]| ensures Aligned(x', |z[1..]|, i) == z[1..][i] || Aligned(x', |z[1..]|, i) == 1 {
          assert Aligned(x', |z[1..]|, i) == Aligned(x, |z|, i + 1);
        }
      }
      OrderIsBySize(x', z[1..]);
      assert Aligned(x, |z|, 0) == z[0] || Aligned(x, |z|, 0) == 1;
      ScaleUp(Numel(x'), Numel(z[1..]), z[0]);
    }
  }

  lemma ScaleUp(a: int, b: int, d: int)
    requires 0 < a <= b && d > 0
    ensures d * a <= d * b && a <= d * b
  {
  }

  /** Failure on either side as failure. */
  ghost function Then(r: Broadcasted, z: Dims): Option<Dims> {
    match r
    case Broadcasted(dims) => AsOption(Broadcast(dims, z))
    case _ => None
  }

  ghost function AsOption(r: Broadcasted): Option<Dims> {
    match r
    case Broadcasted(dims) => Some(dims)
    case _ => None
  }

  /** There is a shape with few enough elements that all three broadcast to. */
  ghost predicate CommonShape(x: Dims, y: Dims, z: Dims, w: Dims) {
    BroadcastsTo(x, w) && BroadcastsTo(y, w) && BroadcastsTo(z, w)
  }

  lemma JoinIsPositive(x: Dims, y: Dims)
    requires Positive(x) && Positive(y)
    ensures Positive(JoinDims(x, y))
  {
    var j := JoinDims(x, y);
    forall i | 0 <= i < |j| ensures j[i] > 0 {
      assert Aligned(x, |j|, i) > 0 && Aligned(y, |j|, i) > 0;
    }
  }

  /** Broadcasting (x, y) and then z comes out as the least common shape of the three. */
  lemma NestedIsLeast(x: Dims, y: Dims, z: Dims)
    requires Positive(x) && Positive(y) && Positive(z)
    ensures Then(Broadcast(x, y), z).Some? ==>
              && CommonShape(x, y, z, Then(Broadcast(x, y), z).value)
              && Numel(Then(Broadcast(x, y), z).value) <= INT64_MAX
    ensures Then(Broadcast(x, y), z).Some? ==>
              Positive(Then(Broadcast(x, y), z).value)
  {
    hide Compatible, BroadcastsTo, Numel;
    if Then(Broadcast(x, y), z).Some? {
      var j := JoinDims(x, y);
      var w := JoinDims(j, z);
      JoinIsPositive(x, y);
      JoinIsPositive(j, z);
      JoinIsLeast(x, y, w);
      JoinIsLeast(j, z, w);
      OrderIsTransitive(x, j, w);
      OrderIsTransitive(y, j, w);
    }
  }

  lemma NestedIsBelow(x: Dims, y: Dims, z: Dims, w: Dims)
    requires Positive(x) && Positive(y) && Positive(z)
    requires CommonShape(x, y, z, w) && ValidShape(w)
    ensures Then(Broadcast(x, y), z).Some? && BroadcastsTo(Then(Broadcast(x, y), z).value, w)
  {
    hide Compatible, BroadcastsTo, Numel;
    var j := JoinDims(x, y);
    JoinIsLeast(x, y, w);
    OrderIsBySize(j, w);
    JoinIsLeast(j, z, w);
    OrderIsBySize(JoinDims(j, z), w);
  }

  /** The order of broadcasting does not matter, not even for whether it fails. */
  lemma BroadcastIsAssociative(x: Dims, y: Dims, z: Dims)
    requires Positive(x) && Positive(y) && Positive(z)
    ensures Then(Broadcast(x, y), z) == Then(Broadcast(y, z), x)
  {
    hide Broadcast, BroadcastsTo, Numel, Then;
    var l, r := Then(Broadcast(x, y), z), Then(Broadcast(y, z), x);
    NestedIsLeast(x, y, z);
    NestedIsLeast(y, z, x);
    if l.Some? {
      NestedIsBelow(y, z, x, l.value);
    }
    if r.Some? {
      NestedIsBelow(x, y, z, r.value);
    }
    if l.Some? && r.Some? {
      OrderIsAntisymmetric(l.value, r.value);
    }
  }

  lemma ScalarIsNeutral(x: Dims)
    requires ValidShape(x)
    ensures Broadcast(x, []) == Broadcasted(x) && Broadcast(x, x) == Broadcasted(x)
  {
    assert JoinDims(x, []) == x && JoinDims(x, x) == x;
  }

  // y is aligned to the trailing dimensions of x, and its first i dimensions have been compared.

  predicate AgreeBelow(x: Dims, y: Dims, i: nat)
    requires i <= |y| <= |x|
  {
    forall k :: 0 <= k < i ==> Agree(x[|x| - |y| + k], y[k])
  }

  predicate XIsJoinBelow(x: Dims, y: Dims, i: nat)
    requires i <= |y| <= |x|
  {
    forall k :: 0 <= k < i ==> x[|x| - |y| + k] == y[k] || y[k] == 1
  }

  predicate YIsJoinBelow(x: Dims, y: Dims, i: nat)
    requires i <= |y| <= |x|
  {
    forall k :: 0 <= k < i ==> x[|x| - |y| + k] == y[k] || x[|x| - |y| + k] == 1
  }

  predicate JoinedBelow(x: Dims, y: Dims, dims: Dims, i: nat)
    requires |x| - |y| <= i <= |x| && |y| <= |x|
  {
    && |dims| == |x|
    && forall k :: 0 <= k < |x| ==> dims[k] == if |x| - |y| <= k < i then Larger(x[k], y[k - (|x| - |y|)]) else x[k]
  }

  lemma CompatibleAligned(x: Dims, y: Dims)
    requires |x| >= |y|
    ensures Compatible(x, y) <==> AgreeBelow(x, y, |y|)
  {
    var offset := |x| - |y|;
    if AgreeBelow(x, y, |y|) {
      forall i | 0 <= i < |x| ensures AgreeAt(x, y, |x|, i) {
        if i >= offset {
          assert Agree(x[offset + (i - offset)], y[i - offset]);
        }
      }
    }
    if Compatible(x, y) {
      forall k | 0 <= k < |y| ensures Agree(x[offset + k], y[k]) {
        assert AgreeAt(x, y, Rank(x, y), offset + k);
      }
    }
  }

  lemma JoinAligned(x: Dims, y: Dims, dims: Dims)
    requires |x| >= |y|
    ensures XIsJoinBelow(x, y, |y|) ==> JoinDims(x, y) == x
    ensures AgreeBelow(x, y, |y|) && YIsJoinBelow(x, y, |y|) && |x| == |y| ==> JoinDims(x, y) == y
    ensures JoinedBelow(x, y, dims, |x|) ==> JoinDims(x, y) == dims
  {
    hide *;
    var j := JoinDims(x, y);
    JoinIsJoined(x, y);
    if XIsJoinBelow(x, y, |y|) {
      XIsJoined(x, y);
      JoinedIsUnique(x, y, j, x);
    }
    if AgreeBelow(x, y, |y|) && YIsJoinBelow(x, y, |y|) && |x| == |y| {
      YIsJoined(x, y);
      JoinedIsUnique(x, y, j, y);
    }
    if JoinedBelow(x, y, dims, |x|) {
      JoinedIsUnique(x, y, j, dims);
    }
  }

  lemma JoinIsJoined(x: Dims, y: Dims)
    requires |x| >= |y|
    ensures JoinedBelow(x, y, JoinDims(x, y), |x|)
  {
  }

  lemma XIsJoined(x: Dims, y: Dims)
    requires |x| >= |y| && XIsJoinBelow(x, y, |y|)
    ensures JoinedBelow(x, y, x, |x|)
  {
    var offset := |x| - |y|;
    forall k | offset <= k < |x| ensures x[k] == Larger(x[k], y[k - offset]) {
      assert x[offset + (k - offset)] == y[k - offset] || y[k - offset] == 1;
    }
  }

  lemma YIsJoined(x: Dims, y: Dims)
    requires |x| == |y| && AgreeBelow(x, y, |y|) && YIsJoinBelow(x, y, |y|)
    ensures JoinedBelow(x, y, y, |x|)
  {
    forall k | 0 <= k < |x| ensures y[k] == Larger(x[k], y[k]) {
      assert x[|x| - |y| + k] == y[k] || x[|x| - |y| + k] == 1;
    }
  }

  lemma JoinedIsUnique(x: Dims, y: Dims, j: Dims, dims: Dims)
    requires |x| >= |y| && JoinedBelow(x, y, j, |x|) && JoinedBelow(x, y, dims, |x|)
    ensures j == dims
  {
  }

  /** A copy of x with its 1s replaced by the dimensions of y. */
  method ReplaceOnes(x: Dims, y: Dims) returns (dims: Dims)
    requires |y| <= |x|
    ensures JoinedBelow(x, y, dims, |x|)
  {
    var offset := |x| - |y|;
    dims := x;
    for i := offset to |x|
      invariant JoinedBelow(x, y, dims, i)
    {
      if dims[i] == 1 {
        dims := dims[i := y[i - offset]];
      }
    }
  }

  /** UnpackedShape::broadcast, which returns one of its operands where it can. */
  method BroadcastShapes(self: Dims, other: Dims) returns (r: Broadcasted)
    requires ValidShape(self) && ValidShape(other)
    ensures r == Broadcast(self, other)
  {
    var x, y := self, other;
    if |x| < |y| {
      x, y := y, x;
    }
    BroadcastIsCommutative(x, y);
    CompatibleAligned(x, y);
    JoinIsPositive(x, y);
    hide Compatible, AgreeAt, Aligned, JoinDims, Numel;
    var offset := |x| - |y|;
    var sameAsX, sameAsY := true, offset == 0;
    for i := 0 to |y|
      invariant AgreeBelow(x, y, i)
      invariant sameAsX ==> XIsJoinBelow(x, y, i)
      invariant sameAsY ==> YIsJoinBelow(x, y, i) && offset == 0
    {
      var xDim, yDim := x[offset + i], y[i];
      if xDim != yDim {
        if yDim == 1 {
          sameAsY := false;
        } else if xDim == 1 {
          sameAsX := false;
        } else {
          return NotBroadcastable;
        }
      }
    }
    if sameAsX {
      JoinAligned(x, y, x);
      return Broadcasted(x);
    }
    if sameAsY {
      JoinAligned(x, y, y);
      return Broadcasted(y);
    }
    var dims := ReplaceOnes(x, y);
    JoinAligned(x, y, dims);
    var numel := CheckedNumel(dims);
    if numel == None {
      return TooManyElements;
    }
    return Broadcasted(dims);
  }
}
