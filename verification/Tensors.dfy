/** Constant tensors: copying one into a larger shape, and elementwise operations on tensors that
    are stored either as a single repeated element or as an array. */
module Tensors {
  import opened Shapes

  // ---- Elements by multi-index ----

  type Index = seq<int>

  predicate InShape(index: Index, shape: Dims) {
    |index| == |shape| && forall i :: 0 <= i < |shape| ==> 0 <= index[i] < shape[i]
  }

  /** The position of an element in row-major order. */
  function Ravel(index: Index, shape: Dims): int
    requires |index| == |shape|
  {
    if shape == [] then 0 else index[0] * Numel(shape[1..]) + Ravel(index[1..], shape[1..])
  }

  lemma {:induction false} RavelInRange(index: Index, shape: Dims)
    requires InShape(index, shape)
    ensures 0 <= Ravel(index, shape) < Numel(shape)
  {
    if shape != [] {
      RavelInRange(index[1..], shape[1..]);
      RowsBelow(index[0], shape[0], Numel(shape[1..]));
    }
  }

  lemma RowsBelow(k: int, rows: int, size: int)
    requires 0 <= k < rows && size > 0
    ensures 0 <= k * size && k * size + size <= rows * size
  {
    Distribute(rows, k, size);
    AtLeastOnce(rows - k, size);
    if k > 0 {
      AtLeastOnce(k, size);
    }
  }

  lemma Distribute(a: int, b: int, c: int)
    ensures (a - b) * c == a * c - b * c
  {
  }

  lemma AtLeastOnce(k: int, size: int)
    requires k >= 1 && size > 0
    ensures k * size >= size
  {
  }

  /** An element has one multi-index only. */
  lemma {:induction false} RavelIsInjective(x: Index, y: Index, shape: Dims)
    requires InShape(x, shape) && InShape(y, shape) && Ravel(x, shape) == Ravel(y, shape)
    ensures x == y
  {
    if shape != [] {
      RavelInRange(x[1..], shape[1..]);
      RavelInRange(y[1..], shape[1..]);
      SameRow(x[0], y[0], Numel(shape[1..]), Ravel(x[1..], shape[1..]), Ravel(y[1..], shape[1..]));
      RavelIsInjective(x[1..], y[1..], shape[1..]);
      assert x == [x[0]] + x[1..] && y == [y[0]] + y[1..];
    }
  }

  lemma SameRow(j: int, k: int, size: int, r: int, s: int)
    requires 0 <= r < size && 0 <= s < size && j * size + r == k * size + s
    ensures j == k && r == s
  {
    Distribute(j, k, size);
    Distribute(k, j, size);
    if j > k {
      AtLeastOnce(j - k, size);
    } else if j < k {
      AtLeastOnce(k - j, size);
    }
  }

  /** And every element has one. */
  function Unravel(n: int, shape: Dims): (index: Index)
    requires Positive(shape) && 0 <= n < Numel(shape)
    ensures InShape(index, shape) && Ravel(index, shape) == n
  {
    if shape == [] then []
    else
      var size := Numel(shape[1..]);
      NumelPositive(shape[1..]);
      RowOf(n, shape[0], size);
      var rest := Unravel(n % size, shape[1..]);
      UnravelStep(n / size, rest, n, shape);
      [n / size] + rest
  }

  lemma UnravelStep(row: int, rest: Index, n: int, shape: Dims)
    requires shape != [] && InShape(rest, shape[1..]) && 0 <= row < shape[0]
    requires row * Numel(shape[1..]) + Ravel(rest, shape[1..]) == n
    ensures InShape([row] + rest, shape) && Ravel([row] + rest, shape) == n
  {
    assert ([row] + rest)[1..] == rest;
  }

  lemma RowOf(n: int, rows: int, size: int)
    requires 0 <= n < rows * size && size > 0
    ensures 0 <= n / size < rows && n == (n / size) * size + n % size
  {
    var q := n / size;
    assert n == q * size + n % size;
    if q >= rows {
      RowsBelow(rows, q + 1, size);
    }
  }

  // ---- Broadcasting of elements ----

  /** Where an element of the larger tensor comes from. */
  function Project(index: Index, src: Dims): (p: Index)
    requires |src| <= |index|
    ensures |p| == |src|
  {
    seq(|src|, i requires 0 <= i < |src| => if src[i] == 1 then 0 else index[i + (|index| - |src|)])
  }

  /** data is src, repeated along the dimensions in which the shape is larger. */
  ghost predicate IsBroadcast(data: seq<nat>, shape: Dims, src: seq<nat>, srcShape: Dims) {
    && |srcShape| <= |shape| && |data| == Numel(shape) && |src| == Numel(srcShape)
    && forall index: Index :: InShape(index, shape) ==>
         && InShape(Project(index, srcShape), srcShape)
         && 0 <= Ravel(index, shape) < |data| && 0 <= Ravel(Project(index, srcShape), srcShape) < |src|
         && data[Ravel(index, shape)] == src[Ravel(Project(index, srcShape), srcShape)]
  }

  lemma BroadcastIsUnique(data: seq<nat>, data': seq<nat>, shape: Dims, src: seq<nat>, srcShape: Dims)
    requires Positive(shape) && IsBroadcast(data, shape, src, srcShape) && IsBroadcast(data', shape, src, srcShape)
    ensures data == data'
  {
    forall n | 0 <= n < |data| ensures data[n] == data'[n] {
      var index := Unravel(n, shape);
    }
  }

  lemma ProjectInShape(index: Index, shape: Dims, src: Dims)
    requires InShape(index, shape) && BroadcastsTo(src, shape) && Positive(src)
    ensures InShape(Project(index, src), src)
  {
    var p, extra := Project(index, src), |shape| - |src|;
    forall i | 0 <= i < |src| ensures 0 <= p[i] < src[i] {
      assert Aligned(src, |shape|, i + extra) == src[i];
    }
  }

  // ---- Strides ----

  function Stride(src: Dims, n: nat, i: nat): int
    requires |src| <= n && i < n
  {
    var extra := n - |src|;
    if i < extra || src[i - extra] == 1 then 0 else Numel(src[i - extra + 1..])
  }

  predicate AreStrides(strides: seq<int>, src: Dims, from: nat) {
    && |src| <= |strides|
    && forall i :: from <= i < |strides| ==> strides[i] == Stride(src, |strides|, i)
  }

  function Dot(index: Index, strides: seq<int>): int
    requires |index| == |strides|
  {
    if index == [] then 0 else index[0] * strides[0] + Dot(index[1..], strides[1..])
  }

  /** The offset that the strides give is the position of the projected index. */
  lemma {:induction false} DotIsRavel(index: Index, strides: seq<int>, src: Dims)
    requires |index| == |strides| && AreStrides(strides, src, 0)
    ensures Dot(index, strides) == Ravel(Project(index, src), src)
    decreases |index|
  {
    if index != [] {
      var tail := strides[1..];
      var p := Project(index, src);
      assert strides[0] == Stride(src, |strides|, 0);
      if |src| < |index| {
        assert AreStrides(tail, src, 0) by {
          assert forall i :: 0 <= i < |tail| ==> tail[i] == strides[i + 1] == Stride(src, |tail|, i);
        }
        DotIsRavel(index[1..], tail, src);
        assert Project(index[1..], src) == p;
      } else {
        assert AreStrides(tail, src[1..], 0) by {
          forall i | 0 <= i < |tail| ensures tail[i] == Stride(src[1..], |tail|, i) {
            assert tail[i] == strides[i + 1];
            assert src[1..][i + 1..] == src[i + 2..];
          }
        }
        DotIsRavel(index[1..], tail, src[1..]);
        assert Project(index[1..], src[1..]) == p[1..];
        assert p[0] * Numel(src[1..]) == index[0] * strides[0];
      }
    }
  }

  // ---- The odometer ----

  lemma {:induction false} RavelAfterUpdate(index: Index, shape: Dims, i: nat, v: int)
    requires |index| == |shape| && i < |shape|
    ensures Ravel(index[i := v], shape) == Ravel(index, shape) + (v - index[i]) * Numel(shape[i + 1..])
  {
    if i == 0 {
      assert index[0 := v][1..] == index[1..];
      Difference(v, index[0], Numel(shape[1..]));
    } else {
      assert index[i := v][1..] == index[1..][i - 1 := v];
      assert shape[1..][i..] == shape[i + 1..];
      RavelAfterUpdate(index[1..], shape[1..], i - 1, v);
    }
  }

  lemma {:induction false} DotAfterUpdate(index: Index, strides: seq<int>, i: nat, v: int)
    requires |index| == |strides| && i < |index|
    ensures Dot(index[i := v], strides) == Dot(index, strides) + (v - index[i]) * strides[i]
  {
    if i == 0 {
      assert index[0 := v][1..] == index[1..];
      Difference(v, index[0], strides[0]);
    } else {
      assert index[i := v][1..] == index[1..][i - 1 := v];
      DotAfterUpdate(index[1..], strides[1..], i - 1, v);
    }
  }

  lemma DotAfterStep(index: Index, strides: seq<int>, i: nat)
    requires |index| == |strides| && i < |index|
    ensures Dot(index[i := index[i] + 1], strides) == Dot(index, strides) + strides[i]
    ensures Dot(index[i := 0], strides) == Dot(index, strides) - index[i] * strides[i]
  {
    DotAfterUpdate(index, strides, i, index[i] + 1);
    DotAfterUpdate(index, strides, i, 0);
    Distribute(0, index[i], strides[i]);
  }

  lemma Difference(a: int, b: int, c: int)
    ensures a * c == b * c + (a - b) * c
  {
  }

  lemma {:induction false} RavelOfZeros(index: Index, shape: Dims)
    requires |index| == |shape| && forall i :: 0 <= i < |index| ==> index[i] == 0
    ensures Ravel(index, shape) == 0
  {
    if shape != [] {
      RavelOfZeros(index[1..], shape[1..]);
      assert 0 * Numel(shape[1..]) == 0;
    }
  }

  lemma {:induction false} DotOfZeros(index: Index, strides: seq<int>)
    requires |index| == |strides| && forall i :: 0 <= i < |index| ==> index[i] == 0
    ensures Dot(index, strides) == 0
  {
    if index != [] {
      DotOfZeros(index[1..], strides[1..]);
      assert 0 * strides[0] == 0;
    }
  }

  /** The index stands for element n, once the element has been carried into dimension i - 1. */
  ghost predicate Carried(index: Index, shape: Dims, i: nat, n: int)
    requires i <= |shape|
  {
    InShape(index, shape) && Ravel(index, shape) + Numel(shape[i..]) == n
  }

  /** A dimension that has not reached its end takes the carry. */
  lemma CarryEnds(index: Index, shape: Dims, i: nat, n: int)
    requires i < |shape| && Carried(index, shape, i + 1, n) && index[i] + 1 < shape[i]
    ensures InShape(index[i := index[i] + 1], shape) && Ravel(index[i := index[i] + 1], shape) == n
  {
    hide Ravel, Numel;
    RavelAfterUpdate(index, shape, i, index[i] + 1);
    Once(index[i], Numel(shape[i + 1..]));
  }

  lemma Once(a: int, size: int)
    ensures (a + 1 - a) * size == size
  {
  }

  /** A dimension that has passes it on. */
  lemma CarryGoesOn(index: Index, shape: Dims, i: nat, n: int)
    requires i < |shape| && Carried(index, shape, i + 1, n) && index[i] + 1 == shape[i]
    ensures Carried(index[i := 0], shape, i, n)
  {
    hide Ravel, Numel;
    RavelAfterUpdate(index, shape, i, 0);
    NumelFrom(shape, i);
    Distribute(0, index[i], Numel(shape[i + 1..]));
    Distribute(shape[i], 1, Numel(shape[i + 1..]));
  }

  lemma NumelFrom(shape: Dims, i: nat)
    requires i < |shape|
    ensures Numel(shape[i..]) == shape[i] * Numel(shape[i + 1..])
  {
    assert shape[i..][1..] == shape[i + 1..];
  }

  /** A carry out of the first dimension: that was the last element. */
  lemma CarryIsOut(index: Index, shape: Dims, n: int)
    requires Carried(index, shape, 0, n)
    ensures n >= Numel(shape)
  {
    RavelInRange(index, shape);
    assert shape[0..] == shape;
  }

  method ComputeStrides(src: Dims, ndim: nat) returns (strides: seq<int>)
    requires |src| <= ndim
    ensures |strides| == ndim && AreStrides(strides, src, 0)
  {
    var extra := ndim - |src|;
    strides := seq(ndim, i => 0);
    var stride, i := 1, ndim;
    while i > 0
      invariant 0 <= i <= ndim == |strides|
      invariant AreStrides(strides, src, i)
      invariant stride == if i < extra then Numel(src) else Numel(src[i - extra..])
    {
      i := i - 1;
      var srcDim := if i >= extra then src[i - extra] else 1;
      if i >= extra {
        assert src[i - extra..][1..] == src[i - extra + 1..];
      } else {
        assert src[0..] == src;
      }
      strides := strides[i := if srcDim == 1 then 0 else stride];
      stride := stride * srcDim;
    }
  }

  /** What has been copied so far. */
  ghost predicate CopiedBelow(data: seq<nat>, shape: Dims, src: seq<nat>, srcShape: Dims, n: int) {
    && |srcShape| <= |shape|
    && forall index: Index :: InShape(index, shape) && Ravel(index, shape) < n ==>
         && InShape(Project(index, srcShape), srcShape)
         && 0 <= Ravel(index, shape) < |data| && 0 <= Ravel(Project(index, srcShape), srcShape) < |src|
         && data[Ravel(index, shape)] == src[Ravel(Project(index, srcShape), srcShape)]
  }

  lemma OneMoreCopied(
      before: seq<nat>, data: seq<nat>, shape: Dims, src: seq<nat>, srcShape: Dims, n: int, at: Index)
    requires Positive(srcShape) && BroadcastsTo(srcShape, shape) && |src| == Numel(srcShape)
    requires CopiedBelow(before, shape, src, srcShape, n) && 0 <= n < |before| == |data|
    requires InShape(at, shape) && Ravel(at, shape) == n
    requires 0 <= Ravel(Project(at, srcShape), srcShape) < |src|
    requires data == before[n := src[Ravel(Project(at, srcShape), srcShape)]]
    ensures CopiedBelow(data, shape, src, srcShape, n + 1)
  {
    forall index: Index | InShape(index, shape) && Ravel(index, shape) < n + 1
      ensures InShape(Project(index, srcShape), srcShape)
      ensures 0 <= Ravel(index, shape) < |data| && 0 <= Ravel(Project(index, srcShape), srcShape) < |src|
      ensures data[Ravel(index, shape)] == src[Ravel(Project(index, srcShape), srcShape)]
    {
      RavelInRange(index, shape);
      ProjectInShape(index, shape, srcShape);
      RavelInRange(Project(index, srcShape), srcShape);
      if Ravel(index, shape) == n {
        RavelIsInjective(index, at, shape);
      }
    }
  }

  lemma AllCopied(data: seq<nat>, shape: Dims, src: seq<nat>, srcShape: Dims)
    requires |data| == Numel(shape) && |src| == Numel(srcShape) && CopiedBelow(data, shape, src, srcShape, |data|)
    ensures IsBroadcast(data, shape, src, srcShape)
  {
    forall index: Index | InShape(index, shape) ensures Ravel(index, shape) < |data| {
      RavelInRange(index, shape);
    }
  }

  /** The index of the next element, by counting up the last dimension first, and its offset. */
  method NextIndex(index: Index, offset: int, shape: Dims, strides: seq<int>, ghost n: int)
    returns (next: Index, nextOffset: int)
    requires InShape(index, shape) && |strides| == |shape| && Ravel(index, shape) == n
    requires offset == Dot(index, strides)
    ensures |next| == |shape| && nextOffset == Dot(next, strides)
    ensures n + 1 < Numel(shape) ==> InShape(next, shape) && Ravel(next, shape) == n + 1
  {
    next, nextOffset := index, offset;
    assert shape[|shape|..] == [];
    hide Ravel, Dot, Numel, InShape;
    var i := |shape|;
    assert |next| == |shape| && Carried(next, shape, i, n + 1) by { StartOfCarry(index, shape, n); }
    while i > 0
      invariant 0 <= i <= |shape| == |next|
      invariant Carried(next, shape, i, n + 1)
      invariant nextOffset == Dot(next, strides)
    {
      i := i - 1;
      InShapeAt(next, shape, i, n + 1);
      ghost var before := next;
      nextOffset := nextOffset + strides[i];
      next := next[i := next[i] + 1];
      DotAfterStep(before, strides, i);
      if next[i] < shape[i] {
        CarryEnds(before, shape, i, n + 1);
        return;
      }
      DotAfterStep(next, strides, i);
      CarryGoesOn(before, shape, i, n + 1);
      nextOffset := nextOffset - next[i] * strides[i];
      next := next[i := 0];
      assert next == before[i := 0];
    }
    CarryIsOut(next, shape, n + 1);
  }

  lemma InShapeAt(index: Index, shape: Dims, i: nat, n: int)
    requires i < |shape| && Carried(index, shape, i + 1, n)
    ensures |index| == |shape| && 0 <= index[i] && index[i] + 1 <= shape[i]
  {
  }

  lemma StartOfCarry(index: Index, shape: Dims, n: int)
    requires InShape(index, shape) && Ravel(index, shape) == n
    ensures Carried(index, shape, |shape|, n + 1)
  {
  }

  /** The copy loop of broadcast_to_unchecked. */
  method BroadcastTo(src: array<nat>, srcShape: Dims, data: array<nat>, shape: Dims)
    requires ValidShape(srcShape) && ValidShape(shape) && BroadcastsTo(srcShape, shape)
    requires src.Length == Numel(srcShape) && data.Length == Numel(shape) && src != data
    modifies data
    ensures IsBroadcast(data[..], shape, src[..], srcShape)
  {
    var strides := ComputeStrides(srcShape, |shape|);
    var index: Index := seq(|shape|, i => 0);
    var srcOffset := 0;
    RavelOfZeros(index, shape);
    DotOfZeros(index, strides);
    hide Ravel, Dot, Numel, AreStrides, BroadcastsTo, InShape, CopiedBelow, Positive;
    assert InShape(index, shape) && CopiedBelow(data[..], shape, src[..], srcShape, 0) by {
      NothingCopied(index, data[..], shape, src[..], srcShape);
    }
    for n := 0 to data.Length
      invariant |index| == |shape| && srcOffset == Dot(index, strides)
      invariant n < data.Length ==> InShape(index, shape) && Ravel(index, shape) == n
      invariant CopiedBelow(data[..], shape, src[..], srcShape, n)
    {
      DotIsRavel(index, strides, srcShape);
      ProjectInShape(index, shape, srcShape);
      RavelInRange(Project(index, srcShape), srcShape);
      ghost var before := data[..];
      data[n] := src[srcOffset];
      OneMoreCopied(before, data[..], shape, src[..], srcShape, n, index);
      index, srcOffset := NextIndex(index, srcOffset, shape, strides, n);
    }
    AllCopied(data[..], shape, src[..], srcShape);
  }

  lemma NothingCopied(zeros: Index, data: seq<nat>, shape: Dims, src: seq<nat>, srcShape: Dims)
    requires |zeros| == |shape| && (forall i :: 0 <= i < |shape| ==> zeros[i] == 0)
    requires Positive(shape) && |srcShape| <= |shape|
    ensures InShape(zeros, shape) && CopiedBelow(data, shape, src, srcShape, 0)
  {
    forall index: Index | InShape(index, shape) ensures Ravel(index, shape) >= 0 {
      RavelInRange(index, shape);
    }
  }

  // ---- Elementwise operations ----

  datatype Result<E> = Ok(bits: nat) | Err(error: E)

  /** Bits: one element, repeated. */
  datatype Tensor = Bits(bits: nat) | BitsArray(data: seq<nat>)

  predicate ValidTensor(t: Tensor, numel: nat) { t.BitsArray? ==> |t.data| == numel }

  function Expand(t: Tensor, numel: nat): (data: seq<nat>)
    requires ValidTensor(t, numel)
    ensures |data| == numel
  {
    match t
    case Bits(bits) => seq(numel, i => bits)
    case BitsArray(data) => data
  }

  datatype Outcome<T, E> = Done(value: T) | Failed(error: E)

  /** The operation on all elements in turn, up to the first that fails. */
  function Elementwise<E>(x: seq<nat>, y: seq<nat>, f: (nat, nat) -> Result<E>): Outcome<seq<nat>, E>
    requires |x| == |y|
  {
    if x == [] then Done([])
    else
      var last := |x| - 1;
      match Elementwise(x[..last], y[..last], f)
      case Failed(e) => Failed(e)
      case Done(data) =>
        match f(x[last], y[last])
        case Err(e) => Failed(e)
        case Ok(bits) => Done(data + [bits])
  }

  /** It succeeds exactly when it succeeds on each pair of elements, and otherwise reports the first
      failure. */
  lemma {:induction false} ElementwiseIsPointwise<E>(x: seq<nat>, y: seq<nat>, f: (nat, nat) -> Result<E>)
    requires |x| == |y|
    ensures match Elementwise(x, y, f)
            case Done(data) => |data| == |x| && forall i :: 0 <= i < |x| ==> f(x[i], y[i]) == Ok(data[i])
            case Failed(e) => exists k :: 0 <= k < |x| && f(x[k], y[k]) == Err(e)
                                          && forall i :: 0 <= i < k ==> f(x[i], y[i]).Ok?
  {
    if x != [] {
      var last := |x| - 1;
      ElementwiseIsPointwise(x[..last], y[..last], f);
      var before := Elementwise(x[..last], y[..last], f);
      ElementwiseStep(x, y, f);
      hide Elementwise;
      assert forall i :: 0 <= i < last ==> x[..last][i] == x[i] && y[..last][i] == y[i];
      if before.Failed? {
        var k :| 0 <= k < last && f(x[..last][k], y[..last][k]) == Err(before.error)
                 && forall i :: 0 <= i < k ==> f(x[..last][i], y[..last][i]).Ok?;
        assert f(x[k], y[k]) == Err(before.error);
        forall i | 0 <= i < k ensures f(x[i], y[i]).Ok? {
          assert f(x[..last][i], y[..last][i]).Ok?;
        }
      } else {
        forall i | 0 <= i < last ensures f(x[i], y[i]) == Ok(before.value[i]) {
          assert f(x[..last][i], y[..last][i]) == Ok(before.value[i]);
        }
      }
    }
  }

  lemma ElementwiseStep<E>(x: seq<nat>, y: seq<nat>, f: (nat, nat) -> Result<E>)
    requires |x| == |y| && x != []
    ensures var last := |x| - 1;
            Elementwise(x, y, f) == match Elementwise(x[..last], y[..last], f)
                                    case Failed(e) => Failed(e)
                                    case Done(data) =>
                                      match f(x[last], y[last])
                                      case Err(e) => Failed(e)
                                      case Ok(bits) => Done(data + [bits])
  {
  }

  /** A failure is a failure of what comes after, too. */
  lemma {:induction false} FailureStays<E>(x: seq<nat>, y: seq<nat>, f: (nat, nat) -> Result<E>, k: nat)
    requires |x| == |y| && k <= |x| && Elementwise(x[..k], y[..k], f).Failed?
    ensures Elementwise(x, y, f) == Elementwise(x[..k], y[..k], f)
  {
    var last := |x| - 1;
    if k == |x| {
      assert x[..k] == x && y[..k] == y;
    } else {
      assert x[..last][..k] == x[..k] && y[..last][..k] == y[..k];
      FailureStays(x[..last], y[..last], f, k);
    }
  }

  /** On repeated elements, one application decides. */
  lemma {:induction false} ElementwiseOfSplats<E>(a: nat, b: nat, n: nat, f: (nat, nat) -> Result<E>)
    ensures Elementwise(Expand(Bits(a), n), Expand(Bits(b), n), f)
            == match f(a, b)
               case Ok(bits) => Done(Expand(Bits(bits), n))
               case Err(e) => if n == 0 then Done([]) else Failed(e)
  {
    var x, y := Expand(Bits(a), n), Expand(Bits(b), n);
    if n > 0 {
      ElementwiseOfSplats(a, b, n - 1, f);
      assert x[..n - 1] == Expand(Bits(a), n - 1) && y[..n - 1] == Expand(Bits(b), n - 1);
      if f(a, b).Ok? {
        assert Expand(Bits(f(a, b).bits), n - 1) + [f(a, b).bits] == Expand(Bits(f(a, b).bits), n);
      }
    } else if f(a, b).Ok? {
      assert Expand(Bits(f(a, b).bits), 0) == [];
    }
  }

  method ElementwiseLoop<E>(numel: nat, f: (nat, nat) -> Result<E>, x: nat --> nat, y: nat --> nat,
      ghost xs: seq<nat>, ghost ys: seq<nat>)
    returns (r: Outcome<seq<nat>, E>)
    requires |xs| == |ys| == numel
    requires forall i :: 0 <= i < numel ==> x.requires(i) && x(i) == xs[i] && y.requires(i) && y(i) == ys[i]
    ensures r == Elementwise(xs, ys, f)
  {
    var out := [];
    for i := 0 to numel
      invariant Elementwise(xs[..i], ys[..i], f) == Done(out)
    {
      assert xs[..i + 1][..i] == xs[..i] && ys[..i + 1][..i] == ys[..i];
      match f(x(i), y(i)) {
        case Err(e) =>
          FailureStays(xs, ys, f, i + 1);
          return Failed(e);
        case Ok(bits) =>
          out := out + [bits];
      }
    }
    assert xs[..numel] == xs && ys[..numel] == ys;
    return Done(out);
  }

  /** The result depends on what the elements are, not on how they are stored. */
  method ApplyBinary<E>(x: Tensor, y: Tensor, numel: nat, f: (nat, nat) -> Result<E>)
    returns (r: Outcome<Tensor, E>)
    requires numel > 0 && ValidTensor(x, numel) && ValidTensor(y, numel)
    ensures r.Done? ==> ValidTensor(r.value, numel) && (r.value.Bits? <==> x.Bits? && y.Bits?)
    ensures Elementwise(Expand(x, numel), Expand(y, numel), f)
            == match r
               case Done(t) => Done(Expand(t, numel))
               case Failed(e) => Failed(e)
  {
    if x.Bits? && y.Bits? {
      ElementwiseOfSplats(x.bits, y.bits, numel, f);
      match f(x.bits, y.bits) {
        case Err(e) => return Failed(e);
        case Ok(bits) => return Done(Bits(bits));
      }
    }
    ghost var xs, ys := Expand(x, numel), Expand(y, numel);
    ElementwiseIsPointwise(xs, ys, f);
    var out: Outcome<seq<nat>, E>;
    if x.Bits? {
      out := ElementwiseLoop(numel, f, (i: nat) => x.bits,
                             (i: nat) requires y.BitsArray? && i < |y.data| => y.data[i], xs, ys);
    } else if y.Bits? {
      out := ElementwiseLoop(numel, f, (i: nat) requires x.BitsArray? && i < |x.data| => x.data[i],
                             (i: nat) => y.bits, xs, ys);
    } else {
      out := ElementwiseLoop(numel, f, (i: nat) requires x.BitsArray? && i < |x.data| => x.data[i],
                             (i: nat) requires y.BitsArray? && i < |y.data| => y.data[i], xs, ys);
    }
    match out {
      case Failed(e) => return Failed(e);
      case Done(data) => return Done(BitsArray(data));
    }
  }

  /** Broadcasting a repeated element is repeating it more often. */
  lemma SplatBroadcasts(bits: nat, shape: Dims, src: Dims)
    requires ValidShape(shape) && ValidShape(src) && BroadcastsTo(src, shape)
    ensures Numel(shape) > 0 && Numel(src) > 0
    ensures IsBroadcast(Expand(Bits(bits), Numel(shape)), shape, Expand(Bits(bits), Numel(src)), src)
  {
    NumelPositive(shape);
    NumelPositive(src);
    forall index: Index | InShape(index, shape)
      ensures InShape(Project(index, src), src)
      ensures 0 <= Ravel(index, shape) < Numel(shape) && 0 <= Ravel(Project(index, src), src) < Numel(src)
    {
      RavelInRange(index, shape);
      ProjectInShape(index, shape, src);
      RavelInRange(Project(index, src), src);
    }
  }
}
