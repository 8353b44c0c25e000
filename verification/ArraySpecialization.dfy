/** What the launcher finds out about an array argument in order to specialize a kernel for it. Each
    bit must be true of every array that the specialized kernel is launched with. */
module ArraySpecialization {
  import opened PowersOfTwo
  import opened Shapes
  import opened Tensors
  import FixedWidthArithmetic

  const TMA_MAX_NDIM: nat := 5

  datatype Array = Array(dataPtr: int, shape: Dims, strides: seq<int>)

  predicate ValidArray(a: Array) { |a.strides| == |a.shape| }

  /** The bits for each dimension, as the set of dimensions whose bit is set. */
  datatype SpecializationBits = SpecializationBits(
    basePtrAligned: bool, disjointElements: bool,
    stride16ByteDivisible: set<nat>, strideOne: set<nat>, shapeDivisibleBy16: set<nat>, shapeOne: set<nat>)

  // ---- Disjoint elements ----

  /** A product in a signed 64-bit word, which wraps around. */
  function Wrap64(v: int): int { (v + TWO_63) % TWO_64 - TWO_63 }

  /** Pairs of stride and shape are sorted. */
  predicate Before(a: Array, i: nat, j: nat)
    requires ValidArray(a) && i < |a.shape| && j < |a.shape|
  {
    a.strides[i] < a.strides[j] || (a.strides[i] == a.strides[j] && a.shape[i] <= a.shape[j])
  }

  predicate AreAxes(a: Array, order: seq<nat>) {
    ValidArray(a) && forall k :: 0 <= k < |order| ==> order[k] < |a.shape|
  }

  function InsertAxis(a: Array, order: seq<nat>, i: nat): (r: seq<nat>)
    requires AreAxes(a, order) && i < |a.shape|
    ensures AreAxes(a, r) && |r| == |order| + 1
  {
    if order == [] then [i]
    else if Before(a, order[|order| - 1], i) then order + [i]
    else InsertAxis(a, order[..|order| - 1], i) + [order[|order| - 1]]
  }

  /** The first n axes, sorted by stride. */
  function SortAxes(a: Array, n: nat): (r: seq<nat>)
    requires ValidArray(a) && n <= |a.shape|
    ensures AreAxes(a, r) && |r| == n
  {
    if n == 0 then [] else InsertAxis(a, SortAxes(a, n - 1), n - 1)
  }

  predicate IsSorted(a: Array, order: seq<nat>)
    requires AreAxes(a, order)
  {
    forall j, k :: 0 <= j < k < |order| ==>
      || a.strides[order[j]] < a.strides[order[k]]
      || (a.strides[order[j]] == a.strides[order[k]] && a.shape[order[j]] <= a.shape[order[k]])
  }

  lemma {:induction false} InsertIsSorted(a: Array, order: seq<nat>, i: nat)
    requires AreAxes(a, order) && i < |a.shape| && IsSorted(a, order)
    ensures IsSorted(a, InsertAxis(a, order, i))
    ensures forall j :: j in InsertAxis(a, order, i) <==> j in order || j == i
  {
    if order != [] && !Before(a, order[|order| - 1], i) {
      var last := |order| - 1;
      InsertIsSorted(a, order[..last], i);
      var r := InsertAxis(a, order[..last], i);
      assert order == order[..last] + [order[last]];
      forall k | 0 <= k < |r| ensures Before(a, r[k], order[last]) {
        assert r[k] in r;
      }
    }
  }

  lemma NothingToSort(a: Array)
    requires ValidArray(a)
    ensures IsSorted(a, [])
  {
  }

  lemma {:induction false} SortIsSorted(a: Array, n: nat)
    requires ValidArray(a) && n <= |a.shape|
    ensures IsSorted(a, SortAxes(a, n))
    ensures forall j: nat :: j in SortAxes(a, n) <==> j < n
  {
    hide IsSorted, InsertAxis, Before;
    if n > 0 {
      SortIsSorted(a, n - 1);
      InsertIsSorted(a, SortAxes(a, n - 1), n - 1);
    } else {
      NothingToSort(a);
    }
  }

  /** The check on neighbours in the order of strides. */
  predicate StridesAreDisjoint(a: Array, order: seq<nat>)
    requires AreAxes(a, order)
  {
    && (|order| == 0 || a.strides[order[0]] > 0)
    && forall k :: 0 <= k < |order| - 1 ==> NeighboursAreDisjoint(a, order, k)
  }

  predicate NeighboursAreDisjoint(a: Array, order: seq<nat>, k: nat)
    requires AreAxes(a, order) && k + 1 < |order|
  {
    var cur := a.strides[order[k + 1]];
    cur > 0 && cur >= a.strides[order[k]] * a.shape[order[k]]
  }

  /** The same check as the code makes it, on 64-bit words. */
  predicate CheckPasses(a: Array, order: seq<nat>)
    requires AreAxes(a, order)
  {
    && (|order| == 0 || a.strides[order[0]] > 0)
    && forall k :: 0 <= k < |order| - 1 ==> CheckPassesAt(a, order, k)
  }

  predicate CheckPassesAt(a: Array, order: seq<nat>, k: nat)
    requires AreAxes(a, order) && k + 1 < |order|
  {
    var cur := a.strides[order[k + 1]];
    cur > 0 && cur >= Wrap64(a.strides[order[k]] * a.shape[order[k]])
  }

  /** The extent of an axis that is compared with the next stride is a 64-bit product. */
  predicate ExtentsFit(a: Array, order: seq<nat>)
    requires AreAxes(a, order)
  {
    forall k :: 0 <= k < |order| - 1 ==>
      -0x8000_0000_0000_0000 <= a.strides[order[k]] * a.shape[order[k]] < 0x8000_0000_0000_0000
  }

  /** The offset of an element, in elements. */
  function Offset(a: Array, index: Index, n: nat): int
    requires ValidArray(a) && |index| == |a.shape| && n <= |index|
  {
    if n == 0 then 0 else Offset(a, index, n - 1) + index[n - 1] * a.strides[n - 1]
  }

  /** The same sum, in another order. */
  function OffsetBy(a: Array, index: Index, order: seq<nat>): int
    requires AreAxes(a, order) && |index| == |a.shape|
  {
    if order == [] then 0
    else
      var i := order[|order| - 1];
      OffsetBy(a, index, order[..|order| - 1]) + index[i] * a.strides[i]
  }

  lemma {:induction false} OffsetAfterInsert(a: Array, index: Index, order: seq<nat>, i: nat)
    requires AreAxes(a, order) && i < |a.shape| && |index| == |a.shape|
    ensures OffsetBy(a, index, InsertAxis(a, order, i)) == OffsetBy(a, index, order) + index[i] * a.strides[i]
  {
    var r := InsertAxis(a, order, i);
    var last := |order| - 1;
    if order == [] {
      assert r[..0] == [];
    } else if Before(a, order[last], i) {
      assert r[..|order|] == order;
    } else {
      assert r[..|order|] == InsertAxis(a, order[..last], i);
      OffsetAfterInsert(a, index, order[..last], i);
    }
  }

  lemma {:induction false} OffsetInAnyOrder(a: Array, index: Index, n: nat)
    requires ValidArray(a) && |index| == |a.shape| && n <= |index|
    ensures OffsetBy(a, index, SortAxes(a, n)) == Offset(a, index, n)
  {
    if n > 0 {
      OffsetInAnyOrder(a, index, n - 1);
      OffsetAfterInsert(a, index, SortAxes(a, n - 1), n - 1);
    }
  }

  lemma DisjointPrefix(a: Array, order: seq<nat>, k: nat)
    requires AreAxes(a, order) && StridesAreDisjoint(a, order) && k < |order|
    ensures AreAxes(a, order[..k]) && StridesAreDisjoint(a, order[..k]) && a.strides[order[k]] > 0
    ensures k > 0 ==> a.strides[order[k]] >= a.strides[order[k - 1]] * a.shape[order[k - 1]]
  {
    if k > 0 {
      assert NeighboursAreDisjoint(a, order, k - 1);
    }
    forall j | 0 <= j < k - 1 ensures NeighboursAreDisjoint(a, order[..k], j) {
      assert NeighboursAreDisjoint(a, order, j);
    }
  }

  /** The offset within the first axes is less than the extent of the last of them. */
  lemma {:induction false} OffsetBelowExtent(a: Array, index: Index, order: seq<nat>)
    requires AreAxes(a, order) && StridesAreDisjoint(a, order) && InShape(index, a.shape)
    ensures OffsetBy(a, index, order) >= 0
    ensures order != [] ==>
              var i := order[|order| - 1]; OffsetBy(a, index, order) < a.strides[i] * a.shape[i]
  {
    if order != [] {
      var last := |order| - 1;
      var i := order[last];
      DisjointPrefix(a, order, last);
      OffsetBelowExtent(a, index, order[..last]);
      RowsBelow(index[i], a.shape[i], a.strides[i]);
    }
  }

  lemma {:induction false} OffsetsDiffer(a: Array, x: Index, y: Index, order: seq<nat>)
    requires AreAxes(a, order) && StridesAreDisjoint(a, order) && InShape(x, a.shape) && InShape(y, a.shape)
    requires OffsetBy(a, x, order) == OffsetBy(a, y, order)
    ensures forall k :: 0 <= k < |order| ==> x[order[k]] == y[order[k]]
  {
    if order != [] {
      var last := |order| - 1;
      var i := order[last];
      DisjointPrefix(a, order, last);
      OffsetBelowExtent(a, x, order[..last]);
      OffsetBelowExtent(a, y, order[..last]);
      SameRow(x[i], y[i], a.strides[i], OffsetBy(a, x, order[..last]), OffsetBy(a, y, order[..last]));
      OffsetsDiffer(a, x, y, order[..last]);
      forall k | 0 <= k < |order| ensures x[order[k]] == y[order[k]] {
        if k < last {
          assert order[..last][k] == order[k];
        }
      }
    }
  }

  /** No two elements are at the same place. */
  ghost predicate ElementsAreDisjoint(a: Array)
    requires ValidArray(a)
  {
    forall x: Index, y: Index ::
      (InShape(x, a.shape) && InShape(y, a.shape) && Offset(a, x, |a.shape|) == Offset(a, y, |a.shape|)) ==> x == y
  }

  /** Wrapping around leaves exactly the numbers of 64 bits unchanged. */
  lemma FitsIffUnchanged(v: int)
    ensures -0x8000_0000_0000_0000 <= v < 0x8000_0000_0000_0000 <==> Wrap64(v) == v
    ensures -0x8000_0000_0000_0000 <= Wrap64(v) < 0x8000_0000_0000_0000
    ensures (v - Wrap64(v)) % 0x1_0000_0000_0000_0000 == 0
  {
    var k := (v + TWO_63) / TWO_64;
    assert v - Wrap64(v) == TWO_64 * k;
    MultipleOfWord(k);
  }

  lemma MultipleOfWord(k: int)
    ensures (0x1_0000_0000_0000_0000 * k) % 0x1_0000_0000_0000_0000 == 0
  {
  }

  lemma CheckWithoutOverflow(a: Array, order: seq<nat>)
    requires AreAxes(a, order) && ExtentsFit(a, order)
    ensures CheckPasses(a, order) <==> StridesAreDisjoint(a, order)
  {
    hide Wrap64;
    forall k | 0 <= k < |order| - 1 ensures CheckPassesAt(a, order, k) <==> NeighboursAreDisjoint(a, order, k) {
      FitsIffUnchanged(a.strides[order[k]] * a.shape[order[k]]);
    }
  }

  /** A product that does not fit can mislead the check: here it wraps around to zero. */
  lemma OverflowMisleads()
    ensures var a := Array(0, [0x1_0000_0000, 0x1_0000_0001], [0x1_0000_0000, 0x1_0000_0000]);
            CheckPasses(a, SortAxes(a, 2)) && !ElementsAreDisjoint(a)
  {
    var n := 0x1_0000_0000;
    var a := Array(0, [n, n + 1], [n, n]);
    OrderOfTwo(a);
    hide SortAxes, InsertAxis;
    assert Wrap64(n * n) == 0;
    var x, y := [1, 0], [0, 1];
    OffsetsOfTwo(a, x);
    OffsetsOfTwo(a, y);
    hide Offset;
    assert InShape(x, a.shape) && InShape(y, a.shape);
    assert x[0] != y[0];
  }

  lemma OrderOfTwo(a: Array)
    requires ValidArray(a) && |a.shape| == 2 && Before(a, 0, 1)
    ensures SortAxes(a, 2) == [0, 1]
  {
    assert SortAxes(a, 0) == [];
    assert SortAxes(a, 1) == [0];
  }

  lemma OffsetsOfTwo(a: Array, index: Index)
    requires ValidArray(a) && |a.shape| == |index| == 2
    ensures Offset(a, index, 2) == index[0] * a.strides[0] + index[1] * a.strides[1]
  {
    assert Offset(a, index, 0) == 0;
    assert Offset(a, index, 1) == index[0] * a.strides[0];
  }

  /** The check is right, unless a product that it compares has overflown. */
  lemma DisjointCheckIsSound(a: Array)
    requires ValidArray(a) && CheckPasses(a, SortAxes(a, |a.shape|)) && ExtentsFit(a, SortAxes(a, |a.shape|))
    ensures ElementsAreDisjoint(a)
  {
    hide ExtentsFit, CheckPasses, StridesAreDisjoint, Offset, OffsetBy, InsertAxis, SortAxes, IsSorted, Before;
    var n := |a.shape|;
    var order := SortAxes(a, n);
    CheckWithoutOverflow(a, order);
    SortIsSorted(a, n);
    forall x: Index, y: Index | InShape(x, a.shape) && InShape(y, a.shape) && Offset(a, x, n) == Offset(a, y, n)
      ensures x == y
    {
      OffsetInAnyOrder(a, x, n);
      OffsetInAnyOrder(a, y, n);
      OffsetsDiffer(a, x, y, order);
      forall i | 0 <= i < n ensures x[i] == y[i] {
        assert i in order;
      }
    }
  }

  // ---- All bits ----

  predicate Stride16ByteDivisible(stride: int, bitwidth: nat) { (stride * bitwidth) % 128 == 0 }

  predicate ShapeDivisibleBy16(size: int, bitwidth: nat) { (size * bitwidth) % 8 == 0 && size % 16 == 0 }

  /** C's remainder is zero when the mathematical one is. */
  lemma TruncModIsZero(a: int, b: int)
    requires b > 0
    ensures FixedWidthArithmetic.TruncMod(a, b) == 0 <==> a % b == 0
    ensures a % b == 0 ==> FixedWidthArithmetic.TruncDiv(a, b) == a / b
  {
    FixedWidthArithmetic.FloorFromTrunc(a, b);
    FixedWidthArithmetic.RemainderFromTrunc(a, b);
    FixedWidthArithmetic.Quotient(a, b);
    FixedWidthArithmetic.QuotientIsUnique(a, b, a / b, a % b);
  }

  lemma SixteenBytes(bits: int)
    ensures bits % 128 == 0 <==> bits % 8 == 0 && (bits / 8) % 16 == 0
  {
  }

  /** Exactly these bits are set for the first n dimensions, and none for the others. */
  ghost predicate DimensionBits(
      r: SpecializationBits, a: Array, bitwidth: nat, inferShapeOne: bool, inferStrideOne: bool, n: nat)
    requires ValidArray(a) && n <= |a.shape|
  {
    && (forall i: nat :: i in r.stride16ByteDivisible <==> i < n && Stride16ByteDivisible(a.strides[i], bitwidth))
    && (forall i: nat :: i in r.strideOne <==> i < n && inferStrideOne && a.strides[i] == 1)
    && (forall i: nat :: i in r.shapeDivisibleBy16 <==> i < n && ShapeDivisibleBy16(a.shape[i], bitwidth))
    && (forall i: nat :: i in r.shapeOne <==> i < n && inferShapeOne && a.shape[i] == 1)
  }

  function SetIf(s: set<nat>, i: nat, b: bool): set<nat> { if b then s + {i} else s }

  lemma NextDimension(
      r: SpecializationBits, a: Array, bitwidth: nat, inferShapeOne: bool, inferStrideOne: bool, n: nat)
    requires ValidArray(a) && n < |a.shape| && DimensionBits(r, a, bitwidth, inferShapeOne, inferStrideOne, n)
    ensures DimensionBits(
      r.(stride16ByteDivisible := SetIf(r.stride16ByteDivisible, n, Stride16ByteDivisible(a.strides[n], bitwidth)),
         strideOne := SetIf(r.strideOne, n, inferStrideOne && a.strides[n] == 1),
         shapeDivisibleBy16 := SetIf(r.shapeDivisibleBy16, n, ShapeDivisibleBy16(a.shape[n], bitwidth)),
         shapeOne := SetIf(r.shapeOne, n, inferShapeOne && a.shape[n] == 1)),
      a, bitwidth, inferShapeOne, inferStrideOne, n + 1)
  {
    hide Stride16ByteDivisible, ShapeDivisibleBy16;
  }

  /** Wrapping around does not change the remainder by a small power of two. */
  lemma WrapKeepsRemainder(v: int)
    ensures Wrap64(v) % 128 == v % 128 && Wrap64(v) % 8 == v % 8
  {
    var k := WrapsByMultiple(v);
    hide Wrap64;
    RemainderBy128(v, k);
    RemainderBy8(v, 16 * k);
  }

  lemma WrapsByMultiple(v: int) returns (k: int)
    ensures Wrap64(v) == v + 128 * k
  {
    k := -(0x200_0000_0000_0000 * ((v + TWO_63) / TWO_64));
  }

  lemma RemainderBy128(v: int, k: int)
    ensures (v + 128 * k) % 128 == v % 128
  {
  }

  lemma RemainderBy8(v: int, k: int)
    ensures (v + 8 * k) % 8 == v % 8
  {
  }

  /** What the code computes for one dimension, on 64-bit words. */
  lemma DivisibilityTests(stride: int, size: int, bitwidth: nat)
    ensures var bits := Wrap64(stride * bitwidth);
            Stride16ByteDivisible(stride, bitwidth)
            <==> FixedWidthArithmetic.TruncMod(bits, 8) == 0
                 && FixedWidthArithmetic.TruncMod(FixedWidthArithmetic.TruncDiv(bits, 8), 16) == 0
    ensures ShapeDivisibleBy16(size, bitwidth)
            <==> FixedWidthArithmetic.TruncMod(Wrap64(size * bitwidth), 8) == 0
                 && FixedWidthArithmetic.TruncMod(size, 16) == 0
  {
    hide FixedWidthArithmetic.TruncMod, FixedWidthArithmetic.TruncDiv, Wrap64;
    var bits := Wrap64(stride * bitwidth);
    WrapKeepsRemainder(stride * bitwidth);
    WrapKeepsRemainder(size * bitwidth);
    TruncModIsZero(bits, 8);
    TruncModIsZero(bits / 8, 16);
    TruncModIsZero(Wrap64(size * bitwidth), 8);
    TruncModIsZero(size, 16);
    SixteenBytes(bits);
  }

  ghost predicate DisjointUnlessOverflow(a: Array)
    requires ValidArray(a)
  {
    ExtentsFit(a, SortAxes(a, |a.shape|)) ==> ElementsAreDisjoint(a)
  }

  lemma PassedIsDisjoint(a: Array)
    requires ValidArray(a)
    ensures CheckPasses(a, SortAxes(a, |a.shape|)) ==> DisjointUnlessOverflow(a)
  {
    hide CheckPasses, SortAxes, ElementsAreDisjoint, ExtentsFit;
    if CheckPasses(a, SortAxes(a, |a.shape|)) && ExtentsFit(a, SortAxes(a, |a.shape|)) {
      DisjointCheckIsSound(a);
    }
  }

  predicate CheckedBelow(a: Array, order: seq<nat>, k: nat)
    requires AreAxes(a, order) && k < |order|
  {
    a.strides[order[0]] > 0 && forall j :: 0 <= j < k ==> CheckPassesAt(a, order, j)
  }

  method CheckDisjoint(a: Array) returns (disjoint: bool)
    requires ValidArray(a)
    ensures disjoint <==> CheckPasses(a, SortAxes(a, |a.shape|))
  {
    var ndim := |a.shape|;
    var order := SortAxes(a, ndim);
    if ndim == 0 {
      return true;
    }
    disjoint := a.strides[order[0]] > 0;
    for i := 0 to ndim - 1
      invariant disjoint <==> CheckedBelow(a, order, i)
    {
      var prevStride, prevShape, curStride := a.strides[order[i]], a.shape[order[i]], a.strides[order[i + 1]];
      var extent := Wrap64(prevStride * prevShape);
      disjoint := disjoint && curStride > 0 && curStride >= extent;
      assert CheckPassesAt(a, order, i) <==> curStride > 0 && curStride >= extent;
    }
  }

  method ComputeBits(a: Array, bitwidth: nat, inferShapeOne: bool, inferStrideOne: bool)
    returns (r: SpecializationBits)
    requires ValidArray(a)
    ensures DimensionBits(r, a, bitwidth, inferShapeOne, inferStrideOne, if |a.shape| <= TMA_MAX_NDIM then |a.shape| else 0)
    ensures r.basePtrAligned <==> a.dataPtr % 16 == 0
    ensures r.disjointElements <==> CheckPasses(a, SortAxes(a, |a.shape|))
    ensures r.disjointElements ==> DisjointUnlessOverflow(a)
  {
    r := SpecializationBits(false, false, {}, {}, {}, {});
    var ndim := |a.shape|;
    assert DimensionBits(r, a, bitwidth, inferShapeOne, inferStrideOne, 0);
    hide FixedWidthArithmetic.TruncMod, FixedWidthArithmetic.TruncDiv, DimensionBits, Stride16ByteDivisible,
         ShapeDivisibleBy16, CheckPasses, DisjointUnlessOverflow, SortAxes, Wrap64;
    if ndim <= TMA_MAX_NDIM {
      for i := 0 to ndim
        invariant DimensionBits(r, a, bitwidth, inferShapeOne, inferStrideOne, i)
      {
        var stride, size := a.strides[i], a.shape[i];
        var bits, sizeBits := Wrap64(stride * bitwidth), Wrap64(size * bitwidth);
        DivisibilityTests(stride, size, bitwidth);
        NextDimension(r, a, bitwidth, inferShapeOne, inferStrideOne, i);
        if inferShapeOne && size == 1 {
          r := r.(shapeOne := r.shapeOne + {i});
        }
        if FixedWidthArithmetic.TruncMod(bits, 8) == 0
           && FixedWidthArithmetic.TruncMod(FixedWidthArithmetic.TruncDiv(bits, 8), 16) == 0 {
          r := r.(stride16ByteDivisible := r.stride16ByteDivisible + {i});
        }
        if inferStrideOne && stride == 1 {
          r := r.(strideOne := r.strideOne + {i});
        }
        if FixedWidthArithmetic.TruncMod(sizeBits, 8) == 0 && FixedWidthArithmetic.TruncMod(size, 16) == 0 {
          r := r.(shapeDivisibleBy16 := r.shapeDivisibleBy16 + {i});
        }
      }
    }
    ghost var perDimension := r;
    TruncModIsZero(a.dataPtr, 16);
    var disjoint := CheckDisjoint(a);
    PassedIsDisjoint(a);
    r := r.(basePtrAligned := FixedWidthArithmetic.TruncMod(a.dataPtr, 16) == 0, disjointElements := disjoint);
    OnlyDimensions(perDimension, r, a, bitwidth, inferShapeOne, inferStrideOne,
                   if |a.shape| <= TMA_MAX_NDIM then |a.shape| else 0);
  }

  lemma OnlyDimensions(
      r: SpecializationBits, s: SpecializationBits, a: Array, bitwidth: nat, inferShapeOne: bool, inferStrideOne: bool,
      n: nat)
    requires ValidArray(a) && n <= |a.shape| && DimensionBits(r, a, bitwidth, inferShapeOne, inferStrideOne, n)
    requires s == r.(basePtrAligned := s.basePtrAligned, disjointElements := s.disjointElements)
    ensures DimensionBits(s, a, bitwidth, inferShapeOne, inferStrideOne, n)
  {
  }

  // ---- Several arrays that share one kernel ----

  function Intersect(x: SpecializationBits, y: SpecializationBits): SpecializationBits {
    SpecializationBits(
      x.basePtrAligned && y.basePtrAligned, x.disjointElements && y.disjointElements,
      x.stride16ByteDivisible * y.stride16ByteDivisible, x.strideOne * y.strideOne,
      x.shapeDivisibleBy16 * y.shapeDivisibleBy16, x.shapeOne * y.shapeOne)
  }

  /** Every bit that is set is true of the array. */
  ghost predicate TrueOf(bits: SpecializationBits, a: Array, bitwidth: nat)
    requires ValidArray(a)
  {
    && (bits.basePtrAligned ==> a.dataPtr % 16 == 0)
    && (bits.disjointElements ==> DisjointUnlessOverflow(a))
    && (forall i: nat :: i in bits.stride16ByteDivisible ==> i < |a.shape| && Stride16ByteDivisible(a.strides[i], bitwidth))
    && (forall i: nat :: i in bits.strideOne ==> i < |a.shape| && a.strides[i] == 1)
    && (forall i: nat :: i in bits.shapeDivisibleBy16 ==> i < |a.shape| && a.shape[i] % 16 == 0)
    && (forall i: nat :: i in bits.shapeOne ==> i < |a.shape| && a.shape[i] == 1)
  }

  lemma ComputedBitsAreTrue(
      r: SpecializationBits, a: Array, bitwidth: nat, inferShapeOne: bool, inferStrideOne: bool, n: nat)
    requires ValidArray(a) && n <= |a.shape| && DimensionBits(r, a, bitwidth, inferShapeOne, inferStrideOne, n)
    requires (r.basePtrAligned ==> a.dataPtr % 16 == 0) && (r.disjointElements ==> DisjointUnlessOverflow(a))
    ensures TrueOf(r, a, bitwidth)
  {
    hide DisjointUnlessOverflow, Stride16ByteDivisible;
  }

  const DIMENSIONS: set<nat> := set i: nat | i < TMA_MAX_NDIM

  const ALL_BITS: SpecializationBits :=
    SpecializationBits(true, true, DIMENSIONS, DIMENSIONS, DIMENSIONS, DIMENSIONS)

  lemma IntersectionIsTrue(x: SpecializationBits, y: SpecializationBits, a: Array, bitwidth: nat)
    requires ValidArray(a) && (TrueOf(x, a, bitwidth) || TrueOf(y, a, bitwidth))
    ensures TrueOf(Intersect(x, y), a, bitwidth)
  {
    hide DisjointUnlessOverflow, Stride16ByteDivisible;
  }

  /** The bits of one array, each set exactly under its condition. */
  ghost predicate BitsOfArray(
      r: SpecializationBits, a: Array, bitwidth: nat, inferShapeOne: bool, inferStrideOne: bool)
    requires ValidArray(a)
  {
    && DimensionBits(r, a, bitwidth, inferShapeOne, inferStrideOne,
                     if |a.shape| <= TMA_MAX_NDIM then |a.shape| else 0)
    && (r.basePtrAligned <==> a.dataPtr % 16 == 0)
    && (r.disjointElements <==> CheckPasses(a, SortAxes(a, |a.shape|)))
  }

  /** ArrayTypeConstantBuilder over a list of arrays: what is left is true of all of them, and what
      was dropped is not set for one of them. */
  method BitsOfList(arrays: seq<Array>, bitwidth: nat, inferShapeOne: bool, inferStrideOne: bool)
    returns (bits: SpecializationBits, ghost each: seq<SpecializationBits>)
    requires forall k :: 0 <= k < |arrays| ==> ValidArray(arrays[k])
    ensures forall k :: 0 <= k < |arrays| ==> TrueOf(bits, arrays[k], bitwidth)
    ensures |each| == |arrays| && bits == IntersectAll(each)
    ensures forall k :: 0 <= k < |arrays| ==> BitsOfArray(each[k], arrays[k], bitwidth, inferShapeOne, inferStrideOne)
  {
    bits, each := ALL_BITS, [];
    hide TrueOf, DimensionBits, Intersect, DisjointUnlessOverflow, SortAxes, CheckPasses;
    for n := 0 to |arrays|
      invariant |each| == n && bits == IntersectAll(each)
      invariant forall k :: 0 <= k < n ==>
                  BitsOfArray(each[k], arrays[k], bitwidth, inferShapeOne, inferStrideOne)
      invariant forall k :: 0 <= k < n ==> TrueOf(bits, arrays[k], bitwidth)
    {
      var one := ComputeBits(arrays[n], bitwidth, inferShapeOne, inferStrideOne);
      ComputedBitsAreTrue(one, arrays[n], bitwidth, inferShapeOne, inferStrideOne,
                          if |arrays[n].shape| <= TMA_MAX_NDIM then |arrays[n].shape| else 0);
      forall k | 0 <= k <= n ensures TrueOf(Intersect(bits, one), arrays[k], bitwidth) {
        IntersectionIsTrue(bits, one, arrays[k], bitwidth);
      }
      assert (each + [one])[..n] == each;
      each := each + [one];
      bits := Intersect(bits, one);
    }
  }

  function IntersectAll(each: seq<SpecializationBits>): SpecializationBits {
    if each == [] then ALL_BITS else Intersect(IntersectAll(each[..|each| - 1]), each[|each| - 1])
  }
}
