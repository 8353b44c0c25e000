/** What the constraint of an array argument claims, and that every array it was made for has it:
    the specialization bits of ArraySpecialization, packed into the word that LaunchConstants
    writes and reads. */
module LaunchSpecialization {
  import opened PowersOfTwo
  import opened LaunchConstants
  import FixedWidthArithmetic
  import S = ArraySpecialization

  // ---- Flags in a word ----

  /** Flags as the bits of a word, the first one lowest. */
  function WordOf(flags: seq<bool>): nat {
    if flags == [] then 0 else (if flags[0] then 1 else 0) + 2 * WordOf(flags[1..])
  }

  lemma {:induction false} BitOfWord(flags: seq<bool>, k: nat)
    ensures Shr(WordOf(flags), k) % 2 == 1 <==> k < |flags| && flags[k]
  {
    if flags == [] {
      ShrOfZero(k);
    } else {
      HalfOfWord(flags);
      hide WordOf;
      if k > 0 {
        BitOfWord(flags[1..], k - 1);
      }
    }
  }

  lemma HalfOfWord(flags: seq<bool>)
    requires flags != []
    ensures WordOf(flags) / 2 == WordOf(flags[1..]) && (WordOf(flags) % 2 == 1 <==> flags[0])
  {
  }

  lemma {:induction false} ShrOfZero(k: nat)
    ensures Shr(0, k) == 0
  {
    if k > 0 {
      ShrOfZero(k - 1);
    }
  }

  function Both(x: seq<bool>, y: seq<bool>): seq<bool>
    requires |x| == |y|
  {
    seq(|x|, i requires 0 <= i < |x| => x[i] && y[i])
  }

  lemma {:induction false} AndOfWords(x: seq<bool>, y: seq<bool>)
    requires |x| == |y|
    ensures FixedWidthArithmetic.BitAnd(WordOf(x), WordOf(y)) == WordOf(Both(x, y))
  {
    if x != [] {
      AndOfWords(x[1..], y[1..]);
      assert Both(x, y)[1..] == Both(x[1..], y[1..]);
      AndStep(x[0], WordOf(x[1..]), y[0], WordOf(y[1..]));
    }
  }

  lemma AndStep(a: bool, x: nat, b: bool, y: nat)
    ensures FixedWidthArithmetic.BitAnd((if a then 1 else 0) + 2 * x, (if b then 1 else 0) + 2 * y)
            == (if a && b then 1 else 0) + 2 * FixedWidthArithmetic.BitAnd(x, y)
  {
  }

  lemma {:induction false} AndOfAllOnes(x: seq<bool>, n: nat)
    requires |x| <= n
    ensures FixedWidthArithmetic.BitAnd(Pow2(n) - 1, WordOf(x)) == WordOf(x) < Pow2(n)
  {
    if x != [] {
      AndOfAllOnes(x[1..], n - 1);
      AndStep(true, Pow2(n - 1) - 1, x[0], WordOf(x[1..]));
    }
  }

  // ---- The word of the specialization bits ----

  function Axes(s: set<nat>): seq<bool> { seq(S.TMA_MAX_NDIM, i requires 0 <= i < S.TMA_MAX_NDIM => i in s) }

  /** The bit fields in the order of their declaration. */
  function Flags(b: S.SpecializationBits): seq<bool> {
    [b.basePtrAligned, b.disjointElements] + Axes(b.stride16ByteDivisible) + Axes(b.strideOne)
    + Axes(b.shapeDivisibleBy16) + Axes(b.shapeOne)
  }

  function Pack(b: S.SpecializationBits): nat { WordOf(Flags(b)) }

  lemma FlagPositions(b: S.SpecializationBits)
    ensures |Flags(b)| == 22 && Flags(b)[0] == b.basePtrAligned && Flags(b)[1] == b.disjointElements
    ensures forall i :: 0 <= i < 5 ==>
              && (Flags(b)[2 + i] <==> i in b.stride16ByteDivisible)
              && (Flags(b)[7 + i] <==> i in b.strideOne)
              && (Flags(b)[12 + i] <==> i in b.shapeDivisibleBy16)
              && (Flags(b)[17 + i] <==> i in b.shapeOne)
  {
  }

  /** Where each bit is, as the common ABI lays out the fields of the union. */
  lemma PackedBits(b: S.SpecializationBits, i: nat)
    requires i < 5
    ensures Pack(b) < Pow2(22)
    ensures Pack(b) % 2 == 1 <==> b.basePtrAligned
    ensures Shr(Pack(b), 1) % 2 == 1 <==> b.disjointElements
    ensures Shr(Pack(b), 2 + i) % 2 == 1 <==> i in b.stride16ByteDivisible
    ensures Shr(Pack(b), 7 + i) % 2 == 1 <==> i in b.strideOne
    ensures Shr(Pack(b), 12 + i) % 2 == 1 <==> i in b.shapeDivisibleBy16
    ensures Shr(Pack(b), 17 + i) % 2 == 1 <==> i in b.shapeOne
  {
    hide Flags, WordOf, Shr, Pow2;
    FlagPositions(b);
    AndOfAllOnes(Flags(b), 22);
    BitOfWord(Flags(b), 0);
    BitOfWord(Flags(b), 1);
    BitOfWord(Flags(b), 2 + i);
    BitOfWord(Flags(b), 7 + i);
    BitOfWord(Flags(b), 12 + i);
    BitOfWord(Flags(b), 17 + i);
    ShrBy0(Pack(b));
  }

  lemma ShrBy0(x: nat)
    ensures Shr(x, 0) == x
  {
  }

  /** The parser's questions about the word are questions about the sets. */
  lemma UnitBits(b: S.SpecializationBits, i: nat)
    ensures StrideOne(Pack(b), i) <==> i < 5 && i in b.strideOne
    ensures ShapeOne(Pack(b), i) <==> i < 5 && i in b.shapeOne
  {
    hide Pack, Shr;
    if i < 5 {
      PackedBits(b, i);
    }
  }

  lemma PackFits(b: S.SpecializationBits)
    ensures Pack(b) < TWO_64
    ensures FixedWidthArithmetic.BitAnd(TWO_64 - 1, Pack(b)) == Pack(b)
  {
    hide Flags, WordOf, Pow2;
    FlagPositions(b);
    Pow2Of63And64();
    AndOfAllOnes(Flags(b), 64);
  }

  lemma BothFlags(x: S.SpecializationBits, y: S.SpecializationBits)
    ensures |Flags(x)| == |Flags(y)| && Both(Flags(x), Flags(y)) == Flags(S.Intersect(x, y))
  {
  }

  lemma PackOfIntersection(x: S.SpecializationBits, y: S.SpecializationBits)
    ensures FixedWidthArithmetic.BitAnd(Pack(x), Pack(y)) == Pack(S.Intersect(x, y))
  {
    hide Flags, WordOf, Both, S.Intersect;
    BothFlags(x, y);
    AndOfWords(Flags(x), Flags(y));
  }

  // ---- The bits of an array ----

  function Repr(a: Array): S.Array { S.Array(a.data, a.shape, a.strides) }

  /** No bits for the axes of an array with more than five. */
  function TrackedAxes(a: Array): nat { if |a.shape| <= 5 then |a.shape| else 0 }

  /** bitwidth: of the array's dtype. canShape: can_specialize_for_shape. */
  function BitsOf(a: Array, n: Annotation, bitwidth: nat, canShape: bool): S.SpecializationBits
    requires |a.shape| == |a.strides|
  {
    S.SpecializationBits(
      a.data % 16 == 0,
      S.CheckPasses(Repr(a), S.SortAxes(Repr(a), |a.shape|)),
      set i: nat | i < TrackedAxes(a) && S.Stride16ByteDivisible(a.strides[i], bitwidth),
      set i: nat | i < TrackedAxes(a) && n.staticStrideDims == [] && a.strides[i] == 1,
      set i: nat | i < TrackedAxes(a) && S.ShapeDivisibleBy16(a.shape[i], bitwidth),
      set i: nat | i < TrackedAxes(a) && n.staticShapeDims == [] && canShape && a.shape[i] == 1)
  }

  function WordFor(a: Array, n: Annotation, bitwidths: nat -> nat, canShape: bool): nat {
    if |a.shape| == |a.strides| then Pack(BitsOf(a, n, bitwidths(a.ty.dtype), canShape)) else 0
  }

  function SpecializerOf(bitwidths: nat -> nat, canShape: bool): Specializer {
    (a: Array, n: Annotation) => WordFor(a, n, bitwidths, canShape)
  }

  /** compute_array_specialization_bits(...).u64 */
  method Specialize(a: Array, n: Annotation, bitwidths: nat -> nat, canShape: bool) returns (word: nat)
    requires |a.shape| == |a.strides|
    ensures word == SpecializerOf(bitwidths, canShape)(a, n)
  {
    var bits := S.ComputeBits(
      Repr(a), bitwidths(a.ty.dtype), n.staticShapeDims == [] && canShape, n.staticStrideDims == []);
    ComputedBits(bits, a, n, bitwidths(a.ty.dtype), canShape);
    hide Pack, BitsOf;
    word := Pack(bits);
  }

  lemma ComputedBits(r: S.SpecializationBits, a: Array, n: Annotation, bitwidth: nat, canShape: bool)
    requires |a.shape| == |a.strides|
    requires S.DimensionBits(r, Repr(a), bitwidth, n.staticShapeDims == [] && canShape, n.staticStrideDims == [],
                             TrackedAxes(a))
    requires r.basePtrAligned <==> a.data % 16 == 0
    requires r.disjointElements <==> S.CheckPasses(Repr(a), S.SortAxes(Repr(a), |a.shape|))
    ensures r == BitsOf(a, n, bitwidth, canShape)
  {
    hide S.Stride16ByteDivisible, S.ShapeDivisibleBy16, S.CheckPasses, S.SortAxes;
  }

  lemma SpecializerIsOk(bitwidths: nat -> nat, canShape: bool)
    ensures SpecializerOk(SpecializerOf(bitwidths, canShape))
  {
    hide Pack, StrideOne, NoStrideOne;
    ShrOfZero(0);
    forall a: Array, n: Annotation
      ensures var word := SpecializerOf(bitwidths, canShape)(a, n);
              word < TWO_64 && (n.staticStrideDims != [] ==> NoStrideOne(word))
    {
      if |a.shape| == |a.strides| {
        var b := BitsOf(a, n, bitwidths(a.ty.dtype), canShape);
        PackFits(b);
        if n.staticStrideDims != [] {
          assert b.strideOne == {};
          NoUnitStrides(b);
        }
      } else {
        NoBitsInZero();
      }
    }
  }

  lemma NoUnitStrides(b: S.SpecializationBits)
    requires b.strideOne == {}
    ensures NoStrideOne(Pack(b))
  {
    hide Pack, StrideOne;
    forall axis: nat ensures !StrideOne(Pack(b), axis) {
      UnitBits(b, axis);
    }
  }

  lemma NoBitsInZero()
    ensures NoStrideOne(0)
  {
    forall axis: nat ensures !StrideOne(0, axis) {
      ShrOfZero(7 + axis);
    }
  }

  // ---- The bits of a list ----

  predicate AreArrays(arrays: seq<Array>) {
    arrays != [] && forall k :: 0 <= k < |arrays| ==> IsArray(arrays[k]) && arrays[k].ty == arrays[0].ty
  }

  /** What is set for all arrays of a list. */
  function CommonOf(arrays: seq<Array>, n: Annotation, bitwidth: nat, canShape: bool): S.SpecializationBits
    requires AreArrays(arrays)
  {
    var last := |arrays| - 1;
    var bits := BitsOf(arrays[last], n, bitwidth, canShape);
    if last == 0 then bits else S.Intersect(CommonOf(arrays[..last], n, bitwidth, canShape), bits)
  }

  lemma {:induction false} CommonBitsArePacked(
      arrays: seq<Array>, n: Annotation, bitwidths: nat -> nat, canShape: bool)
    requires AreArrays(arrays)
    ensures CommonBits(SpecializerOf(bitwidths, canShape), arrays, n)
            == Pack(CommonOf(arrays, n, bitwidths(arrays[0].ty.dtype), canShape))
  {
    hide Pack, BitsOf, S.Intersect;
    var spec, last, bitwidth := SpecializerOf(bitwidths, canShape), |arrays| - 1, bitwidths(arrays[0].ty.dtype);
    var bits := BitsOf(arrays[last], n, bitwidth, canShape);
    if last == 0 {
      assert arrays[..0] == [];
      PackFits(bits);
    } else {
      CommonBitsArePacked(arrays[..last], n, bitwidths, canShape);
      PackOfIntersection(CommonOf(arrays[..last], n, bitwidth, canShape), bits);
    }
  }

  /** A common bit is a bit of each array, and the other way round. */
  lemma {:induction false} CommonUnits(arrays: seq<Array>, n: Annotation, bitwidth: nat, canShape: bool, i: nat)
    requires AreArrays(arrays)
    ensures i in CommonOf(arrays, n, bitwidth, canShape).strideOne <==>
              i < 5 && i < arrays[0].ty.ndim <= 5 && n.staticStrideDims == []
              && forall k :: 0 <= k < |arrays| ==> arrays[k].strides[i] == 1
    ensures i in CommonOf(arrays, n, bitwidth, canShape).shapeOne <==>
              i < 5 && i < arrays[0].ty.ndim <= 5 && n.staticShapeDims == [] && canShape
              && forall k :: 0 <= k < |arrays| ==> arrays[k].shape[i] == 1
  {
    hide S.Stride16ByteDivisible, S.ShapeDivisibleBy16, S.CheckPasses, S.SortAxes;
    var last := |arrays| - 1;
    if last > 0 {
      CommonUnits(arrays[..last], n, bitwidth, canShape, i);
    }
  }

  lemma {:induction false} CommonIsTrue(arrays: seq<Array>, n: Annotation, bitwidth: nat, canShape: bool, k: nat)
    requires AreArrays(arrays) && k < |arrays|
    ensures S.TrueOf(CommonOf(arrays, n, bitwidth, canShape), Repr(arrays[k]), bitwidth)
  {
    hide S.TrueOf, BitsOf, S.Intersect;
    var last := |arrays| - 1;
    if k == last {
      BitsAreTrue(arrays[last], n, bitwidth, canShape);
    }
    if last > 0 {
      if k < last {
        CommonIsTrue(arrays[..last], n, bitwidth, canShape, k);
      }
      S.IntersectionIsTrue(CommonOf(arrays[..last], n, bitwidth, canShape),
                           BitsOf(arrays[last], n, bitwidth, canShape), Repr(arrays[k]), bitwidth);
    }
  }

  lemma BitsAreTrue(a: Array, n: Annotation, bitwidth: nat, canShape: bool)
    requires |a.shape| == |a.strides|
    ensures S.TrueOf(BitsOf(a, n, bitwidth, canShape), Repr(a), bitwidth)
  {
    hide S.Stride16ByteDivisible, S.CheckPasses, S.SortAxes, S.DisjointUnlessOverflow;
    S.PassedIsDisjoint(Repr(a));
  }

  // ---- The constants of a constraint ----

  /** The annotation lists the axis, counted from the start or from the end. */
  predicate Annotated(dims: seq<int>, ndim: nat, i: nat) {
    exists k :: 0 <= k < |dims| && (dims[k] == i || dims[k] == i - ndim)
  }

  lemma AnnotatedSplit(dims: seq<int>, ndim: nat, i: nat)
    requires dims != [] && i < ndim
    ensures Annotated(dims, ndim, i) <==> NormalizeDim(dims[0], ndim) == Ok(i) || Annotated(dims[1..], ndim, i)
  {
    if Annotated(dims[1..], ndim, i) {
      var k :| 0 <= k < |dims[1..]| && (dims[1..][k] == i || dims[1..][k] == i - ndim);
      assert dims[k + 1] == dims[1..][k];
    }
    if Annotated(dims, ndim, i) && NormalizeDim(dims[0], ndim) != Ok(i) {
      var k :| 0 <= k < |dims| && (dims[k] == i || dims[k] == i - ndim);
      assert dims[1..][k - 1] == dims[k];
    }
  }

  /** An annotated axis has its own word, the others have what they had. */
  lemma {:induction false} AssignedAxes(target: seq<Option<int>>, dims: seq<int>, words: seq<int>, i: nat)
    requires |target| == |words| && Assigned(target, dims, words).Ok? && i < |words|
    ensures |Assigned(target, dims, words).value| == |words|
    ensures Assigned(target, dims, words).value[i]
            == if Annotated(dims, |words|, i) then Some(words[i]) else target[i]
    decreases |dims|
  {
    if dims != [] {
      var axis := NormalizeDim(dims[0], |words|).value;
      AssignedAxes(target[axis := Some(words[axis])], dims[1..], words, i);
      AnnotatedSplit(dims, |words|, i);
    }
  }

  /** Arrays that agree have the same words at the annotated axes. */
  lemma {:induction false} AgreementMeans(first: seq<int>, words: seq<int>, dims: seq<int>, i: nat)
    requires |first| == |words| && Agree(first, words, dims) && i < |words| && Annotated(dims, |words|, i)
    ensures first[i] == words[i]
  {
    AnnotatedSplit(dims, |words|, i);
    var axis := NormalizeDim(dims[0], |words|).value;
    var x, y := StaticValues(first, dims[1..]).value, StaticValues(words, dims[1..]).value;
    assert ([first[axis]] + x)[0] == first[axis] && ([words[axis]] + y)[0] == words[axis];
    assert ([first[axis]] + x)[1..] == x && ([words[axis]] + y)[1..] == y;
    if axis != i {
      AgreementMeans(first, words, dims[1..], i);
    }
  }

  /** A constant is inferred for an axis of size one, or of stride one, in all arrays. */
  predicate AllSizesOne(arrays: seq<Array>, i: nat)
    requires AreArrays(arrays) && i < arrays[0].ty.ndim
  {
    forall k :: 0 <= k < |arrays| ==> arrays[k].shape[i] == 1
  }

  predicate AllStridesOne(arrays: seq<Array>, i: nat)
    requires AreArrays(arrays) && i < arrays[0].ty.ndim
  {
    forall k :: 0 <= k < |arrays| ==> arrays[k].strides[i] == 1
  }

  /** Each constant is the size or stride of every array, and these are the axes that have one. */
  ghost predicate ConstantsAreTrue(c: Constraint, arrays: seq<Array>, n: Annotation, canShape: bool)
    requires AreArrays(arrays)
  {
    var ndim := arrays[0].ty.ndim;
    && c.ArrayConstraint? && c.ty == arrays[0].ty && |c.shape| == |c.strides| == ndim
    && (forall i, k :: 0 <= i < ndim && 0 <= k < |arrays| && c.shape[i].Some? ==>
          c.shape[i].value == arrays[k].shape[i])
    && (forall i, k :: 0 <= i < ndim && 0 <= k < |arrays| && c.strides[i].Some? ==>
          c.strides[i].value == arrays[k].strides[i])
    && (forall i :: 0 <= i < ndim ==>
          (c.shape[i].Some? <==>
             Annotated(n.staticShapeDims, ndim, i)
             || (n.staticShapeDims == [] && canShape && ndim <= 5 && AllSizesOne(arrays, i))))
    && (forall i :: 0 <= i < ndim ==>
          (c.strides[i].Some? <==>
             Annotated(n.staticStrideDims, ndim, i)
             || (n.staticStrideDims == [] && ndim <= 5 && AllStridesOne(arrays, i))))
  }

  /** The other claims of the constraint, by the word of bits: set bits are true of every array. */
  ghost predicate BitsAreTrueOfAll(word: nat, arrays: seq<Array>, bitwidth: nat)
    requires AreArrays(arrays)
  {
    exists b :: word == Pack(b) && forall k :: 0 <= k < |arrays| ==> S.TrueOf(b, Repr(arrays[k]), bitwidth)
  }

  lemma ShapeConstants(arrays: seq<Array>, n: Annotation, bitwidths: nat -> nat, canShape: bool, i: nat)
    requires AreArrays(arrays) && AllAgree(arrays, n) && i < arrays[0].ty.ndim
    requires Assigned(NoSizes(arrays[0].ty.ndim), n.staticShapeDims, arrays[0].shape).Ok?
    ensures var ndim, bits := arrays[0].ty.ndim, CommonBits(SpecializerOf(bitwidths, canShape), arrays, n);
            var shape := WithUnitSizes(Assigned(NoSizes(ndim), n.staticShapeDims, arrays[0].shape).value, bits);
            && |shape| == ndim
            && (shape[i].Some? ==> forall k :: 0 <= k < |arrays| ==> arrays[k].shape[i] == shape[i].value)
            && (shape[i].Some? <==> Annotated(n.staticShapeDims, ndim, i)
                                    || (n.staticShapeDims == [] && canShape && ndim <= 5 && AllSizesOne(arrays, i)))
  {
    hide CommonBits, CommonOf, Pack, ShapeOne, Annotated, Agree, Assigned;
    var ndim, bitwidth := arrays[0].ty.ndim, bitwidths(arrays[0].ty.dtype);
    AssignedAxes(NoSizes(ndim), n.staticShapeDims, arrays[0].shape, i);
    CommonBitsArePacked(arrays, n, bitwidths, canShape);
    UnitBits(CommonOf(arrays, n, bitwidth, canShape), i);
    CommonUnits(arrays, n, bitwidth, canShape, i);
    if Annotated(n.staticShapeDims, ndim, i) {
      forall k | 0 < k < |arrays| ensures arrays[k].shape[i] == arrays[0].shape[i] {
        AgreementMeans(arrays[0].shape, arrays[k].shape, n.staticShapeDims, i);
      }
    }
  }

  lemma StrideConstants(arrays: seq<Array>, n: Annotation, bitwidths: nat -> nat, canShape: bool, i: nat)
    requires AreArrays(arrays) && AllAgree(arrays, n) && i < arrays[0].ty.ndim
    requires var bits := CommonBits(SpecializerOf(bitwidths, canShape), arrays, n);
             Assigned(UnitStrides(arrays[0].ty.ndim, bits), n.staticStrideDims, arrays[0].strides).Ok?
    ensures var ndim, bits := arrays[0].ty.ndim, CommonBits(SpecializerOf(bitwidths, canShape), arrays, n);
            var strides := Assigned(UnitStrides(ndim, bits), n.staticStrideDims, arrays[0].strides).value;
            && |strides| == ndim
            && (strides[i].Some? ==> forall k :: 0 <= k < |arrays| ==> arrays[k].strides[i] == strides[i].value)
            && (strides[i].Some? <==> Annotated(n.staticStrideDims, ndim, i)
                                      || (n.staticStrideDims == [] && ndim <= 5 && AllStridesOne(arrays, i)))
  {
    hide CommonBits, CommonOf, Pack, StrideOne, Annotated, Agree, Assigned;
    var ndim, bitwidth := arrays[0].ty.ndim, bitwidths(arrays[0].ty.dtype);
    var bits := CommonBits(SpecializerOf(bitwidths, canShape), arrays, n);
    AssignedAxes(UnitStrides(ndim, bits), n.staticStrideDims, arrays[0].strides, i);
    CommonBitsArePacked(arrays, n, bitwidths, canShape);
    UnitBits(CommonOf(arrays, n, bitwidth, canShape), i);
    CommonUnits(arrays, n, bitwidth, canShape, i);
    if Annotated(n.staticStrideDims, ndim, i) {
      forall k | 0 < k < |arrays| ensures arrays[k].strides[i] == arrays[0].strides[i] {
        AgreementMeans(arrays[0].strides, arrays[k].strides, n.staticStrideDims, i);
      }
    }
  }

  /** The constraint that a kernel is compiled for holds for every array of the list. */
  lemma ArrayConstraintIsTrue(
      arrays: seq<Array>, n: Annotation, bitwidths: nat -> nat, canShape: bool, c: Constraint)
    requires AreArrays(arrays) && AllAgree(arrays, n)
    requires ArrayMeaning(arrays[0], CommonBits(SpecializerOf(bitwidths, canShape), arrays, n), n) == Ok(c)
    ensures ConstantsAreTrue(c, arrays, n, canShape)
    ensures BitsAreTrueOfAll(c.bits, arrays, bitwidths(arrays[0].ty.dtype))
  {
    hide CommonBits, CommonOf, Pack, StrideOne, ShapeOne, Annotated, Agree, Assigned, WithUnitSizes, UnitStrides,
         AllSizesOne, AllStridesOne, S.TrueOf;
    var ndim := arrays[0].ty.ndim;
    ConstraintSizes(arrays[0], CommonBits(SpecializerOf(bitwidths, canShape), arrays, n), n, c);
    forall i | 0 <= i < ndim
      ensures c.shape[i].Some? ==> forall k :: 0 <= k < |arrays| ==> c.shape[i].value == arrays[k].shape[i]
      ensures c.shape[i].Some? <==> Annotated(n.staticShapeDims, ndim, i)
                                    || (n.staticShapeDims == [] && canShape && ndim <= 5 && AllSizesOne(arrays, i))
    {
      ShapeConstants(arrays, n, bitwidths, canShape, i);
    }
    forall i | 0 <= i < ndim
      ensures c.strides[i].Some? ==> forall k :: 0 <= k < |arrays| ==> c.strides[i].value == arrays[k].strides[i]
      ensures c.strides[i].Some? <==> Annotated(n.staticStrideDims, ndim, i)
                                      || (n.staticStrideDims == [] && ndim <= 5 && AllStridesOne(arrays, i))
    {
      StrideConstants(arrays, n, bitwidths, canShape, i);
    }
    CommonBitsArePacked(arrays, n, bitwidths, canShape);
    forall k | 0 <= k < |arrays|
      ensures S.TrueOf(CommonOf(arrays, n, bitwidths(arrays[0].ty.dtype), canShape), Repr(arrays[k]),
                       bitwidths(arrays[0].ty.dtype))
    {
      CommonIsTrue(arrays, n, bitwidths(arrays[0].ty.dtype), canShape, k);
    }
  }

  lemma ConstraintSizes(a: Array, bits: nat, n: Annotation, c: Constraint)
    requires IsArray(a) && ArrayMeaning(a, bits, n) == Ok(c)
    ensures c.ArrayConstraint? && c.ty == a.ty && |c.shape| == |c.strides| == a.ty.ndim && c.bits == bits
  {
    hide Assigned, StrideOne, ShapeOne;
    AssignedSize(NoSizes(a.ty.ndim), n.staticShapeDims, a.shape);
    AssignedSize(UnitStrides(a.ty.ndim, bits), n.staticStrideDims, a.strides);
  }

  lemma {:induction false} AssignedSize(target: seq<Option<int>>, dims: seq<int>, words: seq<int>)
    requires |target| == |words| && Assigned(target, dims, words).Ok?
    ensures |Assigned(target, dims, words).value| == |words|
    decreases |dims|
  {
    if dims != [] {
      var axis := NormalizeDim(dims[0], |words|).value;
      AssignedSize(target[axis := Some(words[axis])], dims[1..], words);
    }
  }

  // ---- The other claims of a constraint ----

  /** What a stride whose bit is set is divisible by, in elements. */
  function StrideDivisor(bitwidth: nat): (d: nat)
    ensures d > 0
  {
    if bitwidth > 0 && 128 % bitwidth == 0 then
      FixedWidthArithmetic.Quotient(128, bitwidth);
      AtLeastOne(bitwidth, 128 / bitwidth);
      128 / bitwidth
    else 1
  }

  lemma AtLeastOne(b: int, q: int)
    requires b > 0 && b * q > 0
    ensures q > 0
  {
  }

  lemma StrideIsDivisible(stride: int, bitwidth: nat)
    requires S.Stride16ByteDivisible(stride, bitwidth)
    ensures stride % StrideDivisor(bitwidth) == 0
  {
    if bitwidth > 0 && 128 % bitwidth == 0 {
      var d, q := StrideDivisor(bitwidth), stride * bitwidth / 128;
      FixedWidthArithmetic.Quotient(128, bitwidth);
      FixedWidthArithmetic.Quotient(stride * bitwidth, 128);
      assert bitwidth * stride == bitwidth * (d * q) by { Reorder(bitwidth, d, q, stride); }
      CancelFactor(bitwidth, stride, d * q);
      FixedWidthArithmetic.QuotientIsUnique(stride, d, q, 0);
    }
  }

  lemma Reorder(b: int, d: int, q: int, s: int)
    requires b * d == 128 && s * b == 128 * q
    ensures b * s == b * (d * q)
  {
    Associate3(b, d, q);
  }

  lemma Associate3(b: int, d: int, q: int)
    ensures b * (d * q) == (b * d) * q
  {
  }

  lemma CancelFactor(b: int, x: int, y: int)
    requires b > 0 && b * x == b * y
    ensures x == y
  {
  }

  /** What the bits of the word claim holds for every array: the address, the layout, and the
      divisors of strides and sizes. */
  lemma ClaimsAreTrue(word: nat, arrays: seq<Array>, bitwidth: nat, k: nat, i: nat)
    requires AreArrays(arrays) && BitsAreTrueOfAll(word, arrays, bitwidth)
    requires k < |arrays| && i < arrays[k].ty.ndim && i < 5
    ensures word % 2 == 1 ==> arrays[k].data % 16 == 0
    ensures Shr(word, 1) % 2 == 1 ==> S.DisjointUnlessOverflow(Repr(arrays[k]))
    ensures Shr(word, 2 + i) % 2 == 1 ==> arrays[k].strides[i] % StrideDivisor(bitwidth) == 0
    ensures Shr(word, 12 + i) % 2 == 1 ==> arrays[k].shape[i] % 16 == 0
  {
    hide Pack, Shr, S.Stride16ByteDivisible, S.DisjointUnlessOverflow, StrideDivisor;
    var b :| word == Pack(b) && forall j :: 0 <= j < |arrays| ==> S.TrueOf(b, Repr(arrays[j]), bitwidth);
    PackedBits(b, i);
    assert S.TrueOf(b, Repr(arrays[k]), bitwidth);
    if i in b.stride16ByteDivisible {
      StrideIsDivisible(arrays[k].strides[i], bitwidth);
    }
  }

  // ---- All arguments ----

  /** What a constraint claims of the leaf that it was made for. */
  ghost predicate TrueOfLeaf(c: Constraint, leaf: Leaf, n: Annotation, bitwidths: nat -> nat, canShape: bool) {
    match leaf
    case Bool(b) => c == ConstantConstraint(BoolValue(b))
    case Int(v) => c == ConstantConstraint(IntValue(v))
    case Double(bits) => c == ConstantConstraint(FloatValue(bits))
    case NoneObject => c == ConstantConstraint(NoneValue)
    case Object(address) => c == ConstantConstraint(ObjectValue(address))
    case ArrayLeaf(a) => AreArrays([a]) && TrueOfArrays(c, [a], n, bitwidths, canShape)
    case PointerLeaf(pointee) => c == PointerConstraint(pointee)
    case ListLeaf(arrays) =>
      AreArrays(arrays) && c.ListConstraint? && TrueOfArrays(c.element, arrays, n, bitwidths, canShape)
    case Unwritten(category) => c == OtherConstraint(category)
  }

  ghost predicate TrueOfArrays(c: Constraint, arrays: seq<Array>, n: Annotation, bitwidths: nat -> nat, canShape: bool)
    requires AreArrays(arrays)
  {
    ConstantsAreTrue(c, arrays, n, canShape) && BitsAreTrueOfAll(c.bits, arrays, bitwidths(arrays[0].ty.dtype))
  }

  lemma LeafConstraintIsTrue(c: Constraint, leaf: Leaf, n: Annotation, bitwidths: nat -> nat, canShape: bool)
    requires IsLeaf(leaf) && Written(SpecializerOf(bitwidths, canShape), leaf, n).Ok?
    requires Meaning(SpecializerOf(bitwidths, canShape), leaf, n) == Ok(c)
    ensures TrueOfLeaf(c, leaf, n, bitwidths, canShape)
  {
    hide ArrayMeaning, ArrayFields, CommonBits, IntField, ConstantsAreTrue, BitsAreTrueOfAll, IsArray;
    match leaf {
      case ArrayLeaf(a) => ArrayConstraintIsTrue([a], n, bitwidths, canShape, c);
      case ListLeaf(arrays) => ArrayConstraintIsTrue(arrays, n, bitwidths, canShape, c.element);
      case _ =>
    }
  }

  /** The constraints have the shape of the arguments, and each is true of its leaf. */
  ghost predicate TrueOfArgs(cs: seq<Constraint>, args: seq<Arg>, bitwidths: nat -> nat, canShape: bool) {
    |cs| == |args| && forall i :: 0 <= i < |args| ==> TrueOfArg(cs[i], args[i], bitwidths, canShape)
  }

  ghost predicate TrueOfArg(c: Constraint, a: Arg, bitwidths: nat -> nat, canShape: bool) {
    match a
    case Single(arg) => TrueOfLeaf(c, arg.leaf, arg.annotation, bitwidths, canShape)
    case Aggregate(id, items) =>
      c.AggregateConstraint? && c.aggregate == id && TrueOfArgs(c.items, items, bitwidths, canShape)
  }

  /** Whatever a kernel is compiled for, by the launcher's own bits, holds for the arguments. */
  lemma {:induction false} SignatureIsTrue(
      args: seq<Arg>, cs: seq<Constraint>, bitwidths: nat -> nat, canShape: bool)
    requires AreLeaves(Leaves(args)) && AllWritten(SpecializerOf(bitwidths, canShape), Leaves(args)).Ok?
    requires Meanings(SpecializerOf(bitwidths, canShape), args) == Ok(cs)
    ensures TrueOfArgs(cs, args, bitwidths, canShape)
  {
    hide TrueOfLeaf, TrueOfArg, Written, Meaning;
    if args != [] {
      var spec := SpecializerOf(bitwidths, canShape);
      LeavesSplit(args);
      WrittenSum(spec, ArgLeaves(args[0]), Leaves(args[1..]));
      ArgConstraintIsTrue(args[0], cs[0], bitwidths, canShape);
      SignatureIsTrue(args[1..], cs[1..], bitwidths, canShape);
      forall i | 0 <= i < |args| ensures TrueOfArg(cs[i], args[i], bitwidths, canShape) {
        assert i > 0 ==> cs[i] == cs[1..][i - 1] && args[i] == args[1..][i - 1];
      }
    }
  }

  lemma {:induction false} ArgConstraintIsTrue(a: Arg, c: Constraint, bitwidths: nat -> nat, canShape: bool)
    requires AreLeaves(ArgLeaves(a)) && AllWritten(SpecializerOf(bitwidths, canShape), ArgLeaves(a)).Ok?
    requires ArgMeaning(SpecializerOf(bitwidths, canShape), a) == Ok(c)
    ensures TrueOfArg(c, a, bitwidths, canShape)
  {
    hide TrueOfLeaf, Written, Meaning;
    match a {
      case Single(arg) => LeafConstraintIsTrue(c, arg.leaf, arg.annotation, bitwidths, canShape);
      case Aggregate(id, items) => SignatureIsTrue(items, c.items, bitwidths, canShape);
    }
  }
}
