/** The constants of a launch: 64-bit words that arguments are written to, one field after the
    other without any delimiter, and that two parsers read back by the kinds of the parameters. */
module LaunchConstants {
  import opened PowersOfTwo
  import FixedWidthArithmetic

  datatype Option<T> = None | Some(value: T)

  /** Raised: a Python exception has been set. */
  datatype Result<T> = Ok(value: T) | Raised

  // ---- Words ----

  predicate IsWord(c: int) { 0 - TWO_63 <= c < TWO_63 }

  function ToSigned(u: nat): (c: int)
    requires u < TWO_64
    ensures IsWord(c)
  {
    if u < TWO_63 then u else u - TWO_64
  }

  function ToUnsigned(c: int): (u: nat)
    requires IsWord(c)
    ensures u < TWO_64
  {
    if c >= 0 then c else c + TWO_64
  }

  // ---- Arguments ----

  datatype ArrayType = ArrayType(dtype: nat, ndim: nat)

  /** The words of an array in the arena. */
  datatype Array = Array(ty: ArrayType, data: nat, shape: seq<int>, strides: seq<int>)

  /** The axes whose sizes or strides are compile-time constants; negative ones count from the end. */
  datatype Annotation = Annotation(staticShapeDims: seq<int>, staticStrideDims: seq<int>)

  datatype Category =
    | ConstantBool | ConstantInt | ConstantFloat | ConstantNone | IdentityConstant
    | ArrayParameter | PointerParameter | StreamParameter | TensorMap | Boolean | Integer | Float | ListParameter

  /** An argument that is no aggregate. Strings and foreign dtypes are objects by the time they are
      written; scalars that are no constants are not written at all. */
  datatype Leaf =
    | Bool(b: bool)
    | Int(v: int)
    | Double(bits: nat)
    | NoneObject
    | Object(address: nat)
    | ArrayLeaf(repr: Array)
    | PointerLeaf(pointee: nat)
    | ListLeaf(arrays: seq<Array>)
    | Unwritten(category: Category)

  function CategoryOf(leaf: Leaf): Category {
    match leaf
    case Bool(_) => ConstantBool
    case Int(_) => ConstantInt
    case Double(_) => ConstantFloat
    case NoneObject => ConstantNone
    case Object(_) => IdentityConstant
    case ArrayLeaf(_) => ArrayParameter
    case PointerLeaf(_) => PointerParameter
    case ListLeaf(_) => ListParameter
    case Unwritten(c) => c
  }

  predicate IsArray(a: Array) {
    && a.ty.dtype < 0x1_0000_0000 && a.ty.ndim < 0x8000_0000 && |a.shape| == |a.strides| == a.ty.ndim
    && (forall i :: 0 <= i < |a.shape| ==> IsWord(a.shape[i]))
    && (forall i :: 0 <= i < |a.strides| ==> IsWord(a.strides[i]))
  }

  predicate IsLeaf(leaf: Leaf) {
    match leaf
    case Double(bits) => bits < TWO_64
    case Object(address) => address < TWO_64
    case ArrayLeaf(a) => IsArray(a)
    case PointerLeaf(pointee) => pointee < 0x1_0000_0000
    case ListLeaf(arrays) => forall i :: 0 <= i < |arrays| ==> IsArray(arrays[i])
    case Unwritten(c) => c.StreamParameter? || c.TensorMap? || c.Boolean? || c.Integer? || c.Float?
    case _ => true
  }

  // ---- Fields ----

  const I64: int := 0
  const U64: int := 1

  function SignedInt(v: int): seq<int> { [I64, v] }

  function UnsignedInt(v: nat): seq<int>
    requires v < TWO_64
  {
    if v < TWO_63 then SignedInt(v) else [U64, ToSigned(v)]
  }

  /** extract_int_constant: a Python integer of any size. */
  function IntField(v: int): Result<seq<int>> {
    if IsWord(v) then Ok(SignedInt(v))
    else if 0 <= v < TWO_64 then Ok([U64, ToSigned(v)])
    else Raised
  }

  function PackArrayType(t: ArrayType): int
    requires t.dtype < 0x1_0000_0000 && t.ndim < 0x8000_0000
  {
    PackedFits(t);
    ToSigned(BitOr(Shl(t.ndim, 32), t.dtype))
  }

  lemma PackedFits(t: ArrayType)
    requires t.dtype < 0x1_0000_0000 && t.ndim < 0x8000_0000
    ensures BitOr(Shl(t.ndim, 32), t.dtype) == Shl(t.ndim, 32) + t.dtype < TWO_63
    ensures Pow2(32) == 0x1_0000_0000
  {
    assert Pow2(32) == 0x1_0000_0000 by { PowersUpTo32(); }
    hide Shl, Pow2, BitOr;
    BitOrDisjoint(t.ndim, 32, t.dtype);
    ShlIsProduct(t.ndim, 32);
  }

  lemma PowersUpTo32()
    ensures Pow2(32) == 0x1_0000_0000
  {
    assert Pow2(8) == 0x100;
    assert Pow2(16) == 0x1_0000;
    assert Pow2(24) == 0x100_0000;
  }

  function UnpackArrayType(c: int): ArrayType
    requires IsWord(c)
  {
    ArrayType(LowBits(ToUnsigned(c), 32), LowBits(Shr(ToUnsigned(c), 32), 32))
  }

  /** Type and rank share one word. */
  lemma ArrayTypeRoundTrip(t: ArrayType)
    requires t.dtype < 0x1_0000_0000 && t.ndim < 0x8000_0000
    ensures UnpackArrayType(PackArrayType(t)) == t
  {
    hide Shl, Shr, LowBits, Pow2, BitOr;
    PackedFits(t);
    SplitUnique(t.ndim, t.dtype, 32);
    ShlZero(32);
    SplitUnique(0, t.ndim, 32);
  }

  function NormalizeDim(dim: int, ndim: nat): (r: Result<nat>)
    ensures r.Ok? ==> r.value < ndim
  {
    var axis := if dim < 0 then dim + ndim else dim;
    if axis < 0 || axis >= ndim then Raised else Ok(axis)
  }

  /** The words of the annotated axes, in the order of the annotation. */
  function StaticValues(words: seq<int>, dims: seq<int>): Result<seq<int>> {
    if dims == [] then Ok([])
    else
      match NormalizeDim(dims[0], |words|)
      case Raised => Raised
      case Ok(axis) => Prepend([words[axis]], StaticValues(words, dims[1..]))
  }

  function Prepend(first: seq<int>, rest: Result<seq<int>>): Result<seq<int>> {
    match rest
    case Raised => Raised
    case Ok(words) => Ok(first + words)
  }

  /** What compute_array_specialization_bits returns for an array. */
  type Specializer = (Array, Annotation) -> nat

  /** is_stride_one and is_shape_one: where the common ABI puts the five bits of each field. */
  predicate StrideOne(bits: nat, axis: nat) { axis < 5 && Shr(bits, 7 + axis) % 2 == 1 }

  predicate ShapeOne(bits: nat, axis: nat) { axis < 5 && Shr(bits, 17 + axis) % 2 == 1 }

  /** Unit strides are not inferred for an array whose strides are annotated. */
  ghost predicate SpecializerOk(spec: Specializer) {
    forall a, n :: spec(a, n) < TWO_64 && (n.staticStrideDims != [] ==> NoStrideOne(spec(a, n)))
  }

  ghost predicate NoStrideOne(bits: nat) { forall axis: nat :: !StrideOne(bits, axis) }

  /** finalize(): the fields of an array, or of a list whose first array is given. */
  function ArrayFields(first: Array, bits: nat, n: Annotation): Result<seq<int>>
    requires IsArray(first) && bits < TWO_64
  {
    match StaticValues(first.shape, n.staticShapeDims)
    case Raised => Raised
    case Ok(shape) =>
      Prepend([PackArrayType(first.ty), ToSigned(bits)] + shape, StaticValues(first.strides, n.staticStrideDims))
  }

  predicate Agree(first: seq<int>, words: seq<int>, dims: seq<int>) {
    StaticValues(first, dims).Ok? && StaticValues(words, dims) == StaticValues(first, dims)
  }

  /** The arrays of a list have one type, and agree on the annotated axes. */
  predicate AllAgree(arrays: seq<Array>, n: Annotation)
    requires arrays != []
  {
    forall i :: 0 < i < |arrays| ==>
      && arrays[i].ty == arrays[0].ty
      && Agree(arrays[0].shape, arrays[i].shape, n.staticShapeDims)
      && Agree(arrays[0].strides, arrays[i].strides, n.staticStrideDims)
  }

  /** Bits that are set for every array. */
  function CommonBits(spec: Specializer, arrays: seq<Array>, n: Annotation): nat {
    if arrays == [] then TWO_64 - 1
    else FixedWidthArithmetic.BitAnd(CommonBits(spec, arrays[..|arrays| - 1], n), spec(arrays[|arrays| - 1], n))
  }

  lemma {:induction false} AndIsBelow(a: nat, b: nat)
    ensures FixedWidthArithmetic.BitAnd(a, b) <= a
  {
    if a > 0 && b > 0 {
      AndIsBelow(a / 2, b / 2);
    }
  }

  lemma {:induction false} CommonBitsFit(spec: Specializer, arrays: seq<Array>, n: Annotation)
    ensures CommonBits(spec, arrays, n) < TWO_64
  {
    if arrays != [] {
      CommonBitsFit(spec, arrays[..|arrays| - 1], n);
      AndIsBelow(CommonBits(spec, arrays[..|arrays| - 1], n), spec(arrays[|arrays| - 1], n));
    }
  }

  lemma {:induction false} BitOfAnd(a: nat, b: nat, k: nat)
    ensures Shr(FixedWidthArithmetic.BitAnd(a, b), k) % 2 == 1 ==> Shr(b, k) % 2 == 1
  {
    FixedWidthArithmetic.ShrOfAnd(a, b, k);
    hide Shr;
  }

  /** A bit that is set for the list is set for its last array. */
  lemma CommonStrideBits(spec: Specializer, arrays: seq<Array>, n: Annotation)
    requires SpecializerOk(spec) && arrays != [] && n.staticStrideDims != []
    ensures NoStrideOne(CommonBits(spec, arrays, n))
  {
    var last := spec(arrays[|arrays| - 1], n);
    var before := CommonBits(spec, arrays[..|arrays| - 1], n);
    assert NoStrideOne(last);
    forall axis: nat ensures !StrideOne(CommonBits(spec, arrays, n), axis) {
      BitOfAnd(before, last, 7 + axis);
      assert !StrideOne(last, axis);
    }
  }

  /** What the Python path writes for an argument. */
  function Written(spec: Specializer, leaf: Leaf, n: Annotation): Result<seq<int>>
    requires IsLeaf(leaf)
  {
    match leaf
    case Bool(b) => Ok([if b then 1 else 0])
    case Int(v) => IntField(v)
    case Double(bits) => Ok([ToSigned(bits)])
    case NoneObject => Ok([])
    case Object(address) => Ok([ToSigned(address)])
    case ArrayLeaf(a) => CommonBitsFit(spec, [a], n); ArrayFields(a, CommonBits(spec, [a], n), n)
    case PointerLeaf(pointee) => Ok([pointee])
    case ListLeaf(arrays) =>
      if arrays == [] || !AllAgree(arrays, n) then Raised
      else CommonBitsFit(spec, arrays, n); ArrayFields(arrays[0], CommonBits(spec, arrays, n), n)
    case Unwritten(_) => Ok([])
  }

  // ---- What can be read back ----

  datatype Constant = BoolValue(b: bool) | IntValue(v: int) | FloatValue(bits: nat) | NoneValue | ObjectValue(address: nat)

  datatype Constraint =
    | ConstantConstraint(value: Constant)
    | ArrayConstraint(ty: ArrayType, bits: nat, shape: seq<Option<int>>, strides: seq<Option<int>>)
    | ListConstraint(element: Constraint)
    | PointerConstraint(pointee: nat)
    | OtherConstraint(category: Category)
    | AggregateConstraint(aggregate: nat, items: seq<Constraint>)

  /** The constants of the axes, or None where the annotation repeats an axis. */
  function Assigned(target: seq<Option<int>>, dims: seq<int>, words: seq<int>): Result<seq<Option<int>>>
    requires |target| == |words|
    decreases |dims|
  {
    if dims == [] then Ok(target)
    else
      match NormalizeDim(dims[0], |words|)
      case Raised => Raised
      case Ok(axis) =>
        if target[axis].Some? then Raised else Assigned(target[axis := Some(words[axis])], dims[1..], words)
  }

  function NoSizes(ndim: nat): seq<Option<int>> { seq(ndim, i => None) }

  function UnitStrides(ndim: nat, bits: nat): seq<Option<int>> {
    seq(ndim, i requires 0 <= i < ndim => if StrideOne(bits, i) then Some(1) else None)
  }

  function WithUnitSizes(shape: seq<Option<int>>, bits: nat): seq<Option<int>> {
    seq(|shape|, i requires 0 <= i < |shape| => if ShapeOne(bits, i) && shape[i] == None then Some(1) else shape[i])
  }

  function ArrayMeaning(a: Array, bits: nat, n: Annotation): Result<Constraint>
    requires |a.shape| == |a.strides| == a.ty.ndim
  {
    match Assigned(NoSizes(a.ty.ndim), n.staticShapeDims, a.shape)
    case Raised => Raised
    case Ok(shape) =>
      match Assigned(UnitStrides(a.ty.ndim, bits), n.staticStrideDims, a.strides)
      case Raised => Raised
      case Ok(strides) => Ok(ArrayConstraint(a.ty, bits, WithUnitSizes(shape, bits), strides))
  }

  /** The constraint of an argument, from the argument itself. */
  function Meaning(spec: Specializer, leaf: Leaf, n: Annotation): Result<Constraint>
    requires IsLeaf(leaf)
  {
    match leaf
    case Bool(b) => Ok(ConstantConstraint(BoolValue(b)))
    case Int(v) => Ok(ConstantConstraint(IntValue(v)))
    case Double(bits) => Ok(ConstantConstraint(FloatValue(bits)))
    case NoneObject => Ok(ConstantConstraint(NoneValue))
    case Object(address) => Ok(ConstantConstraint(ObjectValue(address)))
    case ArrayLeaf(a) => ArrayMeaning(a, CommonBits(spec, [a], n), n)
    case PointerLeaf(pointee) => Ok(PointerConstraint(pointee))
    case ListLeaf(arrays) =>
      if arrays == [] then Raised
      else
        (match ArrayMeaning(arrays[0], CommonBits(spec, arrays, n), n)
         case Raised => Raised
         case Ok(element) => Ok(ListConstraint(element)))
    case Unwritten(c) => Ok(OtherConstraint(c))
  }

  // ---- Reading ----

  /** CheckFails: a CHECK has aborted the program, such as that of a cursor at its end. */
  datatype Read<T> = Parsed(value: T, rest: seq<int>) | Error | CheckFails

  predicate AreWords(cs: seq<int>) { forall i :: 0 <= i < |cs| ==> IsWord(cs[i]) }

  function ReadInt(cs: seq<int>): Read<int>
    requires AreWords(cs)
  {
    if |cs| < 2 then CheckFails
    else if cs[0] == I64 then Parsed(cs[1], cs[2..])
    else if cs[0] == U64 then Parsed(ToUnsigned(cs[1]), cs[2..])
    else CheckFails
  }

  function ReadStatic(target: seq<Option<int>>, dims: seq<int>, cs: seq<int>): Read<seq<Option<int>>>
    decreases |dims|
  {
    if dims == [] then Parsed(target, cs)
    else
      match NormalizeDim(dims[0], |target|)
      case Raised => CheckFails
      case Ok(axis) =>
        if target[axis].Some? then Error
        else if cs == [] then CheckFails
        else ReadStatic(target[axis := Some(cs[0])], dims[1..], cs[1..])
  }

  function ReadArray(n: Annotation, cs: seq<int>): Read<Constraint>
    requires AreWords(cs)
  {
    if |cs| < 2 then CheckFails
    else
      var ty, bits := UnpackArrayType(cs[0]), ToUnsigned(cs[1]);
      match ReadStatic(NoSizes(ty.ndim), n.staticShapeDims, cs[2..])
      case Error => Error
      case CheckFails => CheckFails
      case Parsed(shape, rest) =>
        match ReadStatic(UnitStrides(ty.ndim, bits), n.staticStrideDims, rest)
        case Error => Error
        case CheckFails => CheckFails
        case Parsed(strides, rest') => Parsed(ArrayConstraint(ty, bits, WithUnitSizes(shape, bits), strides), rest')
  }

  /** The object with that address among those that were written. */
  function FindObject(objects: seq<nat>, address: int): Option<nat>
    requires forall i :: 0 <= i < |objects| ==> objects[i] < TWO_64
  {
    if objects == [] then None
    else if ToSigned(objects[0]) == address then Some(objects[0])
    else FindObject(objects[1..], address)
  }

  predicate AreAddresses(objects: seq<nat>) { forall i :: 0 <= i < |objects| ==> objects[i] < TWO_64 }

  /** parse_element_constraint */
  function ReadLeaf(c: Category, n: Annotation, objects: seq<nat>, cs: seq<int>): Read<Constraint>
    requires AreWords(cs) && AreAddresses(objects)
  {
    match c
    case ConstantBool => if cs == [] then CheckFails else Parsed(ConstantConstraint(BoolValue(cs[0] != 0)), cs[1..])
    case ConstantInt =>
      (match ReadInt(cs)
       case Error => Error
       case CheckFails => CheckFails
       case Parsed(v, rest) => Parsed(ConstantConstraint(IntValue(v)), rest))
    case ConstantFloat =>
      if cs == [] then CheckFails else Parsed(ConstantConstraint(FloatValue(ToUnsigned(cs[0]))), cs[1..])
    case ConstantNone => Parsed(ConstantConstraint(NoneValue), cs)
    case IdentityConstant =>
      if cs == [] then CheckFails
      else
        (match FindObject(objects, cs[0])
         case None => CheckFails
         case Some(found) => Parsed(ConstantConstraint(ObjectValue(found)), cs[1..]))
    case ArrayParameter => ReadArray(n, cs)
    case PointerParameter => if cs == [] then CheckFails else Parsed(PointerConstraint(LowBits(ToUnsigned(cs[0]), 32)), cs[1..])
    case ListParameter =>
      (match ReadArray(n, cs)
       case Error => Error
       case CheckFails => CheckFails
       case Parsed(element, rest) => Parsed(ListConstraint(element), rest))
    case _ => Parsed(OtherConstraint(c), cs)
  }

  lemma IntRoundTrip(v: int, rest: seq<int>)
    requires AreWords(rest) && IntField(v).Ok?
    ensures AreWords(IntField(v).value + rest)
    ensures ReadInt(IntField(v).value + rest) == Parsed(v, rest)
    ensures IntField(v).value == if v < 0x8000_0000_0000_0000 then [0, v] else [1, v - 0x1_0000_0000_0000_0000]
  {
    var cs := IntField(v).value + rest;
    assert cs[2..] == rest;
  }

  /** The values are read in the order in which they were written, each for its own axis. */
  lemma {:induction false} StaticRoundTrip(target: seq<Option<int>>, words: seq<int>, dims: seq<int>, rest: seq<int>)
    requires |target| == |words| && StaticValues(words, dims).Ok?
    ensures ReadStatic(target, dims, StaticValues(words, dims).value + rest)
            == match Assigned(target, dims, words)
               case Ok(t) => Parsed(t, rest)
               case Raised => Error
    decreases |dims|
  {
    var values := StaticValues(words, dims).value;
    if dims == [] {
      assert values + rest == rest;
    } else {
      var axis := NormalizeDim(dims[0], |words|).value;
      var more := StaticValues(words, dims[1..]).value;
      assert values + rest == [words[axis]] + (more + rest);
      assert (values + rest)[1..] == more + rest;
      StaticRoundTrip(target[axis := Some(words[axis])], words, dims[1..], rest);
    }
  }

  lemma {:induction false} StaticValuesAreWords(words: seq<int>, dims: seq<int>)
    requires AreWords(words) && StaticValues(words, dims).Ok?
    ensures AreWords(StaticValues(words, dims).value)
  {
    if dims != [] {
      StaticValuesAreWords(words, dims[1..]);
    }
  }

  lemma ArrayRoundTrip(a: Array, bits: nat, n: Annotation, rest: seq<int>)
    requires IsArray(a) && bits < TWO_64 && AreWords(rest) && ArrayFields(a, bits, n).Ok?
    ensures AreWords(ArrayFields(a, bits, n).value + rest)
    ensures ReadArray(n, ArrayFields(a, bits, n).value + rest)
            == match ArrayMeaning(a, bits, n)
               case Ok(c) => Parsed(c, rest)
               case Raised => Error
  {
    hide PackArrayType, UnpackArrayType, UnitStrides, WithUnitSizes, NoSizes, StaticValues, ReadStatic, Assigned;
    var shape, strides := StaticValues(a.shape, n.staticShapeDims).value, StaticValues(a.strides, n.staticStrideDims).value;
    var cs := ArrayFields(a, bits, n).value + rest;
    assert cs == [PackArrayType(a.ty), ToSigned(bits)] + (shape + (strides + rest));
    assert cs[2..] == shape + (strides + rest);
    PackedIsWord(a.ty);
    StaticValuesAreWords(a.shape, n.staticShapeDims);
    StaticValuesAreWords(a.strides, n.staticStrideDims);
    ArrayTypeRoundTrip(a.ty);
    LengthsOfTargets(a.ty.ndim, bits);
    StaticRoundTrip(NoSizes(a.ty.ndim), a.shape, n.staticShapeDims, strides + rest);
    StaticRoundTrip(UnitStrides(a.ty.ndim, bits), a.strides, n.staticStrideDims, rest);
  }

  lemma PackedIsWord(t: ArrayType)
    requires t.dtype < 0x1_0000_0000 && t.ndim < 0x8000_0000
    ensures IsWord(PackArrayType(t))
  {
  }

  lemma LengthsOfTargets(ndim: nat, bits: nat)
    ensures |NoSizes(ndim)| == ndim && |UnitStrides(ndim, bits)| == ndim
  {
  }

  lemma {:induction false} ObjectIsFound(objects: seq<nat>, address: nat)
    requires AreAddresses(objects) && address in objects
    ensures address < TWO_64 && FindObject(objects, ToSigned(address)) == Some(address)
  {
    if objects[0] != address {
      ObjectIsFound(objects[1..], address);
    }
  }

  /** Whatever follows, the parser reads exactly the fields of the argument, and recovers it. No
      CHECK fires; the only error is an annotation that repeats an axis. */
  lemma LeafRoundTrip(spec: Specializer, leaf: Leaf, n: Annotation, objects: seq<nat>, rest: seq<int>)
    requires IsLeaf(leaf) && AreWords(rest) && AreAddresses(objects) && Written(spec, leaf, n).Ok?
    requires leaf.Object? ==> leaf.address in objects
    ensures AreWords(Written(spec, leaf, n).value + rest)
    ensures ReadLeaf(CategoryOf(leaf), n, objects, Written(spec, leaf, n).value + rest)
            == match Meaning(spec, leaf, n)
               case Ok(c) => Parsed(c, rest)
               case Raised => Error
  {
    hide CommonBits, ArrayFields, ReadArray, ArrayMeaning, ReadInt, IntField, FindObject, AllAgree, LowBits;
    var cs := Written(spec, leaf, n).value + rest;
    match leaf {
      case Int(v) => IntRoundTrip(v, rest);
      case Object(address) => ObjectIsFound(objects, address);
      case ArrayLeaf(a) =>
        CommonBitsFit(spec, [a], n);
        ArrayRoundTrip(a, CommonBits(spec, [a], n), n, rest);
      case ListLeaf(arrays) =>
        CommonBitsFit(spec, arrays, n);
        ArrayRoundTrip(arrays[0], CommonBits(spec, arrays, n), n, rest);
      case PointerLeaf(pointee) => DTypeFits(pointee);
      case _ =>
    }
  }

  lemma DTypeFits(dtype: nat)
    requires dtype < 0x1_0000_0000
    ensures LowBits(dtype, 32) == dtype
  {
    PowersUpTo32();
    hide LowBits, Shl, Pow2, Shr;
    ShlZero(32);
    SplitUnique(0, dtype, 32);
  }

  // ---- The only error: an axis that is annotated twice ----

  predicate Repeats(dims: seq<int>, ndim: nat) {
    exists i, j :: 0 <= i < j < |dims| && NormalizeDim(dims[i], ndim) == NormalizeDim(dims[j], ndim)
  }

  /** None of the axes has a value yet. */
  predicate Vacant(target: seq<Option<int>>, dims: seq<int>) {
    forall i :: 0 <= i < |dims| ==>
      match NormalizeDim(dims[i], |target|)
      case Raised => true
      case Ok(axis) => target[axis] == None
  }

  lemma {:induction false} AxesAreValid(words: seq<int>, dims: seq<int>)
    requires StaticValues(words, dims).Ok?
    ensures forall i :: 0 <= i < |dims| ==> NormalizeDim(dims[i], |words|).Ok?
  {
    if dims != [] {
      AxesAreValid(words, dims[1..]);
      forall i | 0 <= i < |dims| ensures NormalizeDim(dims[i], |words|).Ok? {
        if i > 0 {
          assert dims[1..][i - 1] == dims[i];
        }
      }
    }
  }

  lemma RepeatsSplit(dims: seq<int>, ndim: nat)
    requires dims != []
    ensures Repeats(dims, ndim) <==>
              || Repeats(dims[1..], ndim)
              || exists j :: 1 <= j < |dims| && NormalizeDim(dims[j], ndim) == NormalizeDim(dims[0], ndim)
  {
    hide NormalizeDim;
    if Repeats(dims[1..], ndim) {
      var i, j :| 0 <= i < j < |dims| - 1 && NormalizeDim(dims[1..][i], ndim) == NormalizeDim(dims[1..][j], ndim);
      assert NormalizeDim(dims[i + 1], ndim) == NormalizeDim(dims[j + 1], ndim);
    }
    if Repeats(dims, ndim) {
      var i, j :| 0 <= i < j < |dims| && NormalizeDim(dims[i], ndim) == NormalizeDim(dims[j], ndim);
      if i > 0 {
        assert NormalizeDim(dims[1..][i - 1], ndim) == NormalizeDim(dims[1..][j - 1], ndim);
      }
    }
  }

  /** After the first axis has got its value, the others are vacant if they were and are different. */
  lemma VacantAfter(target: seq<Option<int>>, dims: seq<int>, axis: nat, value: int)
    requires dims != [] && NormalizeDim(dims[0], |target|) == Ok(axis) && axis < |target|
    ensures Vacant(target, dims) ==> target[axis] == None
    ensures target[axis] == None ==>
              (Vacant(target[axis := Some(value)], dims[1..]) <==>
               Vacant(target, dims) && !exists j :: 1 <= j < |dims| && NormalizeDim(dims[j], |target|) == Ok(axis))
  {
    hide NormalizeDim;
    var after, n := target[axis := Some(value)], |target|;
    if target[axis] == None && Vacant(after, dims[1..]) {
      forall i | 0 <= i < |dims|
        ensures match NormalizeDim(dims[i], n)
                case Raised => true
                case Ok(x) => target[x] == None && (i > 0 ==> x != axis)
      {
        if i > 0 {
          assert dims[1..][i - 1] == dims[i];
        }
      }
    }
    if Vacant(target, dims) && !exists j :: 1 <= j < |dims| && NormalizeDim(dims[j], n) == Ok(axis) {
      forall i | 0 <= i < |dims| - 1
        ensures match NormalizeDim(dims[1..][i], n)
                case Raised => true
                case Ok(x) => after[x] == None
      {
        assert dims[1..][i] == dims[i + 1];
      }
    }
  }

  lemma {:induction false} AssignedIff(target: seq<Option<int>>, dims: seq<int>, words: seq<int>)
    requires |target| == |words| && StaticValues(words, dims).Ok?
    ensures Assigned(target, dims, words).Ok? <==> Vacant(target, dims) && !Repeats(dims, |target|)
    decreases |dims|
  {
    if dims != [] {
      var axis := NormalizeDim(dims[0], |words|).value;
      RepeatsSplit(dims, |words|);
      VacantAfter(target, dims, axis, words[axis]);
      if target[axis] == None {
        AssignedIff(target[axis := Some(words[axis])], dims[1..], words);
      }
    }
  }

  lemma TargetsAreVacant(ndim: nat, bits: nat, dims: seq<int>)
    ensures Vacant(NoSizes(ndim), dims)
    ensures NoStrideOne(bits) || dims == [] ==> Vacant(UnitStrides(ndim, bits), dims)
  {
    hide NormalizeDim, StrideOne;
    if NoStrideOne(bits) {
      assert forall i :: 0 <= i < ndim ==> !StrideOne(bits, i);
    }
  }

  predicate RepeatsAxis(ty: ArrayType, n: Annotation) {
    Repeats(n.staticShapeDims, ty.ndim) || Repeats(n.staticStrideDims, ty.ndim)
  }

  lemma ArrayFailsIffRepeated(a: Array, bits: nat, n: Annotation)
    requires IsArray(a) && bits < TWO_64 && ArrayFields(a, bits, n).Ok?
    requires n.staticStrideDims != [] ==> NoStrideOne(bits)
    ensures ArrayMeaning(a, bits, n) == Raised <==> RepeatsAxis(a.ty, n)
  {
    hide Repeats, Vacant, Assigned, StaticValues, NoSizes, UnitStrides, WithUnitSizes, PackArrayType, NoStrideOne;
    LengthsOfTargets(a.ty.ndim, bits);
    TargetsAreVacant(a.ty.ndim, bits, n.staticShapeDims);
    TargetsAreVacant(a.ty.ndim, bits, n.staticStrideDims);
    AssignedIff(NoSizes(a.ty.ndim), n.staticShapeDims, a.shape);
    AssignedIff(UnitStrides(a.ty.ndim, bits), n.staticStrideDims, a.strides);
  }

  /** Everything that has been written can be read back, except that reading finds an axis that is
      annotated twice. */
  lemma ReadFailsIffRepeated(spec: Specializer, leaf: Leaf, n: Annotation)
    requires IsLeaf(leaf) && SpecializerOk(spec) && Written(spec, leaf, n).Ok?
    ensures Meaning(spec, leaf, n) == Raised <==>
              match leaf
              case ArrayLeaf(a) => RepeatsAxis(a.ty, n)
              case ListLeaf(arrays) => RepeatsAxis(arrays[0].ty, n)
              case _ => false
  {
    hide CommonBits, ArrayFields, ArrayMeaning, RepeatsAxis, SpecializerOk, NoStrideOne, IntField;
    var arrays := match leaf case ArrayLeaf(a) => [a] case ListLeaf(l) => l case _ => [];
    if arrays != [] {
      CommonBitsFit(spec, arrays, n);
      if n.staticStrideDims != [] {
        CommonStrideBits(spec, arrays, n);
      }
      ArrayFailsIffRepeated(arrays[0], CommonBits(spec, arrays, n), n);
    }
  }

  // ---- All arguments ----

  datatype LeafArg = LeafArg(leaf: Leaf, annotation: Annotation)

  datatype Arg = Single(arg: LeafArg) | Aggregate(id: nat, items: seq<Arg>)

  datatype ParameterKind = Parameter(category: Category) | AggregateBegin(id: nat) | AggregateEnd

  function Leaves(args: seq<Arg>): seq<LeafArg> {
    if args == [] then [] else ArgLeaves(args[0]) + Leaves(args[1..])
  }

  function ArgLeaves(a: Arg): seq<LeafArg> {
    match a
    case Single(arg) => [arg]
    case Aggregate(_, items) => Leaves(items)
  }

  function Kinds(args: seq<Arg>): seq<ParameterKind> {
    if args == [] then [] else ArgKinds(args[0]) + Kinds(args[1..])
  }

  function ArgKinds(a: Arg): seq<ParameterKind> {
    match a
    case Single(arg) => [Parameter(CategoryOf(arg.leaf))]
    case Aggregate(id, items) => [AggregateBegin(id)] + Kinds(items) + [AggregateEnd]
  }

  function Annotations(leaves: seq<LeafArg>): seq<Annotation> {
    seq(|leaves|, i requires 0 <= i < |leaves| => leaves[i].annotation)
  }

  predicate AreLeaves(leaves: seq<LeafArg>) { forall i :: 0 <= i < |leaves| ==> IsLeaf(leaves[i].leaf) }

  /** The constants of all leaves, in order. */
  function AllWritten(spec: Specializer, leaves: seq<LeafArg>): Result<seq<int>>
    requires AreLeaves(leaves)
  {
    if leaves == [] then Ok([])
    else
      match Written(spec, leaves[0].leaf, leaves[0].annotation)
      case Raised => Raised
      case Ok(words) => Prepend(words, AllWritten(spec, leaves[1..]))
  }

  function Objects(leaves: seq<LeafArg>): seq<nat> {
    if leaves == [] then []
    else (if leaves[0].leaf.Object? then [leaves[0].leaf.address] else []) + Objects(leaves[1..])
  }

  /** The constraints of all arguments, aggregates and all. */
  function Meanings(spec: Specializer, args: seq<Arg>): Result<seq<Constraint>>
    requires AreLeaves(Leaves(args))
  {
    if args == [] then Ok([])
    else
      LeavesSplit(args);
      match ArgMeaning(spec, args[0])
      case Raised => Raised
      case Ok(c) => Precede(c, Meanings(spec, args[1..]))
  }

  function ArgMeaning(spec: Specializer, a: Arg): Result<Constraint>
    requires AreLeaves(ArgLeaves(a))
  {
    match a
    case Single(arg) =>
      assert ArgLeaves(a)[0] == arg;
      Meaning(spec, arg.leaf, arg.annotation)
    case Aggregate(id, items) =>
      match Meanings(spec, items)
      case Raised => Raised
      case Ok(cs) => Ok(AggregateConstraint(id, cs))
  }

  function Precede(c: Constraint, rest: Result<seq<Constraint>>): Result<seq<Constraint>> {
    match rest
    case Raised => Raised
    case Ok(cs) => Ok([c] + cs)
  }

  lemma LeavesSplit(args: seq<Arg>)
    requires args != [] && AreLeaves(Leaves(args))
    ensures AreLeaves(ArgLeaves(args[0])) && AreLeaves(Leaves(args[1..]))
  {
    assert Leaves(args) == ArgLeaves(args[0]) + Leaves(args[1..]);
    hide Leaves, ArgLeaves, IsLeaf;
    PartsAreLeaves(ArgLeaves(args[0]), Leaves(args[1..]));
  }

  lemma PartsAreLeaves(a: seq<LeafArg>, b: seq<LeafArg>)
    requires AreLeaves(a + b)
    ensures AreLeaves(a) && AreLeaves(b)
  {
    hide IsLeaf;
    forall i | 0 <= i < |a| ensures IsLeaf(a[i].leaf) {
      assert (a + b)[i] == a[i];
    }
    forall i | 0 <= i < |b| ensures IsLeaf(b[i].leaf) {
      assert (a + b)[|a| + i] == b[i];
    }
  }

  lemma {:induction false} WrittenSum(spec: Specializer, a: seq<LeafArg>, b: seq<LeafArg>)
    requires AreLeaves(a) && AreLeaves(b)
    ensures AreLeaves(a + b)
    ensures AllWritten(spec, a + b) == match AllWritten(spec, a)
                                       case Raised => Raised
                                       case Ok(words) => Prepend(words, AllWritten(spec, b))
  {
    hide Written, IsLeaf;
    if a == [] {
      assert a + b == b;
      PrependNothing(AllWritten(spec, b));
    } else {
      WrittenSum(spec, a[1..], b);
      assert (a + b)[1..] == a[1..] + b && (a + b)[0] == a[0];
      if Written(spec, a[0].leaf, a[0].annotation).Ok? && AllWritten(spec, a[1..]).Ok? {
        PrependTwice(Written(spec, a[0].leaf, a[0].annotation).value, AllWritten(spec, a[1..]).value, AllWritten(spec, b));
      }
    }
  }

  lemma PrependNothing(r: Result<seq<int>>)
    ensures Prepend([], r) == r
  {
    if r.Ok? {
      assert [] + r.value == r.value;
    }
  }

  lemma PrependTwice(a: seq<int>, b: seq<int>, r: Result<seq<int>>)
    ensures Prepend(a, Prepend(b, r)) == Prepend(a + b, r)
  {
    if r.Ok? {
      assert a + (b + r.value) == a + b + r.value;
    }
  }

  lemma {:induction false} AllWrittenAreWords(spec: Specializer, leaves: seq<LeafArg>)
    requires AreLeaves(leaves) && AllWritten(spec, leaves).Ok?
    ensures AreWords(AllWritten(spec, leaves).value)
  {
    hide Written, ReadLeaf, Meaning, IsLeaf;
    if leaves != [] {
      AllWrittenAreWords(spec, leaves[1..]);
      WrittenIsWords(spec, leaves[0].leaf, leaves[0].annotation);
    }
  }

  lemma WrittenIsWords(spec: Specializer, leaf: Leaf, n: Annotation)
    requires IsLeaf(leaf) && Written(spec, leaf, n).Ok?
    ensures AreWords(Written(spec, leaf, n).value)
  {
    var words := Written(spec, leaf, n).value;
    hide Written, Meaning, ReadLeaf;
    var objects := if leaf.Object? then [leaf.address] else [];
    assert AreAddresses(objects);
    LeafRoundTrip(spec, leaf, n, objects, []);
    assert words + [] == words;
  }

  /** Every object among the arguments is written as one. */
  lemma {:induction false} ObjectsAreWritten(leaves: seq<LeafArg>)
    ensures Covers(Objects(leaves), leaves)
    ensures AreLeaves(leaves) ==> AreAddresses(Objects(leaves))
  {
    if leaves != [] {
      var rest := leaves[1..];
      ObjectsAreWritten(rest);
      if AreLeaves(leaves) {
        PartsAreLeaves([leaves[0]], rest);
        assert leaves == [leaves[0]] + rest && IsLeaf(leaves[0].leaf);
      }
      forall i | 0 <= i < |leaves| && leaves[i].leaf.Object? ensures leaves[i].leaf.address in Objects(leaves) {
        if i > 0 {
          assert rest[i - 1] == leaves[i];
        }
      }
    }
  }

  predicate Covers(objects: seq<nat>, leaves: seq<LeafArg>) {
    forall i :: 0 <= i < |leaves| && leaves[i].leaf.Object? ==> leaves[i].leaf.address in objects
  }

  lemma WrittenStep(spec: Specializer, leaves: seq<LeafArg>)
    requires AreLeaves(leaves) && leaves != []
    ensures AreLeaves(leaves[1..]) && IsLeaf(leaves[0].leaf)
    ensures AllWritten(spec, leaves) == match Written(spec, leaves[0].leaf, leaves[0].annotation)
                                        case Raised => Raised
                                        case Ok(words) => Prepend(words, AllWritten(spec, leaves[1..]))
    ensures Objects(leaves)
            == (if leaves[0].leaf.Object? then [leaves[0].leaf.address] else []) + Objects(leaves[1..])
  {
    hide Written, IsLeaf;
  }

  /** The words of a launch determine the constraints that its kernel is compiled for: a cached
      kernel is never launched with arguments that its signature does not fit. */
  lemma {:induction false} EqualConstantsMeanTheSame(spec: Specializer, x: seq<LeafArg>, y: seq<LeafArg>)
    requires AreLeaves(x) && AreLeaves(y) && |x| == |y|
    requires forall i :: 0 <= i < |x| ==>
               CategoryOf(x[i].leaf) == CategoryOf(y[i].leaf) && x[i].annotation == y[i].annotation
    requires AllWritten(spec, x).Ok? && AllWritten(spec, x) == AllWritten(spec, y)
    requires forall i :: 0 <= i < |x| ==> Meaning(spec, x[i].leaf, x[i].annotation).Ok?
    requires forall i :: 0 <= i < |y| ==> Meaning(spec, y[i].leaf, y[i].annotation).Ok?
    ensures forall i :: 0 <= i < |x| ==>
              Meaning(spec, x[i].leaf, x[i].annotation) == Meaning(spec, y[i].leaf, y[i].annotation)
  {
    if x != [] {
      hide Written, Meaning, ReadLeaf, IsLeaf, CategoryOf, FindObject;
      SameFirst(spec, x[0].leaf, y[0].leaf, x[0].annotation,
                AllWritten(spec, x[1..]).value, AllWritten(spec, y[1..]).value) by {
        AllWrittenAreWords(spec, x[1..]);
        AllWrittenAreWords(spec, y[1..]);
      }
      EqualConstantsMeanTheSame(spec, x[1..], y[1..]);
      forall i | 0 <= i < |x|
        ensures Meaning(spec, x[i].leaf, x[i].annotation) == Meaning(spec, y[i].leaf, y[i].annotation)
      {
        if i > 0 {
          assert x[1..][i - 1] == x[i] && y[1..][i - 1] == y[i];
        }
      }
    }
  }

  lemma SameFirst(spec: Specializer, x: Leaf, y: Leaf, n: Annotation, restX: seq<int>, restY: seq<int>)
    requires IsLeaf(x) && IsLeaf(y) && CategoryOf(x) == CategoryOf(y) && AreWords(restX) && AreWords(restY)
    requires Written(spec, x, n).Ok? && Written(spec, y, n).Ok? && Meaning(spec, x, n).Ok? && Meaning(spec, y, n).Ok?
    requires Written(spec, x, n).value + restX == Written(spec, y, n).value + restY
    ensures Meaning(spec, x, n) == Meaning(spec, y, n) && restX == restY
  {
    var objects := (if x.Object? then [x.address] else []) + (if y.Object? then [y.address] else []);
    assert AreAddresses(objects);
    hide Written, Meaning, ReadLeaf, FindObject;
    LeafRoundTrip(spec, x, n, objects, restX);
    LeafRoundTrip(spec, y, n, objects, restY);
  }

  // ---- Compiled host code ----

  /** What a launch site keeps of an argument. */
  datatype NativeArgument =
    NativeArgument(category: Category, ty: ArrayType, pointee: nat, isUnsigned: bool, address: nat)

  const NO_ARRAY := ArrayType(0, 0)

  /** skip_static_axis_values */
  function SkipStatic(dims: seq<int>, ndim: nat, cs: seq<int>): Read<()>
    decreases |dims|
  {
    if dims == [] then Parsed((), cs)
    else if NormalizeDim(dims[0], ndim) == Raised then Error
    else if cs == [] then CheckFails
    else SkipStatic(dims[1..], ndim, cs[1..])
  }

  /** parse_native_leaf_argument. unsignedSource: whether the integer that the host passes is
      unsigned, or None if it has no integer dtype. */
  function ReadNative(c: Category, n: Annotation, unsignedSource: Option<bool>, objects: seq<nat>, cs: seq<int>)
    : Read<NativeArgument>
    requires AreWords(cs) && AreAddresses(objects)
  {
    match c
    case IdentityConstant =>
      if cs == [] then CheckFails
      else
        (match FindObject(objects, cs[0])
         case None => CheckFails
         case Some(found) => Parsed(NativeArgument(c, NO_ARRAY, 0, false, found), cs[1..]))
    case ArrayParameter =>
      if |cs| < 2 then CheckFails
      else
        var ty := UnpackArrayType(cs[0]);
        (match SkipStatic(n.staticShapeDims, ty.ndim, cs[2..])
         case Error => Error
         case CheckFails => CheckFails
         case Parsed(_, rest) =>
           match SkipStatic(n.staticStrideDims, ty.ndim, rest)
           case Error => Error
           case CheckFails => CheckFails
           case Parsed(_, rest') => Parsed(NativeArgument(c, ty, 0, false, 0), rest'))
    case PointerParameter =>
      if cs == [] then CheckFails
      else Parsed(NativeArgument(c, NO_ARRAY, LowBits(ToUnsigned(cs[0]), 32), false, 0), cs[1..])
    case StreamParameter => Error
    case ListParameter => Error
    case ConstantBool => if cs == [] then CheckFails else Parsed(NativeArgument(c, NO_ARRAY, 0, false, 0), cs[1..])
    case ConstantFloat => if cs == [] then CheckFails else Parsed(NativeArgument(c, NO_ARRAY, 0, false, 0), cs[1..])
    case ConstantInt =>
      (match ReadInt(cs)
       case Error => Error
       case CheckFails => CheckFails
       case Parsed(_, rest) =>
         if unsignedSource == None then Error
         else Parsed(NativeArgument(c, NO_ARRAY, 0, unsignedSource.value, 0), rest))
    case Integer =>
      if unsignedSource == None then Error else Parsed(NativeArgument(c, NO_ARRAY, 0, unsignedSource.value, 0), cs)
    case _ => Parsed(NativeArgument(c, NO_ARRAY, 0, false, 0), cs)
  }

  /** What of an argument a launch site keeps, from the argument itself. */
  function Kept(leaf: Leaf, unsignedSource: Option<bool>): Result<NativeArgument> {
    var c := CategoryOf(leaf);
    if c.StreamParameter? || c.ListParameter? || ((c.ConstantInt? || c.Integer?) && unsignedSource == None) then Raised
    else
      Ok(NativeArgument(
           c, if leaf.ArrayLeaf? then leaf.repr.ty else NO_ARRAY, if leaf.PointerLeaf? then leaf.pointee else 0,
           (c.ConstantInt? || c.Integer?) && unsignedSource.value, if leaf.Object? then leaf.address else 0))
  }

  lemma {:induction false} SkipsWhatWasWritten(words: seq<int>, dims: seq<int>, rest: seq<int>)
    requires StaticValues(words, dims).Ok?
    ensures SkipStatic(dims, |words|, StaticValues(words, dims).value + rest) == Parsed((), rest)
    decreases |dims|
  {
    var values := StaticValues(words, dims).value;
    if dims == [] {
      assert values + rest == rest;
    } else {
      var axis := NormalizeDim(dims[0], |words|).value;
      var more := StaticValues(words, dims[1..]).value;
      assert values + rest == [words[axis]] + (more + rest);
      assert (values + rest)[1..] == more + rest;
      SkipsWhatWasWritten(words, dims[1..], rest);
    }
  }

  lemma NativeArrayRoundTrip(a: Array, bits: nat, n: Annotation, objects: seq<nat>, rest: seq<int>)
    requires IsArray(a) && bits < TWO_64 && AreWords(rest) && AreAddresses(objects) && ArrayFields(a, bits, n).Ok?
    ensures AreWords(ArrayFields(a, bits, n).value + rest)
    ensures ReadNative(ArrayParameter, n, None, objects, ArrayFields(a, bits, n).value + rest)
            == Parsed(NativeArgument(ArrayParameter, a.ty, 0, false, 0), rest)
  {
    hide PackArrayType, UnpackArrayType, ArrayMeaning, ReadArray, StaticValues, SkipStatic;
    ArrayRoundTrip(a, bits, n, rest);
    var shape, strides := StaticValues(a.shape, n.staticShapeDims).value, StaticValues(a.strides, n.staticStrideDims).value;
    var cs := ArrayFields(a, bits, n).value + rest;
    assert cs == [PackArrayType(a.ty), ToSigned(bits)] + (shape + (strides + rest));
    assert cs[2..] == shape + (strides + rest);
    ArrayTypeRoundTrip(a.ty);
    SkipsWhatWasWritten(a.shape, n.staticShapeDims, strides + rest);
    SkipsWhatWasWritten(a.strides, n.staticStrideDims, rest);
  }

  /** The second parser reads exactly the fields of the argument, too. */
  lemma NativeRoundTrip(
      spec: Specializer, leaf: Leaf, n: Annotation, unsignedSource: Option<bool>, objects: seq<nat>, rest: seq<int>)
    requires IsLeaf(leaf) && AreWords(rest) && AreAddresses(objects) && Written(spec, leaf, n).Ok?
    requires leaf.Object? ==> leaf.address in objects
    ensures AreWords(Written(spec, leaf, n).value + rest)
    ensures ReadNative(CategoryOf(leaf), n, unsignedSource, objects, Written(spec, leaf, n).value + rest)
            == match Kept(leaf, unsignedSource)
               case Ok(argument) => Parsed(argument, rest)
               case Raised => Error
  {
    hide CommonBits, ArrayFields, ReadLeaf, Meaning, ReadInt, IntField, FindObject, UnpackArrayType, SkipStatic, AllAgree,
      LowBits, ToSigned;
    LeafRoundTrip(spec, leaf, n, objects, rest);
    match leaf {
      case Int(v) => IntRoundTrip(v, rest);
      case Object(address) => ObjectIsFound(objects, address);
      case ArrayLeaf(a) =>
        CommonBitsFit(spec, [a], n);
        NativeArrayRoundTrip(a, CommonBits(spec, [a], n), n, objects, rest);
      case PointerLeaf(pointee) => DTypeFits(pointee);
      case _ =>
    }
  }

  /** What compiled host code writes for the value that it has at run time. */
  function NativeWritten(spec: Specializer, argument: NativeArgument, value: Leaf, n: Annotation): Result<seq<int>>
    requires IsLeaf(value) && Passes(argument, value)
  {
    match argument.category
    case IdentityConstant => Ok([ToSigned(argument.address)])
    case ArrayParameter =>
      var a := value.repr.(ty := argument.ty);
      CommonBitsFit(spec, [a], n); ArrayFields(a, CommonBits(spec, [a], n), n)
    case PointerParameter => Ok([argument.pointee])
    case ConstantBool => Ok([if value.b then 1 else 0])
    case ConstantInt => Ok(if argument.isUnsigned then UnsignedInt(value.v) else SignedInt(value.v))
    case ConstantFloat => Ok([ToSigned(value.bits)])
    case _ => Ok([])
  }

  /** The value is one that the host can pass for the argument: of its kind, its rank and its integer
      type. Only the dtype and rank of arrays, pointees and objects are fixed at the launch site. */
  predicate Passes(argument: NativeArgument, value: Leaf) {
    && argument.category == CategoryOf(value) && argument.address < TWO_64
    && (value.ArrayLeaf? ==> value.repr.ty == argument.ty)
    && (value.Int? ==> if argument.isUnsigned then 0 <= value.v < TWO_64 else IsWord(value.v))
    && !value.ListLeaf?
  }

  /** A value that the source stood for when the launch site was made: objects and pointees are those
      of the source. */
  predicate StandsFor(source: Leaf, argument: NativeArgument, value: Leaf) {
    Passes(argument, value) && (value.Object? || value.PointerLeaf? ==> value == source)
  }

  /** The Python path and compiled host code write the same words for equal arguments, so that they
      find the same kernel. */
  lemma BothPathsWriteTheSame(
      spec: Specializer, source: Leaf, unsignedSource: Option<bool>, value: Leaf, n: Annotation)
    requires IsLeaf(source) && IsLeaf(value) && Kept(source, unsignedSource).Ok?
    requires StandsFor(source, Kept(source, unsignedSource).value, value)
    ensures Passes(Kept(source, unsignedSource).value, value)
    ensures NativeWritten(spec, Kept(source, unsignedSource).value, value, n) == Written(spec, value, n)
  {
    hide CommonBits, ArrayFields;
  }

  // ---- Steps of the parsers ----

  /** What comes next is what this leaf has written. */
  lemma NextLeaf(spec: Specializer, leaves: seq<LeafArg>, objects: seq<nat>, words: seq<int>)
    requires AreLeaves(leaves) && leaves != [] && AllWritten(spec, leaves).Ok?
    requires AreWords(words) && AreAddresses(objects) && Covers(objects, leaves)
    ensures AreLeaves(leaves[1..]) && IsLeaf(leaves[0].leaf) && AllWritten(spec, leaves[1..]).Ok?
    ensures Covers(objects, leaves[1..])
    ensures AreWords(AllWritten(spec, leaves).value + words)
    ensures var rest := AllWritten(spec, leaves[1..]).value + words;
            ReadLeaf(CategoryOf(leaves[0].leaf), leaves[0].annotation, objects, AllWritten(spec, leaves).value + words)
            == match Meaning(spec, leaves[0].leaf, leaves[0].annotation)
               case Ok(c) => Parsed(c, rest)
               case Raised => Error
  {
    hide Written, Meaning, ReadLeaf, IsLeaf, CategoryOf;
    var first := leaves[0];
    var written := Written(spec, first.leaf, first.annotation).value;
    var rest := AllWritten(spec, leaves[1..]).value + words;
    AllWrittenAreWords(spec, leaves[1..]);
    assert AllWritten(spec, leaves).value + words == written + rest;
    RestIsCovered(objects, leaves);
    LeafRoundTrip(spec, first.leaf, first.annotation, objects, rest);
  }

  lemma RestIsCovered(objects: seq<nat>, leaves: seq<LeafArg>)
    requires leaves != [] && Covers(objects, leaves)
    ensures Covers(objects, leaves[1..]) && (leaves[0].leaf.Object? ==> leaves[0].leaf.address in objects)
  {
  }

  lemma CoversParts(objects: seq<nat>, a: seq<LeafArg>, b: seq<LeafArg>)
    requires Covers(objects, a + b)
    ensures Covers(objects, a) && Covers(objects, b)
  {
    forall i | 0 <= i < |a| && a[i].leaf.Object? ensures a[i].leaf.address in objects {
      assert (a + b)[i] == a[i];
    }
    forall i | 0 <= i < |b| && b[i].leaf.Object? ensures b[i].leaf.address in objects {
      assert (a + b)[|a| + i] == b[i];
    }
  }

  lemma AnnotationsSum(a: seq<LeafArg>, b: seq<LeafArg>)
    ensures Annotations(a + b) == Annotations(a) + Annotations(b)
  {
  }

  /** The three streams that the arguments have ahead of them, and then what follows. */
  ghost predicate Ahead(
      spec: Specializer, args: seq<Arg>, objects: seq<nat>, constants: seq<int>, kinds: seq<ParameterKind>,
      annotations: seq<Annotation>, after: After)
  {
    && AreLeaves(Leaves(args)) && AllWritten(spec, Leaves(args)).Ok?
    && AreWords(after.words) && AreAddresses(objects) && Covers(objects, Leaves(args))
    && constants == AllWritten(spec, Leaves(args)).value + after.words
    && kinds == Kinds(args) + after.kinds
    && annotations == Annotations(Leaves(args)) + after.annotations
  }

  datatype After = After(words: seq<int>, kinds: seq<ParameterKind>, annotations: seq<Annotation>)

  /** What follows the first argument. */
  ghost function Behind(spec: Specializer, args: seq<Arg>, after: After): After
    requires args != [] && AreLeaves(Leaves(args)) && AllWritten(spec, Leaves(args)).Ok?
  {
    FirstOfArgs(spec, args);
    After(AllWritten(spec, Leaves(args[1..])).value + after.words, Kinds(args[1..]) + after.kinds,
          Annotations(Leaves(args[1..])) + after.annotations)
  }

  lemma FirstOfArgs(spec: Specializer, args: seq<Arg>)
    requires args != [] && AreLeaves(Leaves(args)) && AllWritten(spec, Leaves(args)).Ok?
    ensures AreLeaves(ArgLeaves(args[0])) && AreLeaves(Leaves(args[1..]))
    ensures AllWritten(spec, ArgLeaves(args[0])).Ok? && AllWritten(spec, Leaves(args[1..])).Ok?
    ensures AllWritten(spec, Leaves(args)).value
            == AllWritten(spec, ArgLeaves(args[0])).value + AllWritten(spec, Leaves(args[1..])).value
    ensures Leaves(args) == ArgLeaves(args[0]) + Leaves(args[1..])
  {
    LeavesSplit(args);
    assert Leaves(args) == ArgLeaves(args[0]) + Leaves(args[1..]);
    hide Leaves, ArgLeaves, IsLeaf, AllWritten;
    WrittenSum(spec, ArgLeaves(args[0]), Leaves(args[1..]));
  }

  /** A single argument: its constants, its kind and its annotation come first. */
  lemma AheadOfSingle(
      spec: Specializer, args: seq<Arg>, objects: seq<nat>, constants: seq<int>, kinds: seq<ParameterKind>,
      annotations: seq<Annotation>, after: After)
    requires args != [] && args[0].Single? && Ahead(spec, args, objects, constants, kinds, annotations, after)
    ensures AreLeaves(ArgLeaves(args[0])) && AreLeaves(Leaves(args[1..])) && AllWritten(spec, Leaves(args[1..])).Ok?
    ensures kinds != [] && kinds[0] == Parameter(CategoryOf(args[0].arg.leaf))
    ensures annotations != [] && annotations[0] == args[0].arg.annotation
    ensures AreWords(constants) && AreAddresses(objects)
    ensures var rest := AllWritten(spec, Leaves(args[1..])).value + after.words;
            && ReadLeaf(CategoryOf(args[0].arg.leaf), args[0].arg.annotation, objects, constants)
               == (match ArgMeaning(spec, args[0])
                   case Ok(c) => Parsed(c, rest)
                   case Raised => Error)
            && Ahead(spec, args[1..], objects, rest, kinds[1..], annotations[1..], after)
  {
    hide IsLeaf, Meaning, ReadLeaf, AllWritten, CategoryOf, Leaves, Kinds, Annotations, Covers, AreLeaves, AreWords,
      AreAddresses, ArgLeaves;
    var first, rest := args[0].arg, args[1..];
    FirstOfArgs(spec, args);
    SingleLeaf(args);
    NextLeaf(spec, Leaves(args), objects, after.words);
    MeaningOfSingle(spec, args[0]);
    assert kinds == [Parameter(CategoryOf(first.leaf))] + (Kinds(rest) + after.kinds);
    assert annotations == [first.annotation] + (Annotations(Leaves(rest)) + after.annotations);
  }

  lemma MeaningOfSingle(spec: Specializer, a: Arg)
    requires a.Single? && AreLeaves(ArgLeaves(a))
    ensures IsLeaf(a.arg.leaf) && ArgMeaning(spec, a) == Meaning(spec, a.arg.leaf, a.arg.annotation)
  {
    hide Meaning, IsLeaf;
    assert ArgLeaves(a)[0] == a.arg;
  }

  lemma SingleLeaf(args: seq<Arg>)
    requires args != [] && args[0].Single?
    ensures Leaves(args) != [] && Leaves(args)[0] == args[0].arg && Leaves(args)[1..] == Leaves(args[1..])
    ensures ArgLeaves(args[0]) == [args[0].arg]
    ensures Kinds(args) == [Parameter(CategoryOf(args[0].arg.leaf))] + Kinds(args[1..])
    ensures Annotations(Leaves(args)) == [args[0].arg.annotation] + Annotations(Leaves(args[1..]))
  {
    hide CategoryOf;
    AnnotationsSum([args[0].arg], Leaves(args[1..]));
  }

  /** An aggregate: what is inside comes first, then its end, and then the other arguments. */
  lemma AheadOfAggregate(
      spec: Specializer, args: seq<Arg>, objects: seq<nat>, constants: seq<int>, kinds: seq<ParameterKind>,
      annotations: seq<Annotation>, after: After)
    requires args != [] && args[0].Aggregate? && Ahead(spec, args, objects, constants, kinds, annotations, after)
    ensures AreLeaves(Leaves(args)) && AllWritten(spec, Leaves(args)).Ok?
    ensures AreLeaves(ArgLeaves(args[0]))
    ensures kinds != [] && kinds[0] == AggregateBegin(args[0].id)
    ensures var behind := Behind(spec, args, after);
            Ahead(spec, args[0].items, objects, constants, kinds[1..], annotations,
                  behind.(kinds := [AggregateEnd] + behind.kinds))
  {
    hide IsLeaf, AllWritten, Leaves, Kinds, Annotations, Covers, AreLeaves, AreAddresses, AreWords;
    var items, rest := args[0].items, args[1..];
    FirstOfArgs(spec, args);
    InsideOf(args[0]);
    AllWrittenAreWords(spec, Leaves(rest));
    WordsSum(AllWritten(spec, Leaves(rest)).value, after.words);
    CoversParts(objects, Leaves(items), Leaves(rest));
    AnnotationsSum(Leaves(items), Leaves(rest));
    AggregateKinds(args);
    Regroup(AllWritten(spec, Leaves(items)).value, AllWritten(spec, Leaves(rest)).value, after.words);
    Regroup(Annotations(Leaves(items)), Annotations(Leaves(rest)), after.annotations);
    KindsRegrouped(AggregateBegin(args[0].id), Kinds(items), Kinds(rest), after.kinds);
  }

  lemma InsideOf(a: Arg)
    requires a.Aggregate?
    ensures ArgLeaves(a) == Leaves(a.items)
  {
  }

  lemma WordsSum(a: seq<int>, b: seq<int>)
    requires AreWords(a) && AreWords(b)
    ensures AreWords(a + b)
  {
  }

  lemma Regroup<T>(a: seq<T>, b: seq<T>, c: seq<T>)
    ensures (a + b) + c == a + (b + c)
  {
  }

  lemma KindsRegrouped(
      begin: ParameterKind, items: seq<ParameterKind>, rest: seq<ParameterKind>, more: seq<ParameterKind>)
    ensures var kinds := [begin] + (items + ([AggregateEnd] + rest)) + more;
            kinds[0] == begin && kinds[1..] == items + ([AggregateEnd] + (rest + more))
  {
  }

  lemma AggregateKinds(args: seq<Arg>)
    requires args != [] && args[0].Aggregate?
    ensures Kinds(args) == [AggregateBegin(args[0].id)] + (Kinds(args[0].items) + ([AggregateEnd] + Kinds(args[1..])))
  {
  }

  /** When the inside of an aggregate has been read, the other arguments are ahead. */
  lemma AheadOfRest(
      spec: Specializer, args: seq<Arg>, objects: seq<nat>, after: After)
    requires args != [] && AreLeaves(Leaves(args)) && AllWritten(spec, Leaves(args)).Ok?
    requires AreWords(after.words) && AreAddresses(objects) && Covers(objects, Leaves(args))
    ensures AreLeaves(Leaves(args[1..]))
    ensures var behind := Behind(spec, args, after);
            Ahead(spec, args[1..], objects, behind.words, behind.kinds, behind.annotations, after)
  {
    hide IsLeaf, AllWritten;
    FirstOfArgs(spec, args);
    CoversParts(objects, ArgLeaves(args[0]), Leaves(args[1..]));
  }

  lemma AheadOfNothing(
      spec: Specializer, objects: seq<nat>, constants: seq<int>, kinds: seq<ParameterKind>,
      annotations: seq<Annotation>, after: After)
    requires Ahead(spec, [], objects, constants, kinds, annotations, after)
    ensures constants == after.words && kinds == after.kinds && annotations == after.annotations
  {
  }

  /** The end of an aggregate is where its items end. */
  lemma KindsStart(args: seq<Arg>, more: seq<ParameterKind>)
    requires more != [] && more[0] == AggregateEnd
    ensures Kinds(args) + more != [] && ((Kinds(args) + more)[0] == AggregateEnd <==> args == [])
  {
  }

  /** How deep the recursion can go. */
  ghost function Size(args: seq<Arg>): nat {
    if args == [] then 0 else ArgSize(args[0]) + Size(args[1..])
  }

  ghost function ArgSize(a: Arg): nat {
    match a
    case Single(_) => 1
    case Aggregate(_, items) => 1 + Size(items)
  }

  // ---- Steps of the second parser ----

  /** The kinds without those of aggregates. */
  function PlainKinds(kinds: seq<ParameterKind>): seq<Category> {
    if kinds == [] then []
    else (if kinds[0].Parameter? then [kinds[0].category] else []) + PlainKinds(kinds[1..])
  }

  function Categories(leaves: seq<LeafArg>): seq<Category> {
    seq(|leaves|, i requires 0 <= i < |leaves| => CategoryOf(leaves[i].leaf))
  }

  lemma {:induction false} PlainKindsSum(a: seq<ParameterKind>, b: seq<ParameterKind>)
    ensures PlainKinds(a + b) == PlainKinds(a) + PlainKinds(b)
  {
    if a == [] {
      assert a + b == b;
    } else {
      PlainKindsSum(a[1..], b);
      assert (a + b)[1..] == a[1..] + b && (a + b)[0] == a[0];
    }
  }

  lemma CategoriesSum(a: seq<LeafArg>, b: seq<LeafArg>)
    ensures Categories(a + b) == Categories(a) + Categories(b)
  {
    hide CategoryOf;
  }

  /** Leaving out the aggregates leaves the kinds of the leaves, in their order. */
  lemma {:induction false} KindsOfLeaves(args: seq<Arg>)
    ensures PlainKinds(Kinds(args)) == Categories(Leaves(args))
    decreases Size(args), 1
  {
    hide PlainKinds, Categories, CategoryOf, ArgKinds, ArgLeaves;
    if args == [] {
      NoKinds();
    } else {
      KindsOfArg(args[0]);
      KindsOfLeaves(args[1..]);
      PlainKindsSum(ArgKinds(args[0]), Kinds(args[1..]));
      CategoriesSum(ArgLeaves(args[0]), Leaves(args[1..]));
    }
  }

  lemma {:induction false} KindsOfArg(a: Arg)
    ensures PlainKinds(ArgKinds(a)) == Categories(ArgLeaves(a))
    decreases ArgSize(a), 0
  {
    hide CategoryOf;
    match a {
      case Single(_) =>
      case Aggregate(id, items) =>
        KindsOfLeaves(items);
        hide Categories, Leaves, Kinds;
        PlainKindsSum([AggregateBegin(id)] + Kinds(items), [AggregateEnd]);
        PlainKindsSum([AggregateBegin(id)], Kinds(items));
        KindsWithoutCategory(AggregateBegin(id));
        KindsWithoutCategory(AggregateEnd);
    }
  }

  lemma KindsWithoutCategory(k: ParameterKind)
    ensures !k.Parameter? ==> PlainKinds([k]) == []
  {
  }

  lemma NoKinds()
    ensures PlainKinds([]) == [] && Categories([]) == []
  {
  }

  /** What a launch site keeps of all its arguments. */
  function AllKept(leaves: seq<LeafArg>, sources: seq<Option<bool>>): Result<seq<NativeArgument>>
    requires |sources| == |leaves|
  {
    if leaves == [] then Ok([])
    else
      match Kept(leaves[0].leaf, sources[0])
      case Raised => Raised
      case Ok(argument) =>
        match AllKept(leaves[1..], sources[1..])
        case Raised => Raised
        case Ok(rest) => Ok([argument] + rest)
  }

  function JoinedArguments(parsed: seq<NativeArgument>, rest: Result<seq<NativeArgument>>): Result<seq<NativeArgument>> {
    match rest
    case Raised => Raised
    case Ok(arguments) => Ok(parsed + arguments)
  }

  lemma KeptOneMore(parsed: seq<NativeArgument>, leaves: seq<LeafArg>, sources: seq<Option<bool>>)
    requires |sources| == |leaves| && leaves != []
    ensures JoinedArguments(parsed, AllKept(leaves, sources))
            == match Kept(leaves[0].leaf, sources[0])
               case Raised => Raised
               case Ok(argument) => JoinedArguments(parsed + [argument], AllKept(leaves[1..], sources[1..]))
  {
    hide Kept;
    if Kept(leaves[0].leaf, sources[0]).Ok? && AllKept(leaves[1..], sources[1..]).Ok? {
      Regroup(parsed, [Kept(leaves[0].leaf, sources[0]).value], AllKept(leaves[1..], sources[1..]).value);
    }
  }

  /** What comes next is what this leaf has written, for the second parser. */
  lemma NextNative(spec: Specializer, leaves: seq<LeafArg>, unsignedSource: Option<bool>, objects: seq<nat>)
    requires AreLeaves(leaves) && leaves != [] && AllWritten(spec, leaves).Ok?
    requires AreAddresses(objects) && Covers(objects, leaves)
    ensures AreLeaves(leaves[1..]) && AllWritten(spec, leaves[1..]).Ok? && Covers(objects, leaves[1..])
    ensures AreWords(AllWritten(spec, leaves).value)
    ensures ReadNative(CategoryOf(leaves[0].leaf), leaves[0].annotation, unsignedSource, objects,
                       AllWritten(spec, leaves).value)
            == match Kept(leaves[0].leaf, unsignedSource)
               case Ok(argument) => Parsed(argument, AllWritten(spec, leaves[1..]).value)
               case Raised => Error
  {
    hide Written, ReadNative, IsLeaf, CategoryOf, Kept;
    var first := leaves[0];
    AllWrittenAreWords(spec, leaves[1..]);
    RestIsCovered(objects, leaves);
    NativeRoundTrip(spec, first.leaf, first.annotation, unsignedSource, objects, AllWritten(spec, leaves[1..]).value);
  }
}
