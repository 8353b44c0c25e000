/** The keys of the launch cache: the bytes that describe the arguments of a launch. */
module LaunchKeys {
  import opened PowersOfTwo
  import FixedWidthArithmetic

  // ---- Descriptions ----

  datatype Kind = Bool | Int | Float | Other

  /** A tensor, as far as a kernel is specialized for it; lowBit is the lowest bit of its address. */
  datatype Tensor = Tensor(
    code: nat, bits: nat, lanes: nat, ndim: nat, lowBit: nat, dims: seq<(nat, nat)>)

  /** The words of a number are those of a 64-bit integer or of a double. */
  datatype Description =
    | Number(kind: Kind, word: nat)
    | Scalar(kind: Kind)
    | Array(tensor: Tensor)

  function KindByte(k: Kind): nat {
    match k
    case Bool => 1
    case Int => 2
    case Float => 3
    case Other => 4
  }

  predicate ValidTensor(t: Tensor) {
    && t.code < Pow2(8) && t.bits < Pow2(8) && t.lanes < Pow2(16) && t.ndim < Pow2(32) && t.lowBit < Pow2(64)
    && |t.dims| == t.ndim
    && forall i :: 0 <= i < |t.dims| ==> t.dims[i].0 < Pow2(64) && t.dims[i].1 < Pow2(64)
  }

  /** What describe() can find out about an argument, given whether the kernel takes it as a
      compile-time constant. */
  predicate ValidDescription(d: Description, constant: bool) {
    match d
    case Number(kind, word) => constant && !kind.Other? && word < Pow2(64)
    case Scalar(kind) => !constant && !kind.Other?
    case Array(t) => !constant && ValidTensor(t)
  }

  // ---- Encoding ----

  /** The value of a field of n bytes, in the byte order of a little-endian machine. */
  function Field(v: nat, n: nat): (r: seq<nat>)
    ensures |r| == n
  {
    if n == 0 then [] else [v % 256] + Field(v / 256, n - 1)
  }

  function EncodeDims(dims: seq<(nat, nat)>): seq<nat> {
    if dims == [] then [] else Field(dims[0].0, 8) + (Field(dims[0].1, 8) + EncodeDims(dims[1..]))
  }

  function EncodeTensor(t: Tensor): seq<nat> {
    Field(t.code, 1) + (Field(t.bits, 1) + (Field(t.lanes, 2) + (Field(t.ndim, 4)
    + (Field(t.lowBit, 8) + EncodeDims(t.dims)))))
  }

  function Encode(d: Description): seq<nat> {
    match d
    case Number(kind, word) => Field(KindByte(kind), 1) + Field(word, 8)
    case Scalar(kind) => Field(KindByte(kind), 1)
    case Array(t) => Field(KindByte(Other), 1) + EncodeTensor(t)
  }

  function EncodeAll(ds: seq<Description>): seq<nat> {
    if ds == [] then [] else Encode(ds[0]) + EncodeAll(ds[1..])
  }

  // ---- Unique decoding ----

  lemma {:induction false} FieldIsInjective(v: nat, w: nat, n: nat)
    requires v < Pow2(8 * n) && w < Pow2(8 * n) && Field(v, n) == Field(w, n)
    ensures v == w
  {
    if n > 0 {
      Pow2Of8Times(n);
      assert Field(v, n)[1..] == Field(v / 256, n - 1) && Field(w, n)[1..] == Field(w / 256, n - 1);
      assert Field(v, n)[0] == Field(w, n)[0];
      FieldIsInjective(v / 256, w / 256, n - 1);
    } else {
      assert Pow2(0) == 1;
    }
  }

  lemma Pow2Of8Times(n: nat)
    requires n > 0
    ensures Pow2(8 * n) == 256 * Pow2(8 * (n - 1))
  {
    var m := 8 * (n - 1);
    hide Pow2;
    Pow2Next(m); Pow2Next(m + 1); Pow2Next(m + 2); Pow2Next(m + 3);
    Pow2Next(m + 4); Pow2Next(m + 5); Pow2Next(m + 6); Pow2Next(m + 7);
  }

  /** Fields of the same size at the start of equal keys are equal, and so is the rest. */
  lemma FieldsAgree(v: nat, w: nat, n: nat, x: seq<nat>, y: seq<nat>)
    requires v < Pow2(8 * n) && w < Pow2(8 * n) && Field(v, n) + x == Field(w, n) + y
    ensures v == w && x == y
  {
    hide Field, Pow2;
    assert (Field(v, n) + x)[..n] == Field(v, n) && (Field(w, n) + y)[..n] == Field(w, n);
    assert (Field(v, n) + x)[n..] == x && (Field(w, n) + y)[n..] == y;
    FieldIsInjective(v, w, n);
  }

  lemma Associate(a: seq<nat>, b: seq<nat>, c: seq<nat>)
    ensures (a + b) + c == a + (b + c)
  {
  }

  lemma EmptyStart(x: seq<nat>)
    ensures [] + x == x
  {
  }

  predicate ValidDims(dims: seq<(nat, nat)>) {
    forall i :: 0 <= i < |dims| ==> dims[i].0 < Pow2(64) && dims[i].1 < Pow2(64)
  }

  lemma {:induction false} DimsAgree(s: seq<(nat, nat)>, t: seq<(nat, nat)>, x: seq<nat>, y: seq<nat>)
    requires |s| == |t| && ValidDims(s) && ValidDims(t) && EncodeDims(s) + x == EncodeDims(t) + y
    ensures s == t && x == y
  {
    hide Field, Pow2;
    if s == [] {
      EmptyStart(x);
      EmptyStart(y);
    } else {
      FirstDim(s, x);
      FirstDim(t, y);
      FieldsAgree(s[0].0, t[0].0, 8, Field(s[0].1, 8) + (EncodeDims(s[1..]) + x), Field(t[0].1, 8) + (EncodeDims(t[1..]) + y));
      FieldsAgree(s[0].1, t[0].1, 8, EncodeDims(s[1..]) + x, EncodeDims(t[1..]) + y);
      DimsAgree(s[1..], t[1..], x, y);
      assert s == [s[0]] + s[1..] && t == [t[0]] + t[1..];
    }
  }

  lemma FirstDim(s: seq<(nat, nat)>, x: seq<nat>)
    requires s != []
    ensures EncodeDims(s) + x == Field(s[0].0, 8) + (Field(s[0].1, 8) + (EncodeDims(s[1..]) + x))
  {
    hide Field;
    Associate(Field(s[0].0, 8), Field(s[0].1, 8) + EncodeDims(s[1..]), x);
    Associate(Field(s[0].1, 8), EncodeDims(s[1..]), x);
  }

  lemma TensorFields(t: Tensor, x: seq<nat>)
    ensures EncodeTensor(t) + x
            == Field(t.code, 1) + (Field(t.bits, 1) + (Field(t.lanes, 2) + (Field(t.ndim, 4)
               + (Field(t.lowBit, 8) + (EncodeDims(t.dims) + x)))))
  {
    hide Field, EncodeDims;
    var e := Field(t.lowBit, 8) + EncodeDims(t.dims);
    var d := Field(t.ndim, 4) + e;
    var c := Field(t.lanes, 2) + d;
    var b := Field(t.bits, 1) + c;
    Associate(Field(t.code, 1), b, x);
    Associate(Field(t.bits, 1), c, x);
    Associate(Field(t.lanes, 2), d, x);
    Associate(Field(t.ndim, 4), e, x);
    Associate(Field(t.lowBit, 8), EncodeDims(t.dims), x);
  }

  lemma TensorsAgree(s: Tensor, t: Tensor, x: seq<nat>, y: seq<nat>)
    requires ValidTensor(s) && ValidTensor(t) && EncodeTensor(s) + x == EncodeTensor(t) + y
    ensures s == t && x == y
  {
    hide Field, Pow2, EncodeDims, EncodeTensor;
    TensorFields(s, x);
    TensorFields(t, y);
    var s4, t4 := Field(s.lowBit, 8) + (EncodeDims(s.dims) + x), Field(t.lowBit, 8) + (EncodeDims(t.dims) + y);
    var s3, t3 := Field(s.ndim, 4) + s4, Field(t.ndim, 4) + t4;
    var s2, t2 := Field(s.lanes, 2) + s3, Field(t.lanes, 2) + t3;
    FieldsAgree(s.code, t.code, 1, Field(s.bits, 1) + s2, Field(t.bits, 1) + t2);
    FieldsAgree(s.bits, t.bits, 1, s2, t2);
    FieldsAgree(s.lanes, t.lanes, 2, s3, t3);
    FieldsAgree(s.ndim, t.ndim, 4, s4, t4);
    FieldsAgree(s.lowBit, t.lowBit, 8, EncodeDims(s.dims) + x, EncodeDims(t.dims) + y);
    DimsAgree(s.dims, t.dims, x, y);
  }

  function KindOf(d: Description): Kind {
    match d
    case Number(kind, _) => kind
    case Scalar(kind) => kind
    case Array(_) => Other
  }

  /** What follows the byte of the kind. */
  function Body(d: Description): seq<nat> {
    match d
    case Number(_, word) => Field(word, 8)
    case Scalar(_) => []
    case Array(t) => EncodeTensor(t)
  }

  lemma KindFirst(d: Description, x: seq<nat>)
    ensures Encode(d) + x == Field(KindByte(KindOf(d)), 1) + (Body(d) + x)
    ensures KindByte(KindOf(d)) < Pow2(8)
  {
    assert Pow2(3) == 8;
    Pow2Monotone(3, 8);
    hide Field, EncodeTensor, Pow2;
    Associate(Field(KindByte(KindOf(d)), 1), Body(d), x);
  }

  lemma DescriptionsAgree(d: Description, e: Description, constant: bool, x: seq<nat>, y: seq<nat>)
    requires ValidDescription(d, constant) && ValidDescription(e, constant)
    requires Encode(d) + x == Encode(e) + y
    ensures d == e && x == y
  {
    hide Field, Pow2, EncodeTensor, Encode, ValidTensor;
    KindFirst(d, x);
    KindFirst(e, y);
    FieldsAgree(KindByte(KindOf(d)), KindByte(KindOf(e)), 1, Body(d) + x, Body(e) + y);
    match d {
      case Number(_, word) => FieldsAgree(word, e.word, 8, x, y);
      case Scalar(_) =>
        EmptyStart(x);
        EmptyStart(y);
      case Array(t) => TensorsAgree(t, e.tensor, x, y);
    }
  }

  predicate ValidDescriptions(ds: seq<Description>, constants: seq<bool>) {
    |ds| == |constants| && forall i :: 0 <= i < |ds| ==> ValidDescription(ds[i], constants[i])
  }

  /** Equal keys mean equal descriptions of all arguments. */
  lemma {:induction false} KeysAreUnique(ds: seq<Description>, es: seq<Description>, constants: seq<bool>)
    requires ValidDescriptions(ds, constants) && ValidDescriptions(es, constants)
    ensures EncodeAll(ds) == EncodeAll(es) <==> ds == es
  {
    hide Encode, ValidDescription;
    if ds != [] && EncodeAll(ds) == EncodeAll(es) {
      DescriptionsAgree(ds[0], es[0], constants[0], EncodeAll(ds[1..]), EncodeAll(es[1..]));
      KeysAreUnique(ds[1..], es[1..], constants[1..]);
      assert ds == [ds[0]] + ds[1..] && es == [es[0]] + es[1..];
    }
  }

  // ---- The code ----

  datatype Option<T> = None | Some(value: T)

  /** A Python argument. A number that does not fit 64 bits has no word. The tensors are those whose
      type is one that the cache knows how to export. */
  datatype Value = NumberValue(kind: Kind, word: Option<nat>) | TensorValue(device: bool, tensor: RawTensor) | OtherValue

  datatype RawTensor = RawTensor(code: nat, bits: nat, lanes: nat, address: nat, shape: seq<int>, strides: seq<int>)

  predicate ValidRaw(t: RawTensor) {
    && t.code < Pow2(8) && t.bits < Pow2(8) && t.lanes < Pow2(16) && t.address < Pow2(64)
    && |t.shape| == |t.strides| < Pow2(31)
    && forall i :: 0 <= i < |t.shape| ==> t.shape[i] < Pow2(63) && t.strides[i] < Pow2(63)
  }

  predicate ValidValue(v: Value) {
    match v
    case NumberValue(kind, word) => !kind.Other? && (word.Some? ==> word.value < Pow2(64))
    case TensorValue(_, t) => ValidRaw(t)
    case OtherValue => true
  }

  /** pointer & -pointer: the lowest bit that is set. */
  function LowestBit(p: nat): (r: nat)
    ensures r <= p
    decreases p
  {
    if p == 0 then 0 else if p % 2 == 1 then 1 else 2 * LowestBit(p / 2)
  }

  /** Singleton dimensions and negative strides are not supported. */
  predicate Describable(t: RawTensor)
    requires |t.shape| == |t.strides|
  {
    forall i :: 0 <= i < |t.shape| ==> t.shape[i] > 1 && t.strides[i] >= 0
  }

  function DescribeDims(t: RawTensor): (dims: seq<(nat, nat)>)
    requires |t.shape| == |t.strides| && Describable(t)
    ensures |dims| == |t.shape|
  {
    seq(|t.shape|, i requires 0 <= i < |t.shape| => (t.shape[i] as nat, t.strides[i] as nat))
  }

  /** None: the launch has to go another way. */
  function DescribeOne(v: Value, constant: bool): Option<Description>
    requires ValidValue(v)
  {
    match v
    case NumberValue(kind, word) =>
      if !constant then Some(Scalar(kind))
      else if word == None then None
      else Some(Number(kind, word.value))
    case TensorValue(device, t) =>
      if constant || !device || !Describable(t) then None
      else Some(Array(Tensor(t.code, t.bits, t.lanes, |t.shape|, LowestBit(t.address), DescribeDims(t))))
    case OtherValue => None
  }

  lemma DescribedIsValid(v: Value, constant: bool)
    requires ValidValue(v) && DescribeOne(v, constant).Some?
    ensures ValidDescription(DescribeOne(v, constant).value, constant)
  {
    hide Pow2, LowestBit;
    Pow2Monotone(63, 64);
    Pow2Monotone(31, 32);
  }

  method AppendField(key: seq<nat>, v: nat, n: nat) returns (longer: seq<nat>)
    ensures longer == key + Field(v, n)
  {
    longer := key + Field(v, n);
  }

  /** The dimensions, up to the first that is not supported. */
  method AppendDims(key: seq<nat>, t: RawTensor) returns (ok: bool, longer: seq<nat>)
    requires |t.shape| == |t.strides|
    ensures ok <==> Describable(t)
    ensures ok ==> longer == key + EncodeDims(DescribeDims(t))
  {
    longer := key;
    assert key + [] == key;
    hide Field, EncodeDims;
    EncodeNoDims();
    for dim := 0 to |t.shape|
      invariant forall i :: 0 <= i < dim ==> t.shape[i] > 1 && t.strides[i] >= 0
      invariant longer == key + EncodeDims(FirstDims(t, dim))
    {
      if t.shape[dim] <= 1 || t.strides[dim] < 0 {
        return false, key;
      }
      NextDims(t, dim);
      longer := AppendField(longer, t.shape[dim], 8);
      longer := AppendField(longer, t.strides[dim], 8);
      Associate(key, EncodeDims(FirstDims(t, dim)), Field(t.shape[dim], 8));
      Associate(key, EncodeDims(FirstDims(t, dim)) + Field(t.shape[dim], 8), Field(t.strides[dim], 8));
    }
    assert FirstDims(t, |t.shape|) == DescribeDims(t);
    ok := true;
  }

  function FirstDims(t: RawTensor, n: nat): (dims: seq<(nat, nat)>)
    requires n <= |t.shape| == |t.strides|
    requires forall i :: 0 <= i < n ==> t.shape[i] > 1 && t.strides[i] >= 0
    ensures |dims| == n
  {
    seq(n, i requires 0 <= i < n => (t.shape[i] as nat, t.strides[i] as nat))
  }

  lemma EncodeNoDims()
    ensures EncodeDims([]) == []
  {
  }

  lemma NextDims(t: RawTensor, n: nat)
    requires n < |t.shape| == |t.strides|
    requires forall i :: 0 <= i < n + 1 ==> t.shape[i] > 1 && t.strides[i] >= 0
    ensures EncodeDims(FirstDims(t, n + 1))
            == EncodeDims(FirstDims(t, n)) + Field(t.shape[n], 8) + Field(t.strides[n], 8)
  {
    var d := (t.shape[n] as nat, t.strides[n] as nat);
    assert FirstDims(t, n + 1) == FirstDims(t, n) + [d];
    EncodeSnoc(FirstDims(t, n), d);
  }

  lemma {:induction false} EncodeSnoc(dims: seq<(nat, nat)>, d: (nat, nat))
    ensures EncodeDims(dims + [d]) == EncodeDims(dims) + Field(d.0, 8) + Field(d.1, 8)
  {
    hide Field;
    if dims == [] {
      assert ([] + [d])[1..] == [] && EncodeDims([]) == [];
      assert [] + [d] == [d];
    } else {
      EncodeSnoc(dims[1..], d);
      assert (dims + [d])[1..] == dims[1..] + [d];
      FirstDim(dims, Field(d.0, 8));
      FirstDim(dims, Field(d.0, 8) + Field(d.1, 8));
      Associate(EncodeDims(dims), Field(d.0, 8), Field(d.1, 8));
      Associate(EncodeDims(dims[1..]), Field(d.0, 8), Field(d.1, 8));
    }
  }

  /** The arguments described one by one; None as soon as one cannot be. */
  function DescribeAll(args: seq<Value>, constants: seq<bool>): Option<seq<Description>>
    requires |args| == |constants| && forall i :: 0 <= i < |args| ==> ValidValue(args[i])
  {
    if args == [] then Some([])
    else
      var last := |args| - 1;
      match DescribeAll(args[..last], constants[..last])
      case None => None
      case Some(ds) =>
        match DescribeOne(args[last], constants[last])
        case None => None
        case Some(d) => Some(ds + [d])
  }

  lemma {:induction false} EncodeAllSnoc(ds: seq<Description>, d: Description)
    ensures EncodeAll(ds + [d]) == EncodeAll(ds) + Encode(d)
  {
    hide Encode;
    if ds == [] {
      assert [] + [d] == [d] && [d][1..] == [];
      assert EncodeAll([d]) == Encode(d) + EncodeAll([]);
    } else {
      EncodeAllSnoc(ds[1..], d);
      assert (ds + [d])[1..] == ds[1..] + [d];
      Associate(Encode(ds[0]), EncodeAll(ds[1..]), Encode(d));
    }
  }

  lemma {:induction false} AllOrNothing(args: seq<Value>, constants: seq<bool>, k: nat)
    requires |args| == |constants| && k <= |args| && forall i :: 0 <= i < |args| ==> ValidValue(args[i])
    requires DescribeAll(args[..k], constants[..k]) == None
    ensures DescribeAll(args, constants) == None
  {
    if k < |args| {
      var last := |args| - 1;
      assert args[..last][..k] == args[..k] && constants[..last][..k] == constants[..k];
      AllOrNothing(args[..last], constants[..last], k);
    } else {
      assert args[..k] == args && constants[..k] == constants;
    }
  }

  /** One argument's part of the key. */
  method AppendOne(key: seq<nat>, value: Value, constant: bool) returns (ok: bool, longer: seq<nat>)
    requires ValidValue(value)
    ensures ok <==> DescribeOne(value, constant).Some?
    ensures ok ==> longer == key + Encode(DescribeOne(value, constant).value)
  {
    hide Field, EncodeDims;
    var kind := if value.NumberValue? then value.kind else Other;
    longer := AppendField(key, KindByte(kind), 1);
    if constant {
      if !value.NumberValue? || value.word == None {
        return false, key;
      }
      longer := AppendField(longer, value.word.value, 8);
      Associate(key, Field(KindByte(kind), 1), Field(value.word.value, 8));
      return true, longer;
    }
    if value.NumberValue? {
      return true, longer;
    }
    if value.OtherValue? || !value.device {
      return false, key;
    }
    var t := value.tensor;
    longer := AppendField(longer, t.code, 1);
    longer := AppendField(longer, t.bits, 1);
    longer := AppendField(longer, t.lanes, 2);
    longer := AppendField(longer, |t.shape|, 4);
    longer := AppendField(longer, LowestBit(t.address), 8);
    var described;
    described, longer := AppendDims(longer, t);
    if !described {
      return false, key;
    }
    ghost var d := DescribeOne(value, constant).value.tensor;
    JoinFields(key, d);
    return true, longer;
  }

  lemma JoinFields(key: seq<nat>, t: Tensor)
    ensures key + Field(KindByte(Other), 1) + Field(t.code, 1) + Field(t.bits, 1) + Field(t.lanes, 2)
            + Field(t.ndim, 4) + Field(t.lowBit, 8) + EncodeDims(t.dims) == key + Encode(Array(t))
  {
    hide Field, EncodeDims;
    var k0 := key + Field(KindByte(Other), 1);
    var k1 := k0 + Field(t.code, 1);
    var k2 := k1 + Field(t.bits, 1);
    var k3 := k2 + Field(t.lanes, 2);
    var k4 := k3 + Field(t.ndim, 4);
    var e := Field(t.lowBit, 8) + EncodeDims(t.dims);
    var d := Field(t.ndim, 4) + e;
    var c := Field(t.lanes, 2) + d;
    var b := Field(t.bits, 1) + c;
    Associate(k4, Field(t.lowBit, 8), EncodeDims(t.dims));
    Associate(k3, Field(t.ndim, 4), e);
    Associate(k2, Field(t.lanes, 2), d);
    Associate(k1, Field(t.bits, 1), c);
    Associate(k0, Field(t.code, 1), b);
    Associate(key, Field(KindByte(Other), 1), EncodeTensor(t));
  }

  /** Cache::describe. Equal results for two argument lists mean equal descriptions, by
      KeysAreUnique. */
  method Describe(args: seq<Value>, constants: seq<bool>) returns (r: Option<seq<nat>>)
    requires forall i :: 0 <= i < |args| ==> ValidValue(args[i])
    ensures |args| != |constants| ==> r == None
    ensures |args| == |constants| ==>
              match DescribeAll(args, constants)
              case None => r == None
              case Some(ds) => r == Some(EncodeAll(ds)) && ValidDescriptions(ds, constants)
  {
    if |args| != |constants| {
      return None;
    }
    var key := [];
    ghost var ds: seq<Description> := [];
    StartOfKey(args, constants);
    hide DescribeOne, DescribeAll, Encode, EncodeAll, ValidDescriptions, ValidValue;
    for arg := 0 to |args|
      invariant DescribeAll(args[..arg], constants[..arg]) == Some(ds) && key == EncodeAll(ds)
      invariant ValidDescriptions(ds, constants[..arg])
    {
      NextDescription(args, constants, arg, ds);
      var ok, longer := AppendOne(key, args[arg], constants[arg]);
      if !ok {
        AllOrNothing(args, constants, arg + 1);
        return None;
      }
      key := longer;
      ds := ds + [DescribeOne(args[arg], constants[arg]).value];
    }
    assert args[..|args|] == args && constants[..|args|] == constants;
    return Some(key);
  }

  lemma StartOfKey(args: seq<Value>, constants: seq<bool>)
    requires |args| == |constants|
    ensures DescribeAll(args[..0], constants[..0]) == Some([]) && EncodeAll([]) == []
    ensures ValidDescriptions([], constants[..0])
  {
  }

  lemma NextDescription(args: seq<Value>, constants: seq<bool>, arg: nat, ds: seq<Description>)
    requires arg < |args| == |constants| && forall i :: 0 <= i < |args| ==> ValidValue(args[i])
    requires DescribeAll(args[..arg], constants[..arg]) == Some(ds) && ValidDescriptions(ds, constants[..arg])
    ensures var d := DescribeOne(args[arg], constants[arg]);
            && DescribeAll(args[..arg + 1], constants[..arg + 1])
               == (match d case None => None case Some(one) => Some(ds + [one]))
            && (d.Some? ==> EncodeAll(ds + [d.value]) == EncodeAll(ds) + Encode(d.value)
                            && ValidDescriptions(ds + [d.value], constants[..arg + 1]))
  {
    hide DescribeOne, Encode, ValidDescription, ValidValue;
    assert args[..arg + 1][..arg] == args[..arg] && constants[..arg + 1][..arg] == constants[..arg];
    if DescribeOne(args[arg], constants[arg]).Some? {
      DescribedIsValid(args[arg], constants[arg]);
      EncodeAllSnoc(ds, DescribeOne(args[arg], constants[arg]).value);
    }
  }

  // ---- What equal keys mean for the arguments ----

  /** The same powers of two divide both addresses. */
  ghost predicate SameAlignment(p: nat, q: nat) {
    forall k: nat :: p % Pow2(k) == 0 <==> q % Pow2(k) == 0
  }

  lemma DoubledRemainder(h: nat, m: nat)
    requires m > 0
    ensures (2 * h) % (2 * m) == 2 * (h % m)
  {
    var q, r := h / m, h % m;
    FixedWidthArithmetic.Quotient(h, m);
    Doubled(m, q);
    FixedWidthArithmetic.QuotientIsUnique(2 * h, 2 * m, q, 2 * r);
  }

  lemma Doubled(m: nat, q: nat)
    ensures (2 * m) * q == 2 * (m * q)
  {
  }

  /** The lowest bit of an address is the largest power of two that divides it. */
  lemma {:induction false} LowestBitDivides(p: nat, k: nat)
    requires p > 0
    ensures p % Pow2(k) == 0 <==> Pow2(k) <= LowestBit(p)
    ensures LowestBit(p) > 0
  {
    if k == 0 {
      var _ := LowestBitIsPower(p);
    } else if p % 2 == 0 {
      LowestBitDivides(p / 2, k - 1);
      DoubledRemainder(p / 2, Pow2(k - 1));
    } else {
      OddRemainder(p, Pow2(k - 1));
    }
  }

  lemma OddRemainder(p: nat, m: nat)
    requires p % 2 == 1 && m > 0
    ensures p % (2 * m) != 0
  {
    if p % (2 * m) == 0 {
      FixedWidthArithmetic.Quotient(p, 2 * m);
      EvenMultiple(p, m, p / (2 * m));
    }
  }

  lemma EvenMultiple(p: nat, m: nat, q: nat)
    requires p == (2 * m) * q
    ensures p % 2 == 0
  {
    Doubled(m, q);
    Even(m * q);
  }

  lemma Even(n: nat)
    ensures (2 * n) % 2 == 0
  {
  }

  lemma {:induction false} LowestBitIsPower(p: nat) returns (k: nat)
    requires p > 0
    ensures LowestBit(p) == Pow2(k)
  {
    if p % 2 == 1 {
      k := 0;
    } else {
      k := LowestBitIsPower(p / 2);
      k := k + 1;
    }
  }

  lemma ZeroIsDivisible(k: nat)
    ensures 0 % Pow2(k) == 0
  {
  }

  lemma LargerAlignment(p: nat, q: nat)
    requires SameAlignment(p, q) && q > 0
    ensures p > 0 && LowestBit(p) <= LowestBit(q)
  {
    hide LowestBit, Pow2;
    if p == 0 {
      var k := LowestBitIsPower(q);
      ZeroIsDivisible(k + 1);
      Pow2Next(k);
      LowestBitDivides(q, k + 1);
    } else {
      var k := LowestBitIsPower(p);
      LowestBitDivides(p, k);
      LowestBitDivides(q, k);
    }
  }

  lemma SameBitIffSameAlignment(p: nat, q: nat)
    ensures LowestBit(p) == LowestBit(q) <==> SameAlignment(p, q)
  {
    hide LowestBit, Pow2;
    if SameAlignment(p, q) {
      if q > 0 {
        LargerAlignment(p, q);
        LargerAlignment(q, p);
      } else if p > 0 {
        LargerAlignment(q, p);
      }
    }
    if LowestBit(p) == LowestBit(q) {
      LowestBitOfZero();
      forall k: nat ensures p % Pow2(k) == 0 <==> q % Pow2(k) == 0 {
        if p > 0 {
          LowestBitDivides(p, k);
        }
        if q > 0 {
          LowestBitDivides(q, k);
        }
      }
    }
  }

  lemma LowestBitOfZero()
    ensures LowestBit(0) == 0
  {
  }

  /** A kernel that fits one argument fits the other: numbers of one type, and the same number where
      it is a constant; tensors of one element type, shape, layout and alignment. */
  ghost predicate SameForKernel(v: Value, w: Value, constant: bool) {
    match v
    case NumberValue(kind, word) => w.NumberValue? && w.kind == kind && (constant ==> w.word == word)
    case TensorValue(_, t) =>
      && w.TensorValue?
      && w.tensor.code == t.code && w.tensor.bits == t.bits && w.tensor.lanes == t.lanes
      && w.tensor.shape == t.shape && w.tensor.strides == t.strides && SameAlignment(w.tensor.address, t.address)
    case OtherValue => false
  }

  lemma SameDims(t: RawTensor, u: RawTensor)
    requires |t.shape| == |t.strides| && |u.shape| == |u.strides| && Describable(t) && Describable(u)
    ensures DescribeDims(t) == DescribeDims(u) <==> t.shape == u.shape && t.strides == u.strides
  {
    if DescribeDims(t) == DescribeDims(u) {
      forall i | 0 <= i < |t.shape| ensures t.shape[i] == u.shape[i] && t.strides[i] == u.strides[i] {
        assert DescribeDims(t)[i] == DescribeDims(u)[i];
      }
    }
  }

  lemma SameDescription(v: Value, w: Value, constant: bool)
    requires ValidValue(v) && ValidValue(w)
    requires DescribeOne(v, constant).Some? && DescribeOne(w, constant).Some?
    ensures DescribeOne(v, constant) == DescribeOne(w, constant) <==> SameForKernel(v, w, constant)
  {
    hide LowestBit, Pow2, SameAlignment, DescribeDims, Describable;
    if v.TensorValue? && w.TensorValue? {
      SameDims(v.tensor, w.tensor);
      SameBitIffSameAlignment(w.tensor.address, v.tensor.address);
    }
  }

  lemma {:induction false} DescribedOneByOne(args: seq<Value>, constants: seq<bool>)
    requires |args| == |constants| && forall i :: 0 <= i < |args| ==> ValidValue(args[i])
    ensures DescribeAll(args, constants).Some? <==>
              forall i :: 0 <= i < |args| ==> DescribeOne(args[i], constants[i]).Some?
    ensures DescribeAll(args, constants).Some? ==>
              var ds := DescribeAll(args, constants).value;
              && |ds| == |args| && ValidDescriptions(ds, constants)
              && forall i :: 0 <= i < |args| ==> DescribeOne(args[i], constants[i]) == Some(ds[i])
  {
    hide DescribeOne, ValidDescription, ValidValue;
    if args != [] {
      var last := |args| - 1;
      DescribedOneByOne(args[..last], constants[..last]);
      if DescribeOne(args[last], constants[last]).Some? {
        DescribedIsValid(args[last], constants[last]);
      }
    }
  }

  /** Two launches have the same key exactly when the same kernel fits both. */
  lemma SameKeyIffSameForKernel(args: seq<Value>, others: seq<Value>, constants: seq<bool>)
    requires |args| == |others| == |constants|
    requires forall i :: 0 <= i < |args| ==> ValidValue(args[i]) && ValidValue(others[i])
    requires DescribeAll(args, constants).Some? && DescribeAll(others, constants).Some?
    ensures EncodeAll(DescribeAll(args, constants).value) == EncodeAll(DescribeAll(others, constants).value)
            <==> forall i :: 0 <= i < |args| ==> SameForKernel(args[i], others[i], constants[i])
  {
    hide DescribeOne, ValidValue, EncodeAll, SameForKernel, DescribeAll, ValidDescriptions;
    DescribedOneByOne(args, constants);
    DescribedOneByOne(others, constants);
    var ds, es := DescribeAll(args, constants).value, DescribeAll(others, constants).value;
    KeysAreUnique(ds, es, constants);
    forall i | 0 <= i < |args| ensures ds[i] == es[i] <==> SameForKernel(args[i], others[i], constants[i]) {
      SameDescription(args[i], others[i], constants[i]);
    }
  }

  /** There is a key unless an argument is not supported. */
  lemma DescribedIff(args: seq<Value>, constants: seq<bool>)
    requires |args| == |constants| && forall i :: 0 <= i < |args| ==> ValidValue(args[i])
    ensures DescribeAll(args, constants).Some? <==>
              forall i :: 0 <= i < |args| ==>
                match args[i]
                case NumberValue(_, word) => constants[i] ==> word.Some?
                case TensorValue(device, t) =>
                  !constants[i] && device && forall k :: 0 <= k < |t.shape| ==> t.shape[k] > 1 && t.strides[k] >= 0
                case OtherValue => false
  {
    hide LowestBit, DescribeDims, DescribeAll, Pow2;
    DescribedOneByOne(args, constants);
  }
}
