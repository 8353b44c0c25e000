/** The code that writes the constants of a launch and the code that reads them back. Every method
    is proved against the functions of LaunchConstants; the CHECKs are assertions. */
module LaunchArguments {
  import opened PowersOfTwo
  import opened LaunchConstants
  import FixedWidthArithmetic

  // ---- Writing ----

  class LaunchHelper {
    const specialize: Specializer
    var constants: seq<int>
    var identityConstants: seq<nat>

    constructor (specialize: Specializer)
      requires SpecializerOk(specialize)
      ensures this.specialize == specialize && constants == [] && identityConstants == []
    {
      this.specialize := specialize;
      constants, identityConstants := [], [];
    }

    method PushStaticValues(words: seq<int>, dims: seq<int>) returns (ok: bool)
      modifies this`constants
      ensures ok <==> StaticValues(words, dims).Ok?
      ensures ok ==> constants == old(constants) + StaticValues(words, dims).value
    {
      ghost var pushed := [];
      assert dims[0..] == dims;
      PrependNothing(StaticValues(words, dims));
      for k := 0 to |dims|
        invariant constants == old(constants) + pushed
        invariant StaticValues(words, dims) == Prepend(pushed, StaticValues(words, dims[k..]))
      {
        assert dims[k..][0] == dims[k] && dims[k..][1..] == dims[k + 1..];
        var axis := NormalizeDim(dims[k], |words|);
        if axis == Raised {
          return false;
        }
        constants := constants + [words[axis.value]];
        PrependTwice(pushed, [words[axis.value]], StaticValues(words, dims[k + 1..]));
        pushed := pushed + [words[axis.value]];
      }
      assert dims[|dims|..] == [];
      return true;
    }

    /** ArrayTypeConstantBuilder::finalize */
    method Finalize(first: Array, bits: nat, n: Annotation) returns (ok: bool)
      requires IsArray(first) && bits < TWO_64
      modifies this`constants
      ensures ok <==> ArrayFields(first, bits, n).Ok?
      ensures ok ==> constants == old(constants) + ArrayFields(first, bits, n).value
    {
      hide PackArrayType, StaticValues;
      constants := constants + [PackArrayType(first.ty)];
      constants := constants + [ToSigned(bits)];
      ok := PushStaticValues(first.shape, n.staticShapeDims);
      if ok {
        ok := PushStaticValues(first.strides, n.staticStrideDims);
      }
    }

    /** check_agreement, and an update of the bits: one array after the other. */
    method ExtractList(arrays: seq<Array>, n: Annotation) returns (ok: bool)
      requires IsLeaf(ListLeaf(arrays))
      modifies this`constants
      ensures ok <==> Written(specialize, ListLeaf(arrays), n).Ok?
      ensures ok ==> constants == old(constants) + Written(specialize, ListLeaf(arrays), n).value
    {
      if arrays == [] {
        return false;
      }
      var bits := TWO_64 - 1;
      hide ArrayFields, Agree, FixedWidthArithmetic.BitAnd;
      for i := 0 to |arrays|
        invariant bits == CommonBits(specialize, arrays[..i], n) && constants == old(constants)
        invariant i > 0 ==> AllAgree(arrays[..i], n)
      {
        assert arrays[..i + 1][..i] == arrays[..i] && arrays[..i + 1][i] == arrays[i];
        if i > 0 && arrays[i].ty != arrays[0].ty {
          return false;
        }
        bits := FixedWidthArithmetic.BitAnd(bits, specialize(arrays[i], n));
        if i > 0 {
          var shapesAgree := CheckAgreement(arrays[0].shape, arrays[i].shape, n.staticShapeDims);
          if !shapesAgree {
            return false;
          }
          var stridesAgree := CheckAgreement(arrays[0].strides, arrays[i].strides, n.staticStrideDims);
          if !stridesAgree {
            return false;
          }
        }
        OneMoreAgrees(arrays, n, i);
      }
      assert arrays[..|arrays|] == arrays;
      CommonBitsFit(specialize, arrays, n);
      ok := Finalize(arrays[0], bits, n);
    }

    /** append_signed_int_constant and append_unsigned_int_constant */
    method AppendInt(v: int, isUnsigned: bool)
      requires if isUnsigned then 0 <= v < TWO_64 else IsWord(v)
      modifies this`constants
      ensures constants == old(constants) + if isUnsigned then UnsignedInt(v) else SignedInt(v)
    {
      if !isUnsigned || v < TWO_63 {
        constants := constants + [I64];
        constants := constants + [v];
      } else {
        constants := constants + [U64];
        constants := constants + [ToSigned(v)];
      }
    }

    method ExtractInt(v: int) returns (ok: bool)
      modifies this`constants
      ensures ok <==> IntField(v).Ok?
      ensures ok ==> constants == old(constants) + IntField(v).value
    {
      if IsWord(v) {
        AppendInt(v, false);
        return true;
      }
      constants := constants + [U64];
      if !(0 <= v < TWO_64) {
        return false;
      }
      constants := constants + [ToSigned(v)];
      return true;
    }

    method ExtractArg(leaf: Leaf, n: Annotation) returns (ok: bool)
      requires IsLeaf(leaf)
      modifies this
      ensures ok <==> Written(specialize, leaf, n).Ok?
      ensures ok ==> constants == old(constants) + Written(specialize, leaf, n).value
      ensures identityConstants == old(identityConstants) + if leaf.Object? then [leaf.address] else []
    {
      hide ArrayFields, IntField, CommonBits, AllAgree;
      ok := true;
      match leaf {
        case Bool(b) => constants := constants + [if b then 1 else 0];
        case Int(v) => ok := ExtractInt(v);
        case Double(bits) => constants := constants + [ToSigned(bits)];
        case NoneObject =>
        case Object(address) =>
          constants := constants + [ToSigned(address)];
          identityConstants := identityConstants + [address];
        case ArrayLeaf(a) => ok := ExtractArray(a, n);
        case PointerLeaf(pointee) => constants := constants + [pointee];
        case ListLeaf(arrays) => ok := ExtractList(arrays, n);
        case Unwritten(_) =>
      }
    }

    /** extract_array_repr */
    method ExtractArray(a: Array, n: Annotation) returns (ok: bool)
      requires IsArray(a)
      modifies this`constants
      ensures CommonBits(specialize, [a], n) < TWO_64
      ensures ok <==> ArrayFields(a, CommonBits(specialize, [a], n), n).Ok?
      ensures ok ==> constants == old(constants) + ArrayFields(a, CommonBits(specialize, [a], n), n).value
    {
      hide ArrayFields, FixedWidthArithmetic.BitAnd;
      var bits := FixedWidthArithmetic.BitAnd(TWO_64 - 1, specialize(a, n));
      assert [a][..0] == [];
      CommonBitsFit(specialize, [a], n);
      ok := Finalize(a, bits, n);
    }

    /** extract_cuda_args */
    method ExtractArgs(args: seq<LeafArg>) returns (ok: bool)
      requires AreLeaves(args)
      modifies this
      ensures ok <==> AllWritten(specialize, args).Ok?
      ensures ok ==> constants == AllWritten(specialize, args).value && identityConstants == Objects(args)
    {
      hide Written, IsLeaf, AllWritten, Objects, Prepend;
      constants, identityConstants := [], [];
      assert args[0..] == args;
      PrependNothing(AllWritten(specialize, args));
      for i := 0 to |args|
        invariant AllWritten(specialize, args) == Prepend(constants, AllWritten(specialize, args[i..]))
        invariant Objects(args) == identityConstants + Objects(args[i..])
      {
        ghost var before := constants;
        assert args[i..][0] == args[i] && args[i..][1..] == args[i + 1..];
        WrittenStep(specialize, args[i..]);
        var written := ExtractArg(args[i].leaf, args[i].annotation);
        if !written {
          PrependRaised(before);
          return false;
        }
        PrependTwice(before, Written(specialize, args[i].leaf, args[i].annotation).value,
                     AllWritten(specialize, args[i + 1..]));
      }
      assert args[|args|..] == [];
      NothingWritten(specialize, constants);
      return true;
    }

    /** extract_native_launch_arguments: compiled host code writes for its values what the Python
        path writes for them, if the site was made from arguments that stand for them. */
    method ExtractNative(site: seq<NativeArgument>, values: seq<LeafArg>, ghost sources: seq<LeafArg>,
                         ghost unsignedSources: seq<Option<bool>>)
      returns (ok: bool)
      requires AreLeaves(values) && AreLeaves(sources) && |site| == |values| == |sources| == |unsignedSources|
      requires forall i :: 0 <= i < |site| ==>
                 && Kept(sources[i].leaf, unsignedSources[i]) == Ok(site[i])
                 && StandsFor(sources[i].leaf, site[i], values[i].leaf)
      modifies this
      ensures ok <==> AllWritten(specialize, values).Ok?
      ensures ok ==> constants == AllWritten(specialize, values).value
    {
      hide Written, IsLeaf, NativeWritten, StandsFor, Passes, AllWritten, Objects, Prepend, Kept;
      constants, identityConstants := [], [];
      assert values[0..] == values;
      PrependNothing(AllWritten(specialize, values));
      for i := 0 to |site|
        invariant AllWritten(specialize, values) == Prepend(constants, AllWritten(specialize, values[i..]))
      {
        ghost var before := constants;
        assert values[i..][0] == values[i] && values[i..][1..] == values[i + 1..];
        WrittenStep(specialize, values[i..]);
        assert IsLeaf(sources[i].leaf);
        BothPathsWriteTheSame(specialize, sources[i].leaf, unsignedSources[i], values[i].leaf, values[i].annotation);
        var written := ExtractNativeArgument(site[i], values[i].leaf, values[i].annotation);
        if !written {
          PrependRaised(before);
          return false;
        }
        PrependTwice(before, Written(specialize, values[i].leaf, values[i].annotation).value,
                     AllWritten(specialize, values[i + 1..]));
      }
      assert values[|values|..] == [];
      NothingWritten(specialize, constants);
      return true;
    }

    method ExtractNativeArgument(argument: NativeArgument, value: Leaf, n: Annotation) returns (ok: bool)
      requires IsLeaf(value) && Passes(argument, value)
      modifies this
      ensures ok <==> NativeWritten(specialize, argument, value, n).Ok?
      ensures ok ==> constants == old(constants) + NativeWritten(specialize, argument, value, n).value
    {
      hide ArrayFields, CommonBits;
      ok := true;
      match argument.category {
        case IdentityConstant =>
          constants := constants + [ToSigned(argument.address)];
          identityConstants := identityConstants + [argument.address];
        case ArrayParameter => ok := ExtractArray(value.repr.(ty := argument.ty), n);
        case PointerParameter => constants := constants + [argument.pointee];
        case ConstantBool => constants := constants + [if value.b then 1 else 0];
        case ConstantInt => AppendInt(value.v, argument.isUnsigned);
        case ConstantFloat => constants := constants + [ToSigned(value.bits)];
        case _ =>
      }
    }
  }

  lemma PrependRaised(words: seq<int>)
    ensures Prepend(words, Raised) == Raised
  {
  }

  lemma NothingWritten(spec: Specializer, words: seq<int>)
    ensures Prepend(words, AllWritten(spec, [])) == Ok(words) && Objects([]) == []
  {
    assert words + [] == words;
  }

  /** Whether two arrays have the same words at the annotated axes. */
  method CheckAgreement(first: seq<int>, words: seq<int>, dims: seq<int>) returns (ok: bool)
    requires |first| == |words|
    ensures ok <==> Agree(first, words, dims)
  {
    assert dims[0..] == dims;
    for k := 0 to |dims|
      invariant Agree(first, words, dims) <==> Agree(first, words, dims[k..])
    {
      assert dims[k..][0] == dims[k] && dims[k..][1..] == dims[k + 1..];
      var axis := NormalizeDim(dims[k], |words|);
      if axis == Raised || first[axis.value] != words[axis.value] {
        FirstDiffers(first, words, dims[k..]);
        return false;
      }
      FirstAgrees(first, words, dims[k..]);
    }
    assert dims[|dims|..] == [];
    return true;
  }

  lemma FirstAgrees(first: seq<int>, words: seq<int>, dims: seq<int>)
    requires |first| == |words| && dims != [] && NormalizeDim(dims[0], |words|).Ok?
    requires var axis := NormalizeDim(dims[0], |words|).value; first[axis] == words[axis]
    ensures Agree(first, words, dims) <==> Agree(first, words, dims[1..])
  {
    var axis := NormalizeDim(dims[0], |words|).value;
    var a, b := StaticValues(first, dims[1..]), StaticValues(words, dims[1..]);
    if a.Ok? && b.Ok? && [first[axis]] + a.value == [words[axis]] + b.value {
      assert a.value == ([first[axis]] + a.value)[1..];
      assert b.value == ([words[axis]] + b.value)[1..];
    }
  }

  lemma FirstDiffers(first: seq<int>, words: seq<int>, dims: seq<int>)
    requires |first| == |words| && dims != []
    requires match NormalizeDim(dims[0], |words|)
             case Raised => true
             case Ok(axis) => first[axis] != words[axis]
    ensures !Agree(first, words, dims)
  {
    match NormalizeDim(dims[0], |words|) {
      case Raised =>
      case Ok(axis) =>
        var a, b := StaticValues(first, dims[1..]), StaticValues(words, dims[1..]);
        if a.Ok? && b.Ok? {
          assert ([first[axis]] + a.value)[0] != ([words[axis]] + b.value)[0];
        }
    }
  }

  lemma OneMoreAgrees(arrays: seq<Array>, n: Annotation, i: nat)
    requires i < |arrays| && (i > 0 ==> AllAgree(arrays[..i], n) && arrays[i].ty == arrays[0].ty)
    requires i > 0 ==> Agree(arrays[0].shape, arrays[i].shape, n.staticShapeDims)
    requires i > 0 ==> Agree(arrays[0].strides, arrays[i].strides, n.staticStrideDims)
    ensures AllAgree(arrays[..i + 1], n)
  {
    hide Agree;
    var longer := arrays[..i + 1];
    forall j | 0 < j < |longer|
      ensures longer[j].ty == longer[0].ty
      ensures Agree(longer[0].shape, longer[j].shape, n.staticShapeDims)
      ensures Agree(longer[0].strides, longer[j].strides, n.staticStrideDims)
    {
      if j < i {
        assert arrays[..i][j] == arrays[j] && arrays[..i][0] == arrays[0];
      }
    }
  }

  // ---- Reading: the signature of the kernel ----

  /** What is still to be read. Each Next CHECKs that there is something left. */
  class ConstraintParser {
    const objects: seq<nat>
    var constants: seq<int>
    var kinds: seq<ParameterKind>
    var annotations: seq<Annotation>

    constructor (constants: seq<int>, objects: seq<nat>, kinds: seq<ParameterKind>, annotations: seq<Annotation>)
      ensures this.constants == constants && this.objects == objects
      ensures this.kinds == kinds && this.annotations == annotations
    {
      this.constants, this.objects, this.kinds, this.annotations := constants, objects, kinds, annotations;
    }

    method NextConstant() returns (c: int)
      requires constants != []
      modifies this`constants
      ensures c == old(constants)[0] && constants == old(constants)[1..]
    {
      c := constants[0];
      constants := constants[1..];
    }

    method NextKind() returns (k: ParameterKind)
      requires kinds != []
      modifies this`kinds
      ensures k == old(kinds)[0] && kinds == old(kinds)[1..]
    {
      k := kinds[0];
      kinds := kinds[1..];
    }

    method NextAnnotation() returns (n: Annotation)
      requires annotations != []
      modifies this`annotations
      ensures n == old(annotations)[0] && annotations == old(annotations)[1..]
    {
      n := annotations[0];
      annotations := annotations[1..];
    }

    /** read_static_axis_values */
    method ReadStaticValues(target: seq<Option<int>>, dims: seq<int>) returns (r: Result<seq<Option<int>>>)
      requires ReadStatic(target, dims, constants) != CheckFails
      modifies this`constants
      ensures match ReadStatic(target, dims, old(constants))
              case Parsed(t, rest) => r == Ok(t) && constants == rest
              case _ => r == Raised
    {
      var now := target;
      assert dims[0..] == dims;
      for k := 0 to |dims|
        invariant |now| == |target|
        invariant ReadStatic(target, dims, old(constants)) == ReadStatic(now, dims[k..], constants)
      {
        assert dims[k..][0] == dims[k] && dims[k..][1..] == dims[k + 1..];
        var axis := NormalizeDim(dims[k], |now|);
        assert axis.Ok?;
        if now[axis.value].Some? {
          return Raised;
        }
        var value := NextConstant();
        now := now[axis.value := Some(value)];
      }
      assert dims[|dims|..] == [];
      return Ok(now);
    }

    method ParseArray(n: Annotation) returns (r: Result<Constraint>)
      requires AreWords(constants) && ReadArray(n, constants) != CheckFails
      modifies this`constants
      ensures match ReadArray(n, old(constants))
              case Parsed(c, rest) => r == Ok(c) && constants == rest
              case _ => r == Raised
    {
      hide ReadStatic, UnpackArrayType, NoSizes, UnitStrides, WithUnitSizes;
      ghost var cs := constants;
      var packed := NextConstant();
      var word := NextConstant();
      assert cs[1..][1..] == cs[2..] && constants == cs[2..];
      var ty, bits := UnpackArrayType(packed), ToUnsigned(word);
      var shape := ReadStaticValues(NoSizes(ty.ndim), n.staticShapeDims);
      if shape == Raised {
        return Raised;
      }
      var strides := ReadStaticValues(UnitStrides(ty.ndim, bits), n.staticStrideDims);
      if strides == Raised {
        return Raised;
      }
      return Ok(ArrayConstraint(ty, bits, WithUnitSizes(shape.value, bits), strides.value));
    }

    method ParseInt() returns (v: int)
      requires AreWords(constants) && ReadInt(constants).Parsed?
      modifies this`constants
      ensures ReadInt(old(constants)) == Parsed(v, constants)
    {
      ghost var cs := constants;
      assert cs[1..][1..] == cs[2..];
      var format := NextConstant();
      if format == I64 {
        v := NextConstant();
      } else {
        assert format == U64;
        var word := NextConstant();
        v := ToUnsigned(word);
      }
    }

    /** parse_element_constraint */
    method ParseElement(c: Category, n: Annotation) returns (r: Result<Constraint>)
      requires AreWords(constants) && AreAddresses(objects) && ReadLeaf(c, n, objects, constants) != CheckFails
      modifies this`constants
      ensures match ReadLeaf(c, n, objects, old(constants))
              case Parsed(constraint, rest) => r == Ok(constraint) && constants == rest
              case _ => r == Raised
    {
      hide ReadArray, FindObject, LowBits, ReadInt;
      match c {
        case ConstantBool =>
          var word := NextConstant();
          r := Ok(ConstantConstraint(BoolValue(word != 0)));
        case ConstantInt =>
          IntIsNoError(constants);
          var v := ParseInt();
          r := Ok(ConstantConstraint(IntValue(v)));
        case ConstantFloat =>
          var word := NextConstant();
          r := Ok(ConstantConstraint(FloatValue(ToUnsigned(word))));
        case ConstantNone => r := Ok(ConstantConstraint(NoneValue));
        case IdentityConstant =>
          var word := NextConstant();
          var found := FindObject(objects, word);
          assert found.Some?;
          r := Ok(ConstantConstraint(ObjectValue(found.value)));
        case ArrayParameter => r := ParseArray(n);
        case PointerParameter =>
          var word := NextConstant();
          r := Ok(PointerConstraint(LowBits(ToUnsigned(word), 32)));
        case ListParameter =>
          var element := ParseArray(n);
          r := if element == Raised then Raised else Ok(ListConstraint(element.value));
        case _ => r := Ok(OtherConstraint(c));
      }
    }

    ghost predicate HasAhead(spec: Specializer, args: seq<Arg>, after: After)
      reads this
    {
      Ahead(spec, args, objects, constants, kinds, annotations, after)
    }

    /** parse_param_constraint: one argument, with all that is inside. */
    method ParseParam(ghost spec: Specializer, ghost args: seq<Arg>, ghost after: After) returns (r: Result<Constraint>)
      requires args != [] && HasAhead(spec, args, after)
      modifies this
      ensures AreLeaves(ArgLeaves(args[0])) && r == ArgMeaning(spec, args[0])
      ensures r.Ok? ==> HasAhead(spec, args[1..], after)
      decreases ArgSize(args[0]), 0
    {
      hide Ahead, Leaves, ArgLeaves, AllWritten, AreLeaves, ReadLeaf, Meaning, Meanings, IsLeaf, CategoryOf, Behind, Kinds;
      ghost var a := args[0];
      if a.Single? {
        AheadOfSingle(spec, args, objects, constants, kinds, annotations, after);
      } else {
        AheadOfAggregate(spec, args, objects, constants, kinds, annotations, after);
        AheadOfRest(spec, args, objects, after) by { AheadMeans(spec, args, objects, constants, kinds, annotations, after); }
        MeaningOfAggregate(spec, a);
      }
      var kind := NextKind();
      match kind {
        case AggregateBegin(id) =>
          ghost var behind := Behind(spec, args, after);
          var items := ParseItems(spec, a.items, behind.(kinds := [AggregateEnd] + behind.kinds));
          if items == Raised {
            return Raised;
          }
          var end := NextKind();
          assert end == AggregateEnd;
          return Ok(AggregateConstraint(id, items.value));
        case Parameter(category) =>
          var n := NextAnnotation();
          r := ParseElement(category, n);
        case AggregateEnd =>
          assert false;
          r := Raised;
      }
    }

    /** The loop over the arguments up to the end of their list. */
    method ParseItems(ghost spec: Specializer, ghost items: seq<Arg>, ghost after: After)
      returns (r: Result<seq<Constraint>>)
      requires HasAhead(spec, items, after) && after.kinds != [] && after.kinds[0] == AggregateEnd
      modifies this
      ensures AreLeaves(Leaves(items)) && r == Meanings(spec, items)
      ensures r.Ok? ==> constants == after.words && kinds == after.kinds && annotations == after.annotations
      decreases Size(items), 1
    {
      hide Ahead, Leaves, ArgLeaves, AllWritten, AreLeaves, Meanings, ArgMeaning, IsLeaf, Kinds;
      var parsed := [];
      ghost var left := items;
      AheadMeans(spec, items, objects, constants, kinds, annotations, after);
      NoneBefore(Meanings(spec, items));
      KindsStart(left, after.kinds);
      while kinds[0] != AggregateEnd
        invariant HasAhead(spec, left, after) && AreLeaves(Leaves(left)) && Size(left) <= Size(items)
        invariant kinds != [] && (kinds[0] == AggregateEnd <==> left == [])
        invariant Meanings(spec, items) == Joined(parsed, Meanings(spec, left))
        decreases |left|
      {
        MeaningsStep(spec, left);
        var item := ParseParam(spec, left, after);
        if item == Raised {
          return Raised;
        }
        JoinedOneMore(parsed, item.value, Meanings(spec, left[1..]));
        parsed := parsed + [item.value];
        left := left[1..];
        AheadMeans(spec, left, objects, constants, kinds, annotations, after);
        KindsStart(left, after.kinds);
      }
      NoMeanings(spec, parsed);
      AheadOfNothing(spec, objects, constants, kinds, annotations, after);
      return Ok(parsed);
    }

    /** parse_parameter_constraints: all arguments of a launch, from the constants that it has
        written. What is left at the end is the final sentinel, and nothing else. */
    method ParseParameterConstraints(ghost spec: Specializer, ghost args: seq<Arg>) returns (r: Result<seq<Constraint>>)
      requires AreLeaves(Leaves(args)) && AllWritten(spec, Leaves(args)) == Ok(constants)
      requires AreAddresses(objects) && Covers(objects, Leaves(args))
      requires kinds == Kinds(args) + [AggregateEnd] && annotations == Annotations(Leaves(args))
      modifies this
      ensures r == Meanings(spec, args)
    {
      ghost var after := After([], [AggregateEnd], []);
      assert constants + [] == constants && annotations + [] == annotations;
      r := ParseItems(spec, args, after);
      if r.Ok? {
        assert |kinds| == 1;
        assert |constants| == 0;
        assert |annotations| == 0;
      }
    }
  }

  // ---- Reading: the arguments of a launch site ----

  /** parse_native_arguments */
  class NativeParser {
    const objects: seq<nat>
    var constants: seq<int>

    constructor (constants: seq<int>, objects: seq<nat>)
      ensures this.constants == constants && this.objects == objects
    {
      this.constants, this.objects := constants, objects;
    }

    method Next() returns (c: int)
      requires constants != []
      modifies this`constants
      ensures c == old(constants)[0] && constants == old(constants)[1..]
    {
      c := constants[0];
      constants := constants[1..];
    }

    method SkipStaticValues(dims: seq<int>, ndim: nat) returns (ok: bool)
      requires SkipStatic(dims, ndim, constants) != CheckFails
      modifies this`constants
      ensures match SkipStatic(dims, ndim, old(constants))
              case Parsed(_, rest) => ok && constants == rest
              case _ => !ok
    {
      assert dims[0..] == dims;
      for k := 0 to |dims|
        invariant SkipStatic(dims, ndim, old(constants)) == SkipStatic(dims[k..], ndim, constants)
      {
        assert dims[k..][0] == dims[k] && dims[k..][1..] == dims[k + 1..];
        if NormalizeDim(dims[k], ndim) == Raised {
          return false;
        }
        var value := Next();
      }
      assert dims[|dims|..] == [];
      return true;
    }

    method ParseArray(n: Annotation) returns (r: Result<NativeArgument>)
      requires AreWords(constants) && ReadNative(ArrayParameter, n, None, [], constants) != CheckFails
      modifies this`constants
      ensures match ReadNative(ArrayParameter, n, None, [], old(constants))
              case Parsed(argument, rest) => r == Ok(argument) && constants == rest
              case _ => r == Raised
    {
      hide SkipStatic, UnpackArrayType;
      ghost var cs := constants;
      var packed := Next();
      var bits := Next();
      assert cs[1..][1..] == cs[2..];
      var ty := UnpackArrayType(packed);
      var shape := SkipStaticValues(n.staticShapeDims, ty.ndim);
      if !shape {
        return Raised;
      }
      var strides := SkipStaticValues(n.staticStrideDims, ty.ndim);
      if !strides {
        return Raised;
      }
      return Ok(NativeArgument(ArrayParameter, ty, 0, false, 0));
    }

    /** parse_native_leaf_argument */
    method ParseLeaf(c: Category, n: Annotation, unsignedSource: Option<bool>) returns (r: Result<NativeArgument>)
      requires AreWords(constants) && AreAddresses(objects)
      requires ReadNative(c, n, unsignedSource, objects, constants) != CheckFails
      modifies this`constants
      ensures match ReadNative(c, n, unsignedSource, objects, old(constants))
              case Parsed(argument, rest) => r == Ok(argument) && constants == rest
              case _ => r == Raised
    {
      hide FindObject, LowBits, SkipStatic, UnpackArrayType;
      ghost var cs := constants;
      match c {
        case IdentityConstant =>
          var word := Next();
          var found := FindObject(objects, word);
          assert found.Some?;
          return Ok(NativeArgument(c, NO_ARRAY, 0, false, found.value));
        case ArrayParameter => r := ParseArray(n);
        case PointerParameter =>
          var word := Next();
          return Ok(NativeArgument(c, NO_ARRAY, LowBits(ToUnsigned(word), 32), false, 0));
        case StreamParameter => return Raised;
        case ListParameter => return Raised;
        case ConstantInt =>
          assert cs[1..][1..] == cs[2..];
          var format := Next();
          assert format == I64 || format == U64;
          var word := Next();
          if unsignedSource == None {
            return Raised;
          }
          return Ok(NativeArgument(c, NO_ARRAY, 0, unsignedSource.value, 0));
        case Integer =>
          if unsignedSource == None {
            return Raised;
          }
          return Ok(NativeArgument(c, NO_ARRAY, 0, unsignedSource.value, 0));
        case ConstantBool =>
          var word := Next();
          return Ok(NativeArgument(c, NO_ARRAY, 0, false, 0));
        case ConstantFloat =>
          var word := Next();
          return Ok(NativeArgument(c, NO_ARRAY, 0, false, 0));
        case _ => return Ok(NativeArgument(c, NO_ARRAY, 0, false, 0));
      }
    }

    /** The loop over the parameters, with a cursor for the annotations and one for the sources. */
    method ParseArguments(
        ghost spec: Specializer, ghost leaves: seq<LeafArg>, kinds: seq<ParameterKind>, annotations: seq<Annotation>,
        sources: seq<Option<bool>>)
      returns (r: Result<seq<NativeArgument>>)
      requires AreLeaves(leaves) && AllWritten(spec, leaves) == Ok(constants)
      requires AreAddresses(objects) && Covers(objects, leaves)
      requires PlainKinds(kinds) == Categories(leaves) && annotations == Annotations(leaves) && |sources| == |leaves|
      modifies this`constants
      ensures r == AllKept(leaves, sources)
    {
      hide ReadNative, Kept, AllKept, AllWritten, AreLeaves, Covers, CategoryOf, AreWords, AreAddresses, PlainKinds;
      var parsed := [];
      var k := 0;
      assert kinds[0..] == kinds && leaves[0..] == leaves && sources[0..] == sources;
      NothingKept(AllKept(leaves, sources));
      for i := 0 to |kinds|
        invariant k <= |leaves| && PlainKinds(kinds[i..]) == Categories(leaves[k..])
        invariant AreLeaves(leaves[k..]) && AllWritten(spec, leaves[k..]) == Ok(constants) && Covers(objects, leaves[k..])
        invariant AllKept(leaves, sources) == JoinedArguments(parsed, AllKept(leaves[k..], sources[k..]))
      {
        assert kinds[i..][0] == kinds[i] && kinds[i..][1..] == kinds[i + 1..];
        FirstKind(kinds[i..], leaves[k..]);
        if kinds[i].Parameter? {
          assert leaves[k..][0] == leaves[k] && leaves[k..][1..] == leaves[k + 1..];
          assert sources[k..][0] == sources[k] && sources[k..][1..] == sources[k + 1..];
          NextNative(spec, leaves[k..], sources[k], objects);
          KeptOneMore(parsed, leaves[k..], sources[k..]);
          var argument := ParseLeaf(kinds[i].category, annotations[k], sources[k]);
          if argument == Raised {
            return Raised;
          }
          parsed := parsed + [argument.value];
          k := k + 1;
        }
      }
      NothingLeft(spec, kinds[|kinds|..], leaves[k..], sources[k..], parsed);
      assert |constants| == 0;
      assert k == |annotations|;
      assert k == |sources|;
      return Ok(parsed);
    }
  }

  lemma NothingKept(rest: Result<seq<NativeArgument>>)
    ensures JoinedArguments([], rest) == rest
  {
    if rest.Ok? {
      assert [] + rest.value == rest.value;
    }
  }

  lemma FirstKind(kinds: seq<ParameterKind>, leaves: seq<LeafArg>)
    requires kinds != [] && PlainKinds(kinds) == Categories(leaves)
    ensures kinds[0].Parameter? ==>
              leaves != [] && kinds[0].category == CategoryOf(leaves[0].leaf) && PlainKinds(kinds[1..]) == Categories(leaves[1..])
    ensures !kinds[0].Parameter? ==> PlainKinds(kinds[1..]) == Categories(leaves)
  {
    hide CategoryOf, PlainKinds, Categories;
    KindsStep(kinds);
    CategoriesStep(leaves);
    if kinds[0].Parameter? {
      SameTails(kinds[0].category, PlainKinds(kinds[1..]), Categories(leaves));
      if leaves != [] {
        SameTails(CategoryOf(leaves[0].leaf), Categories(leaves[1..]), Categories(leaves));
      }
    }
  }

  lemma KindsStep(kinds: seq<ParameterKind>)
    requires kinds != []
    ensures kinds[0].Parameter? ==> PlainKinds(kinds) == [kinds[0].category] + PlainKinds(kinds[1..])
    ensures !kinds[0].Parameter? ==> PlainKinds(kinds) == PlainKinds(kinds[1..])
  {
    assert [] + PlainKinds(kinds[1..]) == PlainKinds(kinds[1..]);
  }

  lemma CategoriesStep(leaves: seq<LeafArg>)
    ensures |Categories(leaves)| == |leaves|
    ensures leaves != [] ==> Categories(leaves) == [CategoryOf(leaves[0].leaf)] + Categories(leaves[1..])
  {
    hide CategoryOf;
  }

  lemma SameTails<T>(first: T, rest: seq<T>, all: seq<T>)
    requires all == [first] + rest
    ensures all != [] && all[0] == first && all[1..] == rest
  {
  }

  lemma NothingLeft(
      spec: Specializer, kinds: seq<ParameterKind>, leaves: seq<LeafArg>, sources: seq<Option<bool>>,
      parsed: seq<NativeArgument>)
    requires kinds == [] && PlainKinds(kinds) == Categories(leaves) && |sources| == |leaves| && AreLeaves(leaves)
    ensures leaves == [] && AllWritten(spec, leaves) == Ok([])
    ensures JoinedArguments(parsed, AllKept(leaves, sources)) == Ok(parsed)
  {
    assert |Categories(leaves)| == |leaves|;
    assert parsed + [] == parsed;
  }

  // ---- From arguments to constraints ----

  /** A launch that finds no kernel: the arguments are written, the compute capability is added to
      the key, and the constraints are read from the constants without it. */
  method MakeSignature(helper: LaunchHelper, args: seq<Arg>, computeCapability: int)
    returns (r: Result<seq<Constraint>>)
    requires AreLeaves(Leaves(args))
    modifies helper
    ensures match AllWritten(helper.specialize, Leaves(args))
            case Raised => r == Raised
            case Ok(words) =>
              r == Meanings(helper.specialize, args) && helper.constants == words + [computeCapability]
  {
    hide AllWritten, Meanings, Leaves, AreLeaves, Kinds, Covers, AreAddresses;
    var leaves := Leaves(args);
    var ok := helper.ExtractArgs(leaves);
    if !ok {
      return Raised;
    }
    helper.constants := helper.constants + [computeCapability];
    var constants := helper.constants[..|helper.constants| - 1];
    ObjectsAreWritten(leaves);
    var parser := new ConstraintParser(
      constants, helper.identityConstants, Kinds(args) + [AggregateEnd], Annotations(leaves));
    r := parser.ParseParameterConstraints(helper.specialize, args);
  }

  /** The launch site of compiled host code, from the arguments that stand for the host's values. */
  method MakeLaunchSite(helper: LaunchHelper, args: seq<Arg>, sources: seq<Option<bool>>)
    returns (r: Result<seq<NativeArgument>>)
    requires AreLeaves(Leaves(args)) && |sources| == |Leaves(args)|
    modifies helper
    ensures match AllWritten(helper.specialize, Leaves(args))
            case Raised => r == Raised
            case Ok(_) => r == AllKept(Leaves(args), sources)
  {
    hide AllWritten, AllKept, Leaves, AreLeaves, Kinds, Covers, AreAddresses, PlainKinds, Categories;
    var leaves := Leaves(args);
    var ok := helper.ExtractArgs(leaves);
    if !ok {
      return Raised;
    }
    ObjectsAreWritten(leaves);
    KindsOfLeaves(args);
    PlainKindsSum(Kinds(args), [AggregateEnd]);
    KindsWithoutCategory(AggregateEnd);
    assert Categories(leaves) + [] == Categories(leaves);
    var parser := new NativeParser(helper.constants, helper.identityConstants);
    r := parser.ParseArguments(helper.specialize, leaves, Kinds(args) + [AggregateEnd], Annotations(leaves), sources);
  }

  lemma IntIsNoError(cs: seq<int>)
    requires AreWords(cs) && ReadInt(cs) != CheckFails
    ensures ReadInt(cs).Parsed?
  {
  }

  lemma AheadMeans(
      spec: Specializer, args: seq<Arg>, objects: seq<nat>, constants: seq<int>, kinds: seq<ParameterKind>,
      annotations: seq<Annotation>, after: After)
    requires Ahead(spec, args, objects, constants, kinds, annotations, after)
    ensures AreLeaves(Leaves(args)) && AllWritten(spec, Leaves(args)).Ok?
    ensures AreWords(after.words) && AreAddresses(objects) && Covers(objects, Leaves(args))
    ensures kinds == Kinds(args) + after.kinds
  {
  }

  lemma MeaningOfAggregate(spec: Specializer, a: Arg)
    requires a.Aggregate? && AreLeaves(ArgLeaves(a))
    ensures AreLeaves(Leaves(a.items)) && ArgSize(a) == 1 + Size(a.items)
    ensures ArgMeaning(spec, a) == match Meanings(spec, a.items)
                                   case Raised => Raised
                                   case Ok(cs) => Ok(AggregateConstraint(a.id, cs))
  {
  }

  function Joined(parsed: seq<Constraint>, rest: Result<seq<Constraint>>): Result<seq<Constraint>> {
    match rest
    case Raised => Raised
    case Ok(cs) => Ok(parsed + cs)
  }

  lemma NoneBefore(rest: Result<seq<Constraint>>)
    ensures Joined([], rest) == rest
  {
    if rest.Ok? {
      assert [] + rest.value == rest.value;
    }
  }

  lemma JoinedOneMore(parsed: seq<Constraint>, c: Constraint, rest: Result<seq<Constraint>>)
    ensures Joined(parsed, Precede(c, rest)) == Joined(parsed + [c], rest)
  {
    if rest.Ok? {
      assert parsed + ([c] + rest.value) == parsed + [c] + rest.value;
    }
  }

  lemma NoMeanings(spec: Specializer, parsed: seq<Constraint>)
    ensures AreLeaves(Leaves([])) && Joined(parsed, Meanings(spec, [])) == Ok(parsed)
  {
    assert parsed + [] == parsed;
  }

  lemma MeaningsStep(spec: Specializer, args: seq<Arg>)
    requires args != [] && AreLeaves(Leaves(args))
    ensures AreLeaves(ArgLeaves(args[0])) && AreLeaves(Leaves(args[1..]))
    ensures Size(args) == ArgSize(args[0]) + Size(args[1..])
    ensures Meanings(spec, args) == match ArgMeaning(spec, args[0])
                                    case Raised => Raised
                                    case Ok(c) => Precede(c, Meanings(spec, args[1..]))
  {
    LeavesSplit(args);
    hide ArgMeaning;
  }
}
