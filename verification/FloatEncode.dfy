/** encode_float_parts and double_nonfinite_to_bits, as functions of their inputs, and what the
    encoding they return means. */
module FloatEncode {
  import opened PowersOfTwo
  import opened FloatFormats
  import opened FloatRounding

  datatype Conversion = Ok(bits: nat) | NegativeNotRepresentable | NanNotRepresentable

  const F64_INFINITY: nat := 0x7ff0_0000_0000_0000

  function SignBit(sign: bool): nat { if sign then 1 else 0 }

  /** An encoding with the given sign and magnitude. */
  function Packed(fmt: FloatFormat, sign: bool, m: nat): nat {
    Shl(SignBit(sign), fmt.expBits + fmt.precision) + m
  }

  // ---- What a conversion has to return ----

  /** A number too large for the format becomes infinity in an IEEE format, NaN in a format that
      only has NaN (its all-ones encoding), and the largest finite number otherwise. */
  function Overflow(fmt: FloatFormat, sign: bool): Conversion {
    match fmt.nonFinite
    case FiniteOnly => Ok(Packed(fmt, sign, FirstInvalid(fmt) - 1))
    case _ => Ok(Packed(fmt, sign, FirstInvalid(fmt)))
  }

  /** Result r is x, negated if sign is set, rounded to the format. */
  ghost predicate CorrectlyConverted(fmt: FloatFormat, sign: bool, x: real, r: Conversion) {
    if sign && !fmt.haveSign then r == NegativeNotRepresentable
    else exists m: nat :: RoundsTo(fmt, m, x) &&
           r == if m < FirstInvalid(fmt) then Ok(Packed(fmt, sign, m)) else Overflow(fmt, sign)
  }

  /** The specification leaves no choice. */
  lemma ConversionIsUnique(fmt: FloatFormat, sign: bool, x: real, r: Conversion, r': Conversion)
    requires CorrectlyConverted(fmt, sign, x, r) && CorrectlyConverted(fmt, sign, x, r')
    ensures r == r'
  {
    hide RoundsTo;
    if !sign || fmt.haveSign {
      var m: nat :| RoundsTo(fmt, m, x) &&
        r == if m < FirstInvalid(fmt) then Ok(Packed(fmt, sign, m)) else Overflow(fmt, sign);
      var k: nat :| RoundsTo(fmt, k, x) &&
        r' == if k < FirstInvalid(fmt) then Ok(Packed(fmt, sign, k)) else Overflow(fmt, sign);
      RoundingIsUnique(fmt, m, k, x);
    }
  }

  // ---- The code ----

  function NonFiniteToBits(f64Bits: nat, fmt: FloatFormat): Conversion
    requires WellFormed(fmt)
  {
    var f64Sign := Shr(f64Bits, 63);
    var signBit := Shr(Shl(f64Sign, 63), 64 - fmt.bitwidth);
    var isNan := LowBits(f64Bits, 52) != 0;
    if f64Sign != 0 && !isNan && !fmt.haveSign then NegativeNotRepresentable
    else
      var allOnesButSign := Pow2(fmt.bitwidth - 1) - 1;
      match fmt.nonFinite
      case NanOnlyAllOnes =>
        Ok(if fmt.haveSign then BitOr(signBit, allOnesButSign) else Pow2(fmt.bitwidth) - 1)
      case FiniteOnly =>
        if isNan then NanNotRepresentable else Ok(BitOr(signBit, allOnesButSign))
      case IEEE =>
        var signAndExp := Shl(Shr(f64Bits, 63 - fmt.expBits), fmt.precision);
        var payload := if isNan && LowBits(Shr(f64Bits, 51), 1) == 0 then 1
                       else LowBits(Shr(f64Bits, 52 - fmt.precision), fmt.precision);
        Ok(BitOr(signAndExp, payload))
  }

  function EncodeParts(fmt: FloatFormat, sign: bool, e: int, num: nat, n: nat): Conversion
    requires WellFormed(fmt) && n >= fmt.precision + 1
  {
    if sign && !fmt.haveSign then NegativeNotRepresentable
    else
      var f64Inf := BitOr(Shl(SignBit(sign), 63), F64_INFINITY);
      if e > fmt.emax then NonFiniteToBits(f64Inf, fmt)
      else if e < fmt.emin && !fmt.haveZeroAndSubnormals then Ok(0)
      else
        var significand := RoundSignificand(BitsToKeep(fmt, e), num, n);
        var enc := AssembleCode(fmt, Max(e, fmt.emin), significand);
        if enc >= FirstInvalid(fmt) then NonFiniteToBits(f64Inf, fmt)
        else Ok(BitOr(Shl(SignBit(sign), fmt.bitwidth - 1), enc))
  }

  /** The 64-bit sum of the shifted exponent and the significand. Without subnormals, the
      exponent at emin is minus one, and the sum wraps around. */
  function AssembleCode(fmt: FloatFormat, e: int, significand: nat): nat {
    var biasedMinusOne := (e - fmt.emin - (if fmt.haveZeroAndSubnormals then 0 else 1)) % TWO_64;
    (Shl64(biasedMinusOne, fmt.precision) + significand) % TWO_64
  }

  // ---- Bit fields ----

  /** The bits of a binary64 number with the given fields. */
  function F64Bits(sign: bool, field: nat, mantissa: nat): nat {
    Shl(SignBit(sign), 63) + Shl(field, 52) + mantissa
  }

  lemma F64Fields(sign: bool, field: nat, mantissa: nat)
    requires field < Pow2(11) && mantissa < Pow2(52)
    ensures var bits := F64Bits(sign, field, mantissa);
            && Shr(bits, 63) == SignBit(sign)
            && LowBits(bits, 52) == mantissa
            && LowBits(Shr(bits, 52), 11) == field
            && Shl(field, 52) + mantissa < Pow2(63)
            && LowBits(bits, 63) == Shl(field, 52) + mantissa
  {
    hide Shl, Shr, LowBits, Pow2;
    var bits := F64Bits(sign, field, mantissa);
    var low := Shl(field, 52) + mantissa;
    ShlSum(field, 1, 52);
    Pow2IsShl(52);
    ShlMonotone(field + 1, Pow2(11), 52);
    ShlOfPow2(11, 52);
    SplitUnique(SignBit(sign), low, 63);
    ShlShl(SignBit(sign), 11, 52);
    ShlSum(Shl(SignBit(sign), 11), field, 52);
    SplitUnique(Shl(SignBit(sign), 11) + field, mantissa, 52);
    SplitUnique(SignBit(sign), field, 11);
  }

  lemma InfinityBits(sign: bool)
    ensures BitOr(Shl(SignBit(sign), 63), F64_INFINITY) == F64Bits(sign, 0x7ff, 0)
  {
    hide Shl, Pow2, BitOr;
    Pow2Of63And64();
    BitOrDisjoint(SignBit(sign), 63, F64_INFINITY);
    ShlIsProduct(0x7ff, 52);
    assert Pow2(52) == 0x10_0000_0000_0000 by {
      Pow2Of52();
    }
  }

  lemma Pow2Of52()
    ensures Pow2(52) == 0x10_0000_0000_0000 && Pow2(11) == 2048
  {
    assert Pow2(8) == 0x100;
    assert Pow2(16) == 0x1_0000;
    assert Pow2(24) == 0x100_0000;
    assert Pow2(32) == 0x1_0000_0000;
    assert Pow2(40) == 0x100_0000_0000;
    assert Pow2(48) == 0x1_0000_0000_0000;
  }

  /** The sign bit, moved from the top of a binary64 number to the top of the format. */
  lemma MovedSign(fmt: FloatFormat, s: nat)
    requires WellFormed(fmt) && fmt.haveSign
    ensures Shr(Shl(s, 63), 64 - fmt.bitwidth) == Shl(s, fmt.expBits + fmt.precision)
    ensures fmt.bitwidth - 1 == fmt.expBits + fmt.precision
  {
    hide Shl, Shr, Pow2;
    var w := fmt.expBits + fmt.precision;
    ShlShl(s, w, 63 - w);
    SplitUnique(Shl(s, w), 0, 63 - w);
  }

  /** The sign and the top of the all-ones exponent of a non-finite binary64 number. */
  lemma SignAndExponent(expBits: nat, sign: bool, mantissa: nat)
    requires expBits <= 11 && mantissa < Pow2(52)
    ensures Shr(F64Bits(sign, 0x7ff, mantissa), 63 - expBits)
            == Shl(SignBit(sign), expBits) + (Pow2(expBits) - 1)
  {
    hide Shl, Shr, Pow2, LowBits;
    var s := SignBit(sign);
    Pow2Of52();
    Pow2Of63And64();
    ShlSum(0x7ff, 1, 52);
    Pow2IsShl(52);
    ShlOfPow2(11, 52);
    var k := 63 - expBits;
    ShlOfPow2(expBits, k);
    ShlSum(Pow2(expBits) - 1, 1, k);
    Pow2IsShl(k);
    Pow2Monotone(52, k);
    var rest := Pow2(k) - Pow2(52) + mantissa;
    ShlShl(s, expBits, k);
    ShlSum(Shl(s, expBits), Pow2(expBits) - 1, k);
    assert F64Bits(sign, 0x7ff, mantissa) == Shl(Shl(s, expBits) + (Pow2(expBits) - 1), k) + rest;
    SplitUnique(Shl(s, expBits) + (Pow2(expBits) - 1), rest, k);
  }

  // ---- Infinities and NaNs ----

  lemma FirstInvalidBounds(fmt: FloatFormat)
    requires WellFormed(fmt)
    ensures 0 < FirstInvalid(fmt) <= Pow2(fmt.expBits + fmt.precision)
    ensures Shl(TopExponentField(fmt) + 1, fmt.precision) >= FirstInvalid(fmt)
    ensures fmt.nonFinite == IEEE ==>
              FirstInvalid(fmt) + Pow2(fmt.precision) == Pow2(fmt.expBits + fmt.precision)
  {
    hide Shl, Pow2;
    var p, eb := fmt.precision, fmt.expBits;
    Pow2AtLeastTwo(eb);
    ShlOfPow2(eb, p);
    ShlSum(Pow2(eb) - 1, 1, p);
    Pow2IsShl(p);
    ShlMonotone(1, Pow2(eb) - 1, p);
    Pow2AtLeastTwo(eb + p);
    if p == 0 {
      assert Shl(Pow2(eb) - 1, p) == Pow2(eb) - 1 by { ShlBy0(Pow2(eb) - 1); }
    }
  }

  lemma Pow2AtLeastTwo(k: nat)
    requires k >= 1
    ensures Pow2(k) >= 2
  {
  }

  /** Each non-finite binary64 number: an infinity is an overflow; a NaN stays a NaN with the
      upper part of its payload, a signaling one with payload 1. */
  function NonFiniteMeaning(fmt: FloatFormat, sign: bool, mantissa: nat): Conversion
    requires WellFormed(fmt)
  {
    if mantissa == 0 then
      if sign && !fmt.haveSign then NegativeNotRepresentable else Overflow(fmt, sign)
    else
      match fmt.nonFinite
      case FiniteOnly => NanNotRepresentable
      case NanOnlyAllOnes => Ok(Packed(fmt, sign && fmt.haveSign, FirstInvalid(fmt)))
      case IEEE =>
        Ok(Packed(fmt, sign, FirstInvalid(fmt) + NanPayload(fmt, mantissa)))
  }

  function NanPayload(fmt: FloatFormat, mantissa: nat): nat
    requires WellFormed(fmt)
  {
    if mantissa < Pow2(51) then 1 else Shr(mantissa, 52 - fmt.precision)
  }

  lemma PackedByOr(fmt: FloatFormat, sign: bool, m: nat)
    requires WellFormed(fmt) && (sign ==> fmt.haveSign) && m < Pow2(fmt.expBits + fmt.precision)
    ensures BitOr(Shl(SignBit(sign), fmt.bitwidth - 1), m) == Packed(fmt, sign, m)
  {
    if fmt.haveSign {
      BitOrDisjoint(SignBit(sign), fmt.expBits + fmt.precision, m);
    } else {
      ShlZero(fmt.bitwidth - 1);
      ShlZero(fmt.expBits + fmt.precision);
    }
  }

  lemma PayloadBits(p: nat, mantissa: nat)
    requires 1 <= p <= 52 && mantissa < Pow2(52)
    ensures Shr(mantissa, 52 - p) < Pow2(p)
    ensures LowBits(mantissa, 52) == mantissa
    ensures mantissa >= Pow2(51) ==> Shr(mantissa, 52 - p) >= Pow2(p - 1)
    ensures Shr(mantissa, 51) == 0 <==> mantissa < Pow2(51)
  {
    hide Shr, LowBits, Pow2;
    ShrBound(mantissa, 52 - p, p);
    ShrBound(mantissa, 52 - p, p - 1);
    ShrBound(mantissa, 51, 0);
    Pow2OfZero();
    SplitUnique(0, mantissa, 52);
    ShlZero(52);
  }

  lemma Pow2OfZero()
    ensures Pow2(0) == 1
  {
  }

  lemma FieldBelow(bits: nat, mantissa: nat, a: nat, b: nat)
    requires a + b == 52 && LowBits(bits, 52) == mantissa
    ensures LowBits(Shr(bits, a), b) == Shr(mantissa, a)
  {
    FieldOf(bits, a, b);
  }

  lemma NonFiniteCorrect(fmt: FloatFormat, sign: bool, mantissa: nat)
    requires WellFormed(fmt) && mantissa < Pow2(52)
    ensures NonFiniteToBits(F64Bits(sign, 0x7ff, mantissa), fmt) == NonFiniteMeaning(fmt, sign, mantissa)
  {
    hide Shl, Shr, LowBits, Pow2, F64Bits, BitOr;
    Pow2Of52();
    F64Fields(sign, 0x7ff, mantissa);
    if fmt.haveSign {
      MovedSign(fmt, SignBit(sign));
    }
    match fmt.nonFinite
    case NanOnlyAllOnes =>
      if fmt.haveSign {
        BitOrDisjoint(SignBit(sign), fmt.expBits + fmt.precision, Pow2(fmt.bitwidth - 1) - 1);
      } else {
        ShlZero(fmt.expBits + fmt.precision);
      }
    case FiniteOnly =>
      BitOrDisjoint(SignBit(sign), fmt.expBits + fmt.precision, Pow2(fmt.bitwidth - 1) - 1);
    case IEEE =>
      IeeeNonFinite(fmt, sign, mantissa);
  }

  lemma IeeeNonFinite(fmt: FloatFormat, sign: bool, mantissa: nat)
    requires WellFormed(fmt) && mantissa < Pow2(52) && fmt.nonFinite == IEEE
    ensures NonFiniteToBits(F64Bits(sign, 0x7ff, mantissa), fmt) == NonFiniteMeaning(fmt, sign, mantissa)
  {
    hide Shl, Shr, LowBits, Pow2, F64Bits, BitOr;
    var bits, p, eb := F64Bits(sign, 0x7ff, mantissa), fmt.precision, fmt.expBits;
    Pow2Of52();
    F64Fields(sign, 0x7ff, mantissa);
    SignAndExponent(eb, sign, mantissa);
    PayloadBits(p, mantissa);
    Pow2AtLeastTwo(p);
    FieldBelow(bits, mantissa, 51, 1);
    FieldBelow(bits, mantissa, 52 - p, p);
    var top := Shl(SignBit(sign), eb) + (Pow2(eb) - 1);
    var payload := if mantissa != 0 && mantissa < Pow2(51) then 1 else Shr(mantissa, 52 - p);
    BitOrDisjoint(top, p, payload);
    ShlSum(Shl(SignBit(sign), eb), Pow2(eb) - 1, p);
    ShlShl(SignBit(sign), eb, p);
    if mantissa == 0 {
      ShrOfZero(52 - p);
    }
  }

  lemma {:induction false} ShrOfZero(k: nat)
    ensures Shr(0, k) == 0
  {
    if k > 0 {
      ShrOfZero(k - 1);
    }
  }

  // ---- Finite numbers ----

  lemma PastEmaxIsInvalid(fmt: FloatFormat, e: int, num: nat, n: nat)
    requires WellFormed(fmt) && n >= fmt.precision + 1 && Normalized(num, n) && e > fmt.emax
    ensures UnboundedCode(fmt, e, num, n) >= FirstInvalid(fmt)
  {
    hide Shl, Pow2, RoundSignificand, FirstInvalid;
    var p := fmt.precision;
    KeptBitsBounds(fmt, e, num, n);
    FirstInvalidBounds(fmt);
    Pow2IsShl(p);
    ShlSum(e - fmt.emin, 1, p);
    ShlMonotone(fmt.emax - fmt.emin + 1, e - fmt.emin, p);
    ShlSum(fmt.emax - fmt.emin + 1, 1, p);
  }

  /** The 64-bit sum is the mathematical one. */
  lemma AssembledCode(fmt: FloatFormat, top: int, sig: nat)
    requires WellFormed(fmt) && fmt.emin <= top <= fmt.emax && sig <= Pow2(fmt.precision + 1)
    requires !fmt.haveZeroAndSubnormals ==> sig >= Pow2(fmt.precision)
    ensures AssembleCode(fmt, top, sig) == Shl(top - fmt.emin, fmt.precision) + sig - SkippedCodes(fmt)
  {
    hide Shl, Pow2, Shl64, TopExponentField, WellFormed;
    var p := fmt.precision;
    Pow2IsShl(p);
    NoWordOverflow(fmt, top);
    Pow2Next(p);
    if fmt.haveZeroAndSubnormals {
      Shl64Exact(top - fmt.emin, p);
    } else if top == fmt.emin {
      Shl64OfMinusOne(p);
      ShlZero(p);
    } else {
      ShlSum(top - fmt.emin - 1, 1, p);
      Shl64Exact(top - fmt.emin - 1, p);
    }
  }

  lemma NoWordOverflow(fmt: FloatFormat, top: int)
    requires WellFormed(fmt) && fmt.emin <= top <= fmt.emax
    ensures top - fmt.emin < TWO_64 && fmt.precision <= 52
    ensures Shl(top - fmt.emin, fmt.precision) + 2 * Pow2(fmt.precision) < TWO_64
  {
    hide Shl, Pow2;
    Pow2Of63And64();
    var p, eb := fmt.precision, fmt.expBits;
    var d := top - fmt.emin;
    Pow2Monotone(eb, 11);
    Pow2Of52();
    Pow2Next(11);
    ShlSum(d, 1, p);
    ShlSum(d + 1, 1, p);
    Pow2IsShl(p);
    ShlOrder(d + 2, Pow2(12), p);
    ShlOfPow2(12, p);
    Pow2Monotone(12 + p, 64);
  }

  /** The main result for encode_float_parts, for every format, sign, exponent and significand. */
  lemma EncodePartsCorrect(fmt: FloatFormat, sign: bool, e: int, num: nat, n: nat)
    requires WellFormed(fmt) && n >= fmt.precision + 1 && Normalized(num, n)
    ensures CorrectlyConverted(fmt, sign, PartsValue(e, num, n), EncodeParts(fmt, sign, e, num, n))
  {
    hide RoundsTo, Shl, Pow2, BitOr, FirstInvalid, AssembleCode, RoundSignificand, NonFiniteToBits,
      F64Bits, SkippedCodes, Packed, PartsValue;
    if !sign || fmt.haveSign {
      UnboundedCodeRounds(fmt, e, num, n);
      FirstInvalidBounds(fmt);
      InfinityBits(sign);
      Pow2Of52();
      NonFiniteCorrect(fmt, sign, 0);
      var m := UnboundedCode(fmt, e, num, n);
      if e > fmt.emax {
        PastEmaxIsInvalid(fmt, e, num, n);
      } else if fmt.emin <= e || fmt.haveZeroAndSubnormals {
        KeptBitsBounds(fmt, e, num, n);
        AssembledCode(fmt, Max(e, fmt.emin), RoundSignificand(BitsToKeep(fmt, e), num, n));
      }
      if m < FirstInvalid(fmt) {
        PackedByOr(fmt, sign, m);
        if e < fmt.emin && !fmt.haveZeroAndSubnormals {
          PackedZero(fmt);
        }
      }
    }
  }

  lemma PackedZero(fmt: FloatFormat)
    ensures Packed(fmt, false, 0) == 0
  {
    ShlZero(fmt.expBits + fmt.precision);
  }
}
