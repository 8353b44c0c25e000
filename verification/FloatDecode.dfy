/** decode_float: it is exact, and encoding undoes it. */
module FloatDecode {
  import opened PowersOfTwo
  import opened FloatFormats
  import opened FloatRounding
  import opened FloatEncode
  import opened FloatConversions

  function DecodeFloat(fmt: FloatFormat, bits: nat): nat
    requires WellFormed(fmt)
  {
    if fmt == FLOAT64 then bits
    else
      var p := fmt.precision;
      var expMask := Pow2(fmt.expBits) - 1;
      var biasedExp := LowBits(Shr(bits, p), fmt.expBits);
      var mantissaMask := Pow2(p) - 1;
      var mantissa := LowBits(bits, p);
      var f64Sign := if fmt.haveSign then Shl(Shr(Shl64(bits, 64 - fmt.bitwidth), 63), 63) else 0;
      var nonFinite := biasedExp == expMask && match fmt.nonFinite
        case IEEE => true
        case NanOnlyAllOnes => mantissa == mantissaMask
        case FiniteOnly => false;
      if nonFinite then
        AssembleF64(if p == 0 then BitOr(f64Sign, Shl(1, 51)) else f64Sign, 0x7ff, mantissa, p)
      else if biasedExp == 0 && fmt.haveZeroAndSubnormals then
        if mantissa != 0 then
          // a subnormal number becomes normal
          var shift := p - BitLength(mantissa) + 1;
          LeadingBitMoves(p, mantissa);
          AssembleF64(f64Sign, fmt.emin + 1023 - shift, LowBits(Shl(mantissa, shift), p), p)
        else
          AssembleF64(f64Sign, 0, mantissa, p)
      else
        AssembleF64(f64Sign,
          biasedExp - (if fmt.haveZeroAndSubnormals then 1 else 0) + fmt.emin + 1023, mantissa, p)
  }

  function AssembleF64(f64Sign: nat, f64Exp: int, mantissa: nat, p: nat): nat
    requires p <= 52
  {
    BitOr(f64Sign, BitOr(Shl(f64Exp % TWO_64, 52), Shl(mantissa, 52 - p)))
  }

  /** The magnitude and the sign of an encoding. */
  function MagnitudeOf(fmt: FloatFormat, bits: nat): nat { LowBits(bits, fmt.expBits + fmt.precision) }

  function SignOf(fmt: FloatFormat, bits: nat): bool {
    fmt.haveSign && Shr(bits, fmt.expBits + fmt.precision) == 1
  }

  ghost predicate IsEncoding(fmt: FloatFormat, bits: nat) { bits < Pow2(fmt.bitwidth) }

  // ---- Fields of the argument ----

  lemma {:induction false} LowLow(x: nat, a: nat, b: nat)
    ensures LowBits(LowBits(x, a + b), a) == LowBits(x, a)
  {
    if a > 0 {
      LowLow(x / 2, a - 1, b);
      assert LowBits(x, a + b) / 2 == LowBits(x / 2, a - 1 + b);
    }
  }

  lemma EncodingParts(fmt: FloatFormat, bits: nat)
    requires WellFormed(fmt) && IsEncoding(fmt, bits)
    ensures bits == Packed(fmt, SignOf(fmt, bits), MagnitudeOf(fmt, bits))
    ensures var m := MagnitudeOf(fmt, bits);
            && LowBits(Shr(bits, fmt.precision), fmt.expBits) == Shr(m, fmt.precision)
            && LowBits(bits, fmt.precision) == LowBits(m, fmt.precision)
            && Shr(m, fmt.precision) < Pow2(fmt.expBits)
            && m < Pow2(fmt.expBits + fmt.precision)
            && m == Shl(Shr(m, fmt.precision), fmt.precision) + LowBits(m, fmt.precision)
  {
    hide Shl, Shr, LowBits, Pow2;
    var p, eb := fmt.precision, fmt.expBits;
    Split(bits, eb + p);
    FieldOf(bits, p, eb);
    LowLow(bits, p, eb);
    ShrBound(MagnitudeOf(fmt, bits), p, eb);
    Split(MagnitudeOf(fmt, bits), p);
    Pow2OfZero();
    Pow2Next(0);
    ShrBound(bits, eb + p, fmt.bitwidth - eb - p);
  }

  lemma SignExtracted(fmt: FloatFormat, bits: nat)
    requires WellFormed(fmt) && IsEncoding(fmt, bits) && fmt.haveSign
    ensures Shl(Shr(Shl64(bits, 64 - fmt.bitwidth), 63), 63) == Shl(SignBit(SignOf(fmt, bits)), 63)
  {
    hide Shl, Shr, LowBits, Pow2, Shl64;
    var w := fmt.bitwidth - 1;
    var k := 64 - fmt.bitwidth;
    EncodingParts(fmt, bits);
    Pow2Of63And64();
    ShlOrder(bits, Pow2(fmt.bitwidth), k);
    ShlOfPow2(fmt.bitwidth, k);
    Shl64Exact(bits, k);
    var s, m := SignBit(SignOf(fmt, bits)), MagnitudeOf(fmt, bits);
    ShlSum(Shl(s, w), m, k);
    ShlShl(s, w, k);
    ShlOrder(m, Pow2(w), k);
    ShlOfPow2(w, k);
    SplitUnique(s, Shl(m, k), 63);
  }

  /** An encoding is non-finite exactly when decode_float's test says so. */
  lemma NonFiniteTest(fmt: FloatFormat, m: nat)
    requires WellFormed(fmt) && m < Pow2(fmt.expBits + fmt.precision)
    ensures m >= FirstInvalid(fmt) <==>
      Shr(m, fmt.precision) == Pow2(fmt.expBits) - 1 && match fmt.nonFinite
        case IEEE => true
        case NanOnlyAllOnes => LowBits(m, fmt.precision) == Pow2(fmt.precision) - 1
        case FiniteOnly => false
  {
    hide Shl, Shr, LowBits, Pow2;
    var p, eb := fmt.precision, fmt.expBits;
    var field, low := Shr(m, p), LowBits(m, p);
    Split(m, p);
    ShrBound(m, p, eb);
    ShlOfPow2(eb, p);
    ShlSum(Pow2(eb) - 1, 1, p);
    Pow2IsShl(p);
    if field < Pow2(eb) - 1 {
      ShlMonotone(field + 1, Pow2(eb) - 1, p);
      ShlSum(field, 1, p);
    }
  }

  // ---- Decoding is exact ----

  /** The fields of the binary64 number that decode_float assembles. */
  lemma AssembledFields(sign: bool, field: nat, mantissa: nat, p: nat)
    requires field < 2048 && p <= 52 && mantissa < Pow2(p)
    ensures AssembleF64(Shl(SignBit(sign), 63), field, mantissa, p)
            == F64Bits(sign, field, Shl(mantissa, 52 - p))
    ensures Shl(mantissa, 52 - p) < Pow2(52)
  {
    hide Shl, Shr, LowBits, Pow2, BitOr;
    Pow2Of52();
    ShlOrder(mantissa, Pow2(p), 52 - p);
    ShlOfPow2(p, 52 - p);
    var low := Shl(mantissa, 52 - p);
    BitOrDisjoint(field, 52, low);
    F64Fields(sign, field, low);
    BitOrDisjoint(SignBit(sign), 63, Shl(field, 52) + low);
  }

  /** A significand with its leading one, widened to 52 fraction bits. */
  lemma WidenedFraction(p: nat, mantissa: nat, k: int)
    requires p <= 52
    ensures Scale(Pow2(52) + Shl(mantissa, 52 - p), k) == Scale(Pow2(p) + mantissa, k + 52 - p)
  {
    hide Shl, Pow2, Scale;
    ShlOfPow2(p, 52 - p);
    ShlSum(Pow2(p), mantissa, 52 - p);
    ScaleShl(Pow2(p) + mantissa, 52 - p, k);
  }

  /** The parts of DecodeFloat's expression that depend on the format only. */
  lemma DecodeByCases(fmt: FloatFormat, bits: nat)
    requires NarrowerThanFloat64(fmt) && IsEncoding(fmt, bits)
    ensures var m, p := MagnitudeOf(fmt, bits), fmt.precision;
            var field, low := Shr(m, p), LowBits(m, p);
            var sign := Shl(SignBit(SignOf(fmt, bits)), 63);
            DecodeFloat(fmt, bits) ==
              if m >= FirstInvalid(fmt) then
                AssembleF64(if p == 0 then BitOr(sign, Shl(1, 51)) else sign, 0x7ff, low, p)
              else if field == 0 && fmt.haveZeroAndSubnormals then
                if low != 0 then
                  LeadingBitMoves(p, low);
                  var shift := p - BitLength(low) + 1;
                  AssembleF64(sign, fmt.emin + 1023 - shift, LowBits(Shl(low, shift), p), p)
                else AssembleF64(sign, 0, low, p)
              else AssembleF64(sign,
                     field - (if fmt.haveZeroAndSubnormals then 1 else 0) + fmt.emin + 1023, low, p)
  {
    hide Shl, Shr, LowBits, Pow2, AssembleF64, FirstInvalid, BitOr, Shl64, MagnitudeOf, SignOf;
    EncodingParts(fmt, bits);
    NonFiniteTest(fmt, MagnitudeOf(fmt, bits));
    if fmt.haveSign {
      SignExtracted(fmt, bits);
    } else {
      NoSign(fmt, bits);
    }
  }

  lemma NoSign(fmt: FloatFormat, bits: nat)
    requires !fmt.haveSign
    ensures Shl(SignBit(SignOf(fmt, bits)), 63) == 0
  {
    ShlZero(63);
  }

  lemma LeadingBitMoves(p: nat, low: nat)
    requires 0 < low < Pow2(p)
    ensures var shift := p - BitLength(low) + 1;
            && 1 <= shift <= p
            && Pow2(p) <= Shl(low, shift) < Pow2(p + 1)
            && LowBits(Shl(low, shift), p) == Shl(low, shift) - Pow2(p)
  {
    hide Shl, Shr, LowBits, Pow2, BitLength;
    BitLengthBounds(low);
    var k := BitLength(low);
    if k > p {
      Pow2Monotone(p, k - 1);
    }
    var shift := p - k + 1;
    ShlMonotone(Pow2(k - 1), low, shift);
    ShlOrder(low, Pow2(k), shift);
    ShlOfPow2(k - 1, shift);
    ShlOfPow2(k, shift);
    Pow2Next(p);
    Pow2IsShl(p);
    SplitUnique(1, Shl(low, shift) - Pow2(p), p);
  }

  lemma SubnormalDecodes(fmt: FloatFormat, bits: nat)
    requires NarrowerThanFloat64(fmt) && IsEncoding(fmt, bits) && fmt.haveZeroAndSubnormals
    requires MagnitudeOf(fmt, bits) < FirstInvalid(fmt) && Shr(MagnitudeOf(fmt, bits), fmt.precision) == 0
    ensures var d := DecodeFloat(fmt, bits);
            && d < TWO_64 && IsF64Finite(d) && F64Sign(d) == SignOf(fmt, bits)
            && F64Value(d) == CodeValue(fmt, MagnitudeOf(fmt, bits))
  {
    hide *;
    DecodeByCases(fmt, bits);
    if LowBits(MagnitudeOf(fmt, bits), fmt.precision) == 0 {
      ZeroDecodes(fmt, bits);
    } else {
      NonzeroSubnormalDecodes(fmt, bits);
    }
  }

  lemma SubnormalValue(fmt: FloatFormat, bits: nat)
    requires NarrowerThanFloat64(fmt) && IsEncoding(fmt, bits) && fmt.haveZeroAndSubnormals
    requires Shr(MagnitudeOf(fmt, bits), fmt.precision) == 0
    ensures var m, p := MagnitudeOf(fmt, bits), fmt.precision;
            m == LowBits(m, p) < Pow2(p) && CodeValue(fmt, m) == Scale(m, fmt.emin - p)
  {
    hide Shl, Shr, LowBits, Pow2, MagnitudeOf, SignOf, Scale, CodeValue;
    var m, p := MagnitudeOf(fmt, bits), fmt.precision;
    EncodingParts(fmt, bits);
    ShlZero(p);
    Pow2Next(p);
    AssembledValue(fmt, fmt.emin, m, m);
  }

  lemma ZeroDecodes(fmt: FloatFormat, bits: nat)
    requires NarrowerThanFloat64(fmt) && IsEncoding(fmt, bits) && fmt.haveZeroAndSubnormals
    requires Shr(MagnitudeOf(fmt, bits), fmt.precision) == 0 && LowBits(MagnitudeOf(fmt, bits), fmt.precision) == 0
    ensures var d := AssembleF64(Shl(SignBit(SignOf(fmt, bits)), 63), 0, 0, fmt.precision);
            && d < TWO_64 && IsF64Finite(d) && F64Sign(d) == SignOf(fmt, bits)
            && F64Value(d) == CodeValue(fmt, MagnitudeOf(fmt, bits))
  {
    hide Shl, Shr, LowBits, Pow2, AssembleF64, MagnitudeOf, SignOf, Scale, CodeValue, F64Bits, F64Value;
    var p := fmt.precision;
    SubnormalValue(fmt, bits);
    AssembledFields(SignOf(fmt, bits), 0, 0, p);
    ShlZero(52 - p);
    F64BitsFields(SignOf(fmt, bits), 0, 0);
    ScaleZero(-1074);
    ScaleZero(fmt.emin - p);
  }

  lemma NonzeroSubnormalDecodes(fmt: FloatFormat, bits: nat)
    requires NarrowerThanFloat64(fmt) && IsEncoding(fmt, bits) && fmt.haveZeroAndSubnormals
    requires Shr(MagnitudeOf(fmt, bits), fmt.precision) == 0 && 0 < LowBits(MagnitudeOf(fmt, bits), fmt.precision)
    ensures var p, low := fmt.precision, LowBits(MagnitudeOf(fmt, bits), fmt.precision);
            var shift := p - BitLength(low) + 1;
            low < Pow2(p) && 1 <= shift <= p && fmt.emin + 1023 - shift >= 0 &&
            var d := AssembleF64(Shl(SignBit(SignOf(fmt, bits)), 63), fmt.emin + 1023 - shift,
                                 LowBits(Shl(low, shift), p), p);
            && d < TWO_64 && IsF64Finite(d) && F64Sign(d) == SignOf(fmt, bits)
            && F64Value(d) == CodeValue(fmt, MagnitudeOf(fmt, bits))
  {
    hide Shl, Shr, LowBits, Pow2, BitLength, AssembleF64, MagnitudeOf, SignOf, Scale, CodeValue, F64Bits, F64Value;
    var low, p := LowBits(MagnitudeOf(fmt, bits), fmt.precision), fmt.precision;
    SubnormalValue(fmt, bits);
    LeadingBitMoves(p, low);
    Pow2Next(p);
    var shift := p - BitLength(low) + 1;
    var rest := Shl(low, shift) - Pow2(p);
    AssembledFields(SignOf(fmt, bits), fmt.emin + 1023 - shift, rest, p);
    F64BitsFields(SignOf(fmt, bits), fmt.emin + 1023 - shift, Shl(rest, 52 - p));
    WidenedFraction(p, rest, fmt.emin - shift - 52);
    ScaleShl(low, shift, fmt.emin - shift - p);
  }

  lemma Pow2OfAtLeast1(k: nat)
    ensures Pow2(k) >= 1
  {
  }

  /** Sign, finiteness and value of a binary64 number given by its fields. */
  lemma F64BitsFields(sign: bool, field: nat, mantissa: nat)
    requires field < 2048 && mantissa < Pow2(52)
    ensures var d := F64Bits(sign, field, mantissa);
            && d < TWO_64 && F64Sign(d) == sign && F64Field(d) == field && F64Mantissa(d) == mantissa
            && (field == 0 ==> F64Value(d) == Scale(mantissa, -1074))
            && (field > 0 ==> F64Value(d) == Scale(Pow2(52) + mantissa, field as int - 1075))
  {
    hide Shl, Shr, LowBits, Pow2, Scale, F64Value;
    var d := F64Bits(sign, field, mantissa);
    Pow2Of52();
    F64Fields(sign, field, mantissa);
    Pow2Of63And64();
    Pow2IsShl(63);
    ShlZero(63);
    F64ValueByFields(d);
  }

  lemma NormalDecodes(fmt: FloatFormat, bits: nat)
    requires NarrowerThanFloat64(fmt) && IsEncoding(fmt, bits)
    requires MagnitudeOf(fmt, bits) < FirstInvalid(fmt)
    requires Shr(MagnitudeOf(fmt, bits), fmt.precision) > 0 || !fmt.haveZeroAndSubnormals
    ensures var d := DecodeFloat(fmt, bits);
            && d < TWO_64 && IsF64Finite(d) && F64Sign(d) == SignOf(fmt, bits)
            && F64Value(d) == CodeValue(fmt, MagnitudeOf(fmt, bits))
  {
    hide Shl, Shr, LowBits, Pow2, AssembleF64, FirstInvalid, BitOr, MagnitudeOf, SignOf, DecodeFloat,
      Scale, CodeValue, F64Bits, F64Value;
    var m, p := MagnitudeOf(fmt, bits), fmt.precision;
    var field: int, low := Shr(m, p), LowBits(m, p);
    EncodingParts(fmt, bits);
    DecodeByCases(fmt, bits);
    TopFieldOfFinite(fmt, m);
    var e := field - (if fmt.haveZeroAndSubnormals then 1 else 0) + fmt.emin;
    Pow2Next(p);
    Pow2IsShl(p);
    if fmt.haveZeroAndSubnormals {
      ShlSum(field - 1, 1, p);
    }
    AssembledValue(fmt, e, Pow2(p) + low, m);
    AssembledFields(SignOf(fmt, bits), e + 1023, low, p);
    F64BitsFields(SignOf(fmt, bits), e + 1023, Shl(low, 52 - p));
    WidenedFraction(p, low, e - 52);
  }

  /** The exponent field of a finite encoding does not exceed emax's. */
  lemma TopFieldOfFinite(fmt: FloatFormat, m: nat)
    requires WellFormed(fmt) && m < FirstInvalid(fmt)
    ensures Shr(m, fmt.precision) <= TopExponentField(fmt)
  {
    hide Shl, Shr, LowBits, Pow2, FirstInvalid;
    FirstInvalidBounds(fmt);
    var p := fmt.precision;
    Split(m, p);
    if Shr(m, p) >= TopExponentField(fmt) + 1 {
      ShlMonotone(TopExponentField(fmt) + 1, Shr(m, p), p);
    }
  }

  /** The main result for decode_float: a finite encoding becomes the binary64 number of the same
      sign and value. */
  lemma DecodeIsExact(fmt: FloatFormat, bits: nat)
    requires NarrowerThanFloat64(fmt) && IsEncoding(fmt, bits) && MagnitudeOf(fmt, bits) < FirstInvalid(fmt)
    ensures var d := DecodeFloat(fmt, bits);
            && d < TWO_64 && IsF64Finite(d) && F64Sign(d) == SignOf(fmt, bits)
            && F64Value(d) == CodeValue(fmt, MagnitudeOf(fmt, bits))
  {
    hide *;
    if Shr(MagnitudeOf(fmt, bits), fmt.precision) > 0 || !fmt.haveZeroAndSubnormals {
      NormalDecodes(fmt, bits);
    } else {
      SubnormalDecodes(fmt, bits);
    }
  }

  /** The mantissa of the binary64 NaN or infinity that a non-finite encoding becomes. */
  function NonFiniteMantissa(fmt: FloatFormat, m: nat): nat
    requires WellFormed(fmt)
  {
    if fmt.precision == 0 then Pow2(51) else Shl(LowBits(m, fmt.precision), 52 - fmt.precision)
  }

  lemma NonFiniteDecodes(fmt: FloatFormat, bits: nat)
    requires NarrowerThanFloat64(fmt) && IsEncoding(fmt, bits) && MagnitudeOf(fmt, bits) >= FirstInvalid(fmt)
    ensures var d, mantissa := DecodeFloat(fmt, bits), NonFiniteMantissa(fmt, MagnitudeOf(fmt, bits));
            && d < TWO_64 && mantissa < Pow2(52) && !IsF64Finite(d) && F64Sign(d) == SignOf(fmt, bits)
            && F64Mantissa(d) == mantissa
  {
    hide Shl, Shr, LowBits, Pow2, FirstInvalid, BitOr, MagnitudeOf, SignOf, DecodeFloat, F64Bits, F64Value;
    var m, p := MagnitudeOf(fmt, bits), fmt.precision;
    EncodingParts(fmt, bits);
    DecodeByCases(fmt, bits);
    if p == 0 {
      LowBitsOfNone(m);
      QuietNanBits();
      NoSign(fmt, bits);
      BitOrZero(Shl(1, 51));
      F64BitsFields(false, 0x7ff, Pow2(51));
    } else {
      AssembledFields(SignOf(fmt, bits), 0x7ff, LowBits(m, p), p);
      F64BitsFields(SignOf(fmt, bits), 0x7ff, Shl(LowBits(m, p), 52 - p));
    }
  }

  lemma LowBitsOfNone(m: nat)
    ensures LowBits(m, 0) == 0
  {
  }

  lemma BitOrZero(x: nat)
    ensures BitOr(0, x) == x
  {
  }

  lemma {:induction false} BitOrCommutes(a: nat, b: nat)
    ensures BitOr(a, b) == BitOr(b, a)
    decreases a + b
  {
    if a > 0 && b > 0 {
      BitOrCommutes(a / 2, b / 2);
    }
  }

  /** The quiet bit goes in beside the exponent. */
  lemma QuietNanBits()
    ensures AssembleF64(Shl(1, 51), 0x7ff, 0, 0) == F64Bits(false, 0x7ff, Pow2(51)) && Pow2(51) < Pow2(52)
  {
    hide Shl, Pow2, BitOr;
    Pow2Next(51);
    Pow2IsShl(51);
    ShlZero(52);
    ShlZero(63);
    BitOrDisjoint(0x7ff, 52, 0);
    BitOrDisjoint(0x7ff, 52, Pow2(51));
    BitOrCommutes(Shl(1, 51), Shl(0x7ff, 52));
  }

  // ---- Encoding undoes decoding ----

  /** A NaN of an IEEE format with the top bit of its payload clear. */
  ghost predicate IsSignalingNan(fmt: FloatFormat, bits: nat)
    requires WellFormed(fmt)
  {
    && fmt.nonFinite == IEEE
    && FirstInvalid(fmt) < MagnitudeOf(fmt, bits) < FirstInvalid(fmt) + Pow2(fmt.precision - 1)
  }

  lemma FiniteRoundTrip(fmt: FloatFormat, bits: nat, r: Conversion)
    requires NarrowerThanFloat64(fmt) && IsEncoding(fmt, bits) && MagnitudeOf(fmt, bits) < FirstInvalid(fmt)
    requires EncodesDouble(fmt, DecodeFloat(fmt, bits), r)
    ensures r == Ok(bits)
  {
    hide Shl, Shr, LowBits, Pow2, FirstInvalid, MagnitudeOf, DecodeFloat, F64Value, RoundsTo, CodeValue, Packed,
      F64Sign;
    var m, sign := MagnitudeOf(fmt, bits), SignOf(fmt, bits);
    DecodeIsExact(fmt, bits);
    EncodingParts(fmt, bits);
    ExactRounding(fmt, m, CodeValue(fmt, m));
    assert CorrectlyConverted(fmt, sign, CodeValue(fmt, m), Ok(Packed(fmt, sign, m)));
    ConversionIsUnique(fmt, sign, CodeValue(fmt, m), r, Ok(Packed(fmt, sign, m)));
  }

  /** encode_float after decode_float gives the encoding back, except that a signaling NaN comes
      back with payload 1. */
  lemma RoundTrip(fmt: FloatFormat, bits: nat, r: Conversion)
    requires WellFormed(fmt) && (fmt == FLOAT64 || NarrowerThanFloat64(fmt)) && IsEncoding(fmt, bits)
    requires EncodesDouble(fmt, DecodeFloat(fmt, bits), r)
    ensures r == Ok(bits) <==>
              fmt == FLOAT64 || !IsSignalingNan(fmt, bits) || MagnitudeOf(fmt, bits) == FirstInvalid(fmt) + 1
    ensures fmt != FLOAT64 && IsSignalingNan(fmt, bits) ==>
              r == Ok(Packed(fmt, SignOf(fmt, bits), FirstInvalid(fmt) + 1))
  {
    hide Shl, Shr, LowBits, Pow2, FirstInvalid, MagnitudeOf, F64Value, CorrectlyConverted, SignOf, F64Field, F64Sign,
      F64Mantissa, NonFiniteMeaning;
    if fmt != FLOAT64 {
      hide DecodeFloat;
      if MagnitudeOf(fmt, bits) < FirstInvalid(fmt) {
        FiniteRoundTrip(fmt, bits, r);
      } else {
        NonFiniteDecodes(fmt, bits);
        EncodingParts(fmt, bits);
        var m := MagnitudeOf(fmt, bits);
        SignOnlyIfSigned(fmt, bits);
        NonFiniteRoundTrip(fmt, m, SignOf(fmt, bits));
      }
    }
  }

  lemma SmallPowers()
    ensures Pow2(5) == 0x20 && Pow2(9) == 0x200 && Pow2(15) == 0x8000 && Pow2(16) == 0x1_0000
  {
    assert Pow2(7) == 0x80 && Pow2(11) == 0x800 && Pow2(13) == 0x2000;
  }

  /** A signaling NaN of float16 with payload 2 comes back with payload 1. */
  lemma PayloadIsLost(r: Conversion)
    requires EncodesDouble(FLOAT16, DecodeFloat(FLOAT16, 0x7c02), r)
    ensures r == Ok(0x7c01)
  {
    hide Shl, Shr, LowBits, Pow2, EncodesDouble, DecodeFloat;
    TableIsWellFormed();
    assert FORMATS[0] == FLOAT16;
    hide WellFormed, NarrowerThanFloat64;
    SmallPowers();
    ShlZero(15);
    SplitUnique(0, 0x7c02, 15);
    ShlIsProduct(0x1f, 10);
    assert Pow2(10) == 0x400 by { Pow2Next(9); }
    RoundTrip(FLOAT16, 0x7c02, r);
  }

  lemma SignOnlyIfSigned(fmt: FloatFormat, bits: nat)
    ensures SignOf(fmt, bits) ==> fmt.haveSign
  {
  }

  /** Where the mantissa of a non-finite encoding goes, and back. */
  lemma NonFiniteRoundTrip(fmt: FloatFormat, m: nat, sign: bool)
    requires WellFormed(fmt) && FirstInvalid(fmt) <= m < Pow2(fmt.expBits + fmt.precision)
    requires sign ==> fmt.haveSign
    ensures var r := NonFiniteMeaning(fmt, sign, NonFiniteMantissa(fmt, m));
            if fmt.nonFinite == IEEE && FirstInvalid(fmt) < m < FirstInvalid(fmt) + Pow2(fmt.precision - 1)
            then r == Ok(Packed(fmt, sign, FirstInvalid(fmt) + 1))
            else r == Ok(Packed(fmt, sign, m))
  {
    hide Shl, Shr, LowBits, Pow2;
    FirstInvalidBounds(fmt);
    var p := fmt.precision;
    match fmt.nonFinite {
      case FiniteOnly =>
      case NanOnlyAllOnes =>
        NonFiniteTest(fmt, m);
        Pow2OfAtLeast1(51);
        if p > 0 {
          ShlMonotone(1, Pow2(p) - 1, 52 - p) by { Pow2AtLeastTwo(p); }
        }
      case IEEE =>
        var payload := m - FirstInvalid(fmt);
        SplitUnique(Pow2(fmt.expBits) - 1, payload, p);
        ShlOfPow2(p - 1, 52 - p);
        ShlOrder(payload, Pow2(p - 1), 52 - p);
        ShlZero(52 - p);
        ShlOrder(0, payload, 52 - p);
        SplitUnique(payload, 0, 52 - p);
    }
  }
}
