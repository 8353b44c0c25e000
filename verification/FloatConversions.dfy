/** encode_float_parts and its three front ends, as the imperative code they are, each proved to
    return the correctly rounded encoding of the number it is given. */
module FloatConversions {
  import opened PowersOfTwo
  import opened FloatFormats
  import opened FloatRounding
  import opened FloatEncode
  import opened Fractions

  /** Rounds a normalized significand at exponent e. */
  method EncodeFloatParts(sign: bool, exponent: int, significand: Fraction, fmt: FloatFormat)
    returns (r: Conversion)
    requires WellFormed(fmt) && significand.Valid()
    requires Normalized(significand.Num(), significand.Bits()) && significand.Bits() >= fmt.precision + 1
    modifies significand.Objects()
    ensures r == EncodeParts(fmt, sign, exponent, old(significand.Num()), old(significand.Bits()))
    ensures CorrectlyConverted(fmt, sign,
              PartsValue(exponent, old(significand.Num()), old(significand.Bits())), r)
  {
    hide Shr, LowBits, AboveHalf, ExactlyHalf, CorrectlyConverted, NonFiniteToBits, AssembleCode, BitOr,
      FirstInvalid, Shl, PartsValue, Normalized, Pow2, EncodeParts;
    ghost var num, n := significand.Num(), significand.Bits();
    EncodePartsCorrect(fmt, sign, exponent, num, n);
    EncodePartsByCases(fmt, sign, exponent, num, n);
    assert fmt.precision <= 52 by { PrecisionBound(fmt); }
    hide WellFormed;
    var e := exponent;
    if sign && !fmt.haveSign {
      return NegativeNotRepresentable;
    }
    var f64Inf := BitOr(Shl(SignBit(sign), 63), F64_INFINITY);
    if e > fmt.emax {
      r := NonFiniteToBits(f64Inf, fmt);
      return;
    }
    var bitsToKeep: int := fmt.precision + 1;
    if e < fmt.emin {
      if !fmt.haveZeroAndSubnormals {
        return Ok(0);
      }
      bitsToKeep := bitsToKeep - (fmt.emin - e);
      e := fmt.emin;
    }
    var u64Significand: nat;
    if bitsToKeep < 0 {
      u64Significand := 0;
    } else {
      u64Significand := significand.Lshift(bitsToKeep);
      var above := significand.GreaterThanOne();
      var half := significand.EqualsOne();
      if above || (half && u64Significand % 2 == 1) {
        u64Significand := u64Significand + 1;
      }
    }
    var enc := AssembleCode(fmt, e, u64Significand);
    if enc >= FirstInvalid(fmt) {
      r := NonFiniteToBits(f64Inf, fmt);
      return;
    }
    r := Ok(BitOr(Shl(SignBit(sign), fmt.bitwidth - 1), enc));
  }

  lemma PrecisionBound(fmt: FloatFormat)
    requires WellFormed(fmt)
    ensures fmt.precision <= 52
  {
  }

  /** EncodeParts, one equation for each way out of the routine. */
  lemma EncodePartsByCases(fmt: FloatFormat, sign: bool, e: int, num: nat, n: nat)
    requires WellFormed(fmt) && n >= fmt.precision + 1
    ensures var r := EncodeParts(fmt, sign, e, num, n);
            var inf := BitOr(Shl(SignBit(sign), 63), F64_INFINITY);
            if sign && !fmt.haveSign then r == NegativeNotRepresentable
            else if e > fmt.emax then r == NonFiniteToBits(inf, fmt)
            else if e < fmt.emin && !fmt.haveZeroAndSubnormals then r == Ok(0)
            else
              var keep := fmt.precision + 1 - (if e < fmt.emin then fmt.emin - e else 0);
              var sig := if keep < 0 then 0
                         else
                           var kept, rest := Shr(num, n - keep), LowBits(num, n - keep);
                           if AboveHalf(rest, n - keep) || (ExactlyHalf(rest, n - keep) && kept % 2 == 1)
                           then kept + 1 else kept;
              var enc := AssembleCode(fmt, if e < fmt.emin then fmt.emin else e, sig);
              r == if enc >= FirstInvalid(fmt) then NonFiniteToBits(inf, fmt)
                   else Ok(BitOr(Shl(SignBit(sign), fmt.bitwidth - 1), enc))
  {
    hide Shr, LowBits, AboveHalf, ExactlyHalf, NonFiniteToBits, AssembleCode, BitOr, FirstInvalid, Shl;
  }

  // ---- binary64 ----

  function F64Sign(bits: nat): bool { Shr(bits, 63) == 1 }

  function F64Field(bits: nat): nat { LowBits(Shr(bits, 52), 11) }

  function F64Mantissa(bits: nat): nat { LowBits(bits, 52) }

  /** The magnitude of a finite binary64 number. */
  ghost function F64Value(bits: nat): real { CodeValue(FLOAT64, LowBits(bits, 63)) }

  ghost predicate IsF64Finite(bits: nat) { F64Field(bits) != 0x7ff }

  /** What encode_float promises: a finite number is rounded, an infinity overflows, and a NaN
      stays one where the format has NaNs. */
  ghost predicate EncodesDouble(fmt: FloatFormat, bits: nat, r: Conversion)
    requires WellFormed(fmt)
  {
    if fmt == FLOAT64 then r == Ok(bits)
    else if IsF64Finite(bits) then CorrectlyConverted(fmt, F64Sign(bits), F64Value(bits), r)
    else r == NonFiniteMeaning(fmt, F64Sign(bits), F64Mantissa(bits))
  }

  /** A 64-bit word is its three fields. */
  lemma F64Parts(bits: nat)
    requires bits < TWO_64
    ensures bits == F64Bits(F64Sign(bits), F64Field(bits), F64Mantissa(bits))
    ensures F64Field(bits) < 2048 && F64Mantissa(bits) < Pow2(52)
    ensures LowBits(bits, 63) == Shl(F64Field(bits), 52) + F64Mantissa(bits)
    ensures Shr(bits, 63) == SignBit(F64Sign(bits))
  {
    hide Shl, Shr, LowBits, Pow2;
    Pow2Of63And64();
    Pow2Of52();
    ShrBound(bits, 63, 1);
    Pow2Next(0);
    Pow2OfZero();
    Split(bits, 52);
    Split(Shr(bits, 52), 11);
    ShrShr(bits, 52, 11);
    ShlSum(Shl(Shr(bits, 63), 11), F64Field(bits), 52);
    ShlShl(Shr(bits, 63), 11, 52);
    F64Fields(F64Sign(bits), F64Field(bits), F64Mantissa(bits));
  }

  lemma F64WellFormed()
    ensures WellFormed(FLOAT64)
  {
    Pow2Of52();
  }

  /** The value of a finite binary64 number by its fields. */
  lemma F64ValueByFields(bits: nat)
    requires bits < TWO_64
    ensures F64Field(bits) == 0 ==> F64Value(bits) == Scale(F64Mantissa(bits), -1074)
    ensures F64Field(bits) > 0 ==>
              F64Value(bits) == Scale(Pow2(52) + F64Mantissa(bits), F64Field(bits) - 1075)
  {
    hide Shl, Shr, LowBits, Pow2, Scale, CodeValue;
    F64Parts(bits);
    var field: int, mantissa := F64Field(bits), F64Mantissa(bits);
    Pow2Next(52);
    if field == 0 {
      AssembledValue(FLOAT64, -1022, mantissa, LowBits(bits, 63));
    } else {
      ShlSum(field - 1, 1, 52);
      Pow2IsShl(52);
      AssembledValue(FLOAT64, field - 1023, Pow2(52) + mantissa, LowBits(bits, 63));
    }
  }

  lemma ZeroConverts(fmt: FloatFormat)
    requires WellFormed(fmt)
    ensures RoundsTo(fmt, 0, 0.0)
    ensures 0 < FirstInvalid(fmt)
  {
    FirstInvalidBounds(fmt);
    hide Scale, Pow2, FirstInvalid;
    var p := fmt.precision;
    ShlZero(p);
    if fmt.haveZeroAndSubnormals {
      AssembledValue(fmt, fmt.emin, 0, 0);
      ScaleZero(fmt.emin - p);
      ExactRounding(fmt, 0, 0.0);
    } else {
      Pow2Next(p);
      AssembledValue(fmt, fmt.emin, Pow2(p), 0);
      ScalePow2(p, fmt.emin - p);
      BelowEverything(fmt, 0.0);
    }
  }

  /** Moving the leading one of a nonzero 64-bit number to the top of the word. */
  lemma NormalizedWord(x: nat, width: nat)
    requires 0 < x < Pow2(width) && width <= 64
    ensures var shift := width - BitLength(x);
            && shift >= 0
            && Pow2(width - 1) <= Shl(x, shift) < Pow2(width)
  {
    hide Shl, Pow2, BitLength;
    BitLengthBounds(x);
    var k := BitLength(x);
    if k > width {
      Pow2Monotone(width, k - 1);
    }
    ShlMonotone(Pow2(k - 1), x, width - k);
    ShlOrder(x, Pow2(k), width - k);
    ShlOfPow2(k - 1, width - k);
    ShlOfPow2(k, width - k);
  }

  /** Widening a normalized 53-bit significand to 64 bits. */
  lemma WidenedSignificand(x: nat, e: int)
    requires Pow2(52) <= x < Pow2(53)
    ensures Normalized(Shl(x, 11), 64) && TWO_63 <= Shl(x, 11) < TWO_64
    ensures Shl64(x, 11) == Shl(x, 11)
    ensures PartsValue(e, Shl(x, 11), 64) == Scale(x, e - 52)
  {
    hide Shl, Pow2, Scale;
    Pow2Of63And64();
    ShlMonotone(Pow2(52), x, 11);
    ShlOrder(x, Pow2(53), 11);
    ShlOfPow2(52, 11);
    ShlOfPow2(53, 11);
    ScaleShl(x, 11, e - 63);
    Shl64Exact(x, 11);
  }

  method EncodeFloat(f64Bits: nat, fmt: FloatFormat) returns (r: Conversion)
    requires f64Bits < TWO_64 && WellFormed(fmt)
    ensures EncodesDouble(fmt, f64Bits, r)
  {
    hide Shl, Shr, LowBits, Pow2, Scale, CorrectlyConverted, NonFiniteMeaning, BitOr, Shl64,
      PartsValue, F64Value, Packed, Normalized, CodeValue, BitLength;
    if fmt == FLOAT64 {
      return Ok(f64Bits);
    }
    F64Parts(f64Bits);
    F64ValueByFields(f64Bits);
    var e: int := F64Field(f64Bits);
    if e == 0x7ff {
      NonFiniteCorrect(fmt, F64Sign(f64Bits), F64Mantissa(f64Bits));
      r := NonFiniteToBits(f64Bits, fmt);
      return;
    }
    var sign := F64Sign(f64Bits);
    if sign && !fmt.haveSign {
      NegativeRejected(fmt, F64Value(f64Bits));
      return NegativeNotRepresentable;
    }
    var significand := F64Mantissa(f64Bits);
    Pow2Next(52);
    if e != 0 {
      ImplicitBit(significand);
      significand := BitOr(Shl(1, 52), significand);
      e := e - 1023;
    } else {
      if significand == 0 {
        r := Ok(if fmt.haveZeroAndSubnormals then Shl(SignBit(sign), fmt.bitwidth - 1) else 0);
        ScaleZero(-1074);
        ZeroEncoded(fmt, sign, r);
        return;
      }
      var shift := 53 - BitLength(significand);
      Pow2Monotone(52, 53);
      NormalizedWord(significand, 53);
      ScaleShl(significand, shift, -1074 - shift);
      significand := Shl(significand, shift);
      e := -1022 - shift;
    }
    WidenedSignificand(significand, e);
    var word := new U64Fraction(Shl64(significand, 11));
    r := EncodeFloatParts(sign, e, Word(word), fmt);
  }

  lemma ImplicitBit(mantissa: nat)
    requires mantissa < Pow2(52)
    ensures BitOr(Shl(1, 52), mantissa) == Pow2(52) + mantissa
  {
    BitOrDisjoint(1, 52, mantissa);
    Pow2IsShl(52);
  }

  lemma NegativeRejected(fmt: FloatFormat, x: real)
    requires !fmt.haveSign
    ensures CorrectlyConverted(fmt, true, x, NegativeNotRepresentable)
  {
  }

  lemma ZeroEncoded(fmt: FloatFormat, sign: bool, r: Conversion)
    requires WellFormed(fmt) && (sign ==> fmt.haveSign)
    requires r == Ok(if fmt.haveZeroAndSubnormals then Shl(SignBit(sign), fmt.bitwidth - 1) else 0)
    ensures CorrectlyConverted(fmt, sign, 0.0, r)
  {
    hide RoundsTo, Shl, FirstInvalid;
    ZeroConverts(fmt);
    if !sign {
      ShlZero(fmt.bitwidth - 1);
      ShlZero(fmt.expBits + fmt.precision);
    }
    assert r == Ok(Packed(fmt, sign, 0));
  }

  // ---- Integers ----

  /** The integer a 64-bit word stands for. */
  function IntValue(bits: nat, isSigned: bool): int {
    if isSigned && bits >= TWO_63 then bits - TWO_64 else bits
  }

  function Abs(x: int): nat { if x < 0 then -x else x }

  lemma IntegerParts(x: nat, num: nat, shift: nat, e: int, n: nat)
    requires num == Shl(x, shift) && e == n - 1 - shift
    ensures PartsValue(e, num, n) == x as real
  {
    hide Shl, Scale;
    ScaleShl(x, shift, 0 - shift as int);
    ScaleAtZero(x);
  }

  lemma ScaleAtZero(x: nat)
    ensures Scale(x, 0) == x as real
  {
  }

  method EncodeIntAsFloat(bits: nat, isSigned: bool, fmt: FloatFormat) returns (r: Conversion)
    requires bits < TWO_64 && WellFormed(fmt)
    ensures var x := IntValue(bits, isSigned);
            CorrectlyConverted(fmt, x < 0, Abs(x) as real, r)
  {
    hide Shl, Pow2, Scale, CorrectlyConverted, PartsValue;
    Pow2Of63And64();
    var negative := isSigned && bits >= TWO_63;
    var significand := if negative then (0 - bits) % TWO_64 else bits;
    assert significand == Abs(IntValue(bits, isSigned));
    if significand == 0 {
      ZeroEncoded(fmt, false, Ok(0)) by {
        ShlZero(fmt.bitwidth - 1);
      }
      return Ok(0);
    }
    var e := 63;
    var shift := 64 - BitLength(significand);
    NormalizedWord(significand, 64);
    IntegerParts(significand, Shl(significand, shift), shift, 63 - shift, 64);
    Shl64Exact(significand, shift);
    var word := new U64Fraction(Shl64(significand, shift));
    e := e - shift;
    r := EncodeFloatParts(negative, e, Word(word), fmt);
  }

  /** The little-endian bytes of a nonnegative integer, as the interpreter hands them over. */
  function LittleEndian(x: nat, count: nat): (bytes: seq<nat>)
    ensures |bytes| == count
  {
    if count == 0 then [] else [x % 256] + LittleEndian(x / 256, count - 1)
  }

  lemma {:induction false} LowByteFirst(b: nat, rest: seq<nat>)
    ensures BytesValue([b] + rest) == b + 256 * BytesValue(rest)
  {
    hide Shl, Pow2;
    var all := [b] + rest;
    if rest == [] {
      assert all[..0] == [];
      ShlBy0(b);
    } else {
      var k := |rest| - 1;
      assert all[..|all| - 1] == [b] + rest[..k];
      LowByteFirst(b, rest[..k]);
      ShlShl(rest[k], 8 * k, 8);
      ShlIsProduct(Shl(rest[k], 8 * k), 8);
      Pow2Of8();
    }
  }

  lemma {:induction false} LittleEndianValue(x: nat, count: nat)
    requires x < Pow2(8 * count)
    ensures AreBytes(LittleEndian(x, count)) && BytesValue(LittleEndian(x, count)) == x
  {
    if count > 0 {
      ShrBound(x, 8, 8 * (count - 1));
      EightHalvings(x);
      LittleEndianValue(x / 256, count - 1);
      LowByteFirst(x % 256, LittleEndian(x / 256, count - 1));
    }
  }

  lemma EightHalvings(x: nat)
    ensures Shr(x, 8) == x / 256
  {
    hide Shl, Shr, LowBits;
    Split(x, 8);
    ShlIsProduct(Shr(x, 8), 8);
    Pow2Of8();
  }

  /** A number of nbits bits fills its bytes. */
  lemma BytesForBits(nbits: nat)
    ensures var count := (nbits + 7) / 8; nbits <= 8 * count < nbits + 8
  {
  }

  /** The last of k + 1 bytes holds the w highest bits. */
  lemma TopByteOfLittleEndian(x: nat, k: nat, w: nat)
    requires x < Pow2(8 * k + w) && 1 <= w <= 8
    ensures var data := LittleEndian(x, k + 1);
            |data| == k + 1 && AreBytes(data) && data[k] < Pow2(w) && BytesValue(data) == x
  {
    hide Shl, Shr, LowBits, Pow2, BytesValue, LittleEndian;
    Pow2Monotone(8 * k + w, 8 * (k + 1));
    LittleEndianValue(x, k + 1);
    var data := LittleEndian(x, k + 1);
    Pow2Of8();
    BytesBelow(data, k, 8);
    BytesBound(data[..k]);
    SplitUnique(data[k], BytesValue(data[..k]), 8 * k);
    ShrBound(x, 8 * k, w);
  }

  lemma LittleEndianHoldsBits(x: nat)
    requires x > 0
    ensures var nbits := BitLength(x);
            HoldsBits(LittleEndian(x, (nbits + 7) / 8), nbits)
            && BytesValue(LittleEndian(x, (nbits + 7) / 8)) == x
  {
    hide Pow2, BytesValue, LittleEndian, BitLength;
    var nbits := BitLength(x);
    BytesForBits(nbits);
    BitLengthBounds(x);
    var k := (nbits + 7) / 8 - 1;
    TopBitsLeft(nbits, k, nbits - 8 * k);
    TopByteOfLittleEndian(x, k, nbits - 8 * k);
  }

  /** Any integer, of any size. */
  method EncodePylongAsFloat(x: int, fmt: FloatFormat) returns (r: Conversion)
    requires WellFormed(fmt)
    ensures CorrectlyConverted(fmt, x < 0, Abs(x) as real, r)
  {
    hide Shl, Pow2, Scale, CorrectlyConverted, PartsValue, HoldsBits, BytesValue, LittleEndian, Normalized,
      BitLength;
    if 0 <= x + TWO_63 < TWO_64 {
      r := EncodeIntAsFloat(x % TWO_64, true, fmt);
      return;
    }
    var sign := x < 0;
    var magnitude := Abs(x);
    var nbits := BitLength(magnitude);
    BigIntegerParts(magnitude);
    var long := new LongFraction(LittleEndian(magnitude, (nbits + 7) / 8), nbits);
    r := EncodeFloatParts(sign, nbits - 1, Long(long), fmt);
  }

  lemma BigIntegerParts(x: nat)
    requires x >= TWO_63
    ensures var nbits := BitLength(x);
            && nbits >= 64 && Normalized(x, nbits)
            && HoldsBits(LittleEndian(x, (nbits + 7) / 8), nbits)
            && BytesValue(LittleEndian(x, (nbits + 7) / 8)) == x
            && PartsValue(nbits - 1, x, nbits) == x as real
  {
    hide Shl, Pow2, Scale, PartsValue, HoldsBits, BytesValue, LittleEndian, BitLength;
    LittleEndianHoldsBits(x);
    BitLengthBounds(x);
    AtLeast64Bits(x);
    ShlBy0(x);
    IntegerParts(x, x, 0, BitLength(x) - 1, BitLength(x));
  }

  lemma AtLeast64Bits(x: nat)
    requires x >= TWO_63
    ensures BitLength(x) >= 64
  {
    hide Pow2;
    BitLengthBounds(x);
    Pow2Of63And64();
    if BitLength(x) < 64 {
      Pow2Monotone(BitLength(x), 63);
    }
  }
}
