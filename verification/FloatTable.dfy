/** The numbers that the entries of the format table encode: 1.0, the largest finite number and the
    smallest positive one, in literal figures. */
module FloatTable {
  import opened PowersOfTwo
  import opened FloatFormats
  import opened FloatRounding

  /** The exponent field of 1.0: half of the exponent range, as in IEEE 754-2019 section 3.4. */
  ghost predicate IsBiased(fmt: FloatFormat) {
    && 2 <= fmt.expBits
    && fmt.emin == (if fmt.haveZeroAndSubnormals then 2 else 1) - Pow2(fmt.expBits - 1)
  }

  /** Exponent field 2^(expBits-1) - 1 and fraction 0 encode 1.0 exactly when the exponent range
      is the one of the IEEE bias. */
  lemma OneIffBiased(fmt: FloatFormat)
    requires 2 <= fmt.expBits
    ensures IsBiased(fmt) <==> CodeValue(fmt, Shl(Pow2(fmt.expBits - 1) - 1, fmt.precision)) == 1.0
  {
    hide CodeValue, SkippedCodes, Shl;
    var bias := Pow2(fmt.expBits - 1) - 1;
    var e := fmt.emin + bias - (if fmt.haveZeroAndSubnormals then 1 else 0);
    CodeOfPower(fmt, bias);
    if e < 0 {
      PowersDiffer(e, 0);
    } else if e > 0 {
      PowersDiffer(0, e);
    }
    Exp2Zero();
  }

  /** The value of the encoding with the given exponent field and fraction 0. Field 0 of a format
      with a zero is that zero, and not a power of two. */
  lemma CodeOfPower(fmt: FloatFormat, field: nat)
    ensures CodeValue(fmt, Shl(field, fmt.precision))
            == if fmt.haveZeroAndSubnormals && field == 0 then 0.0
               else Exp2(fmt.emin + field - (if fmt.haveZeroAndSubnormals then 1 else 0))
  {
    hide CodeValue, Exp2, Scale, Shl, Pow2;
    var p := fmt.precision;
    Pow2Next(p);
    Pow2IsShl(p);
    if !fmt.haveZeroAndSubnormals {
      AssembledValue(fmt, fmt.emin + field, Pow2(p), Shl(field, p));
      ScalePow2(p, fmt.emin + field - p);
    } else if field == 0 {
      ShlZero(p);
      AssembledValue(fmt, fmt.emin, 0, 0);
      ScaleZero(fmt.emin - p);
    } else {
      ShlSum(field - 1, 1, p);
      AssembledValue(fmt, fmt.emin + field - 1, Pow2(p), Shl(field, p));
      ScalePow2(p, fmt.emin + field - 1 - p);
    }
  }

  lemma PowersDiffer(a: int, b: int)
    requires a < b
    ensures Exp2(a) < Exp2(b)
  {
    Exp2Next(b - 1);
    Exp2Monotone(a, b - 1);
  }

  /** What a reader of the format's definition looks up: its width, the encodings of 1.0 and of the
      largest finite number, that number, and the smallest positive one. */
  ghost predicate Encodes(fmt: FloatFormat, width: nat, one: nat, largest: nat, largestValue: real,
                          smallest: nat, smallestValue: real) {
    && (if fmt.haveSign then 1 else 0) + fmt.expBits + fmt.precision == width
    && fmt.bitwidth == width
    && CodeValue(fmt, one) == 1.0
    && FirstInvalid(fmt) == largest + 1 && CodeValue(fmt, largest) == largestValue
    && smallest == (if fmt.haveZeroAndSubnormals then 1 else 0)
    && CodeValue(fmt, smallest) == smallestValue
    && (fmt.haveZeroAndSubnormals ==> CodeValue(fmt, 0) == 0.0)
    && Exp2(fmt.emax) <= largestValue < Exp2(fmt.emax + 1)
  }

  function SmallestExponent(fmt: FloatFormat): int {
    if fmt.haveZeroAndSubnormals then fmt.emin - fmt.precision else fmt.emin
  }

  /** The fields of an entry as numbers: 2^precision and 2^(expBits-1) are given, so that only
      literal arithmetic is left to do. */
  ghost predicate Figures(fmt: FloatFormat, unit: nat, half: nat, one: nat, largest: nat, q: nat)
    requires fmt.expBits >= 1
  {
    && unit == Pow2(fmt.precision) && half == Pow2(fmt.expBits - 1)
    && one == (half - 1) * unit
    && largest + 1 == (match fmt.nonFinite
                       case IEEE => (2 * half - 1) * unit
                       case NanOnlyAllOnes => 2 * half * unit - 1
                       case FiniteOnly => 2 * half * unit)
    && unit <= q < 2 * unit
    && largest + (if fmt.haveZeroAndSubnormals then 0 else unit) == (fmt.emax - fmt.emin) * unit + q
  }

  lemma FiguresAreCodes(fmt: FloatFormat, unit: nat, half: nat, one: nat, largest: nat, q: nat)
    requires WellFormed(fmt) && 2 <= fmt.expBits && Figures(fmt, unit, half, one, largest, q)
    ensures one == Shl(Pow2(fmt.expBits - 1) - 1, fmt.precision)
    ensures FirstInvalid(fmt) == largest + 1
    ensures largest + SkippedCodes(fmt) == Shl(fmt.emax - fmt.emin, fmt.precision) + q
  {
    hide Shl, Pow2;
    var p := fmt.precision;
    Pow2Next(fmt.expBits - 1);
    ShlIsProduct(half - 1, p);
    ShlIsProduct(2 * half - 1, p);
    ShlIsProduct(2 * half, p);
    ShlOfPow2(fmt.expBits, p);
    ShlIsProduct(fmt.emax - fmt.emin, p);
  }

  /** The largest number has the significand q at exponent emax. */
  lemma EntryEncodes(fmt: FloatFormat, unit: nat, half: nat, one: nat, largest: nat, q: nat)
    requires WellFormed(fmt) && IsBiased(fmt) && Figures(fmt, unit, half, one, largest, q)
    ensures Encodes(fmt, fmt.bitwidth, one, largest, Scale(q, fmt.emax - fmt.precision),
                    if fmt.haveZeroAndSubnormals then 1 else 0, Exp2(SmallestExponent(fmt)))
  {
    hide CodeValue, Exp2, Scale, Shl, FirstInvalid, Pow2, SkippedCodes;
    FiguresAreCodes(fmt, unit, half, one, largest, q);
    OneIffBiased(fmt);
    Pow2Next(fmt.precision);
    AssembledValue(fmt, fmt.emax, q, largest);
    LargestIsBelowNextPower(fmt, q);
    SmallestEncodes(fmt);
  }

  lemma LargestIsBelowNextPower(fmt: FloatFormat, q: nat)
    requires Pow2(fmt.precision) <= q < Pow2(fmt.precision + 1)
    ensures Exp2(fmt.emax) <= Scale(q, fmt.emax - fmt.precision) < Exp2(fmt.emax + 1)
  {
    hide *;
    var k := fmt.emax - fmt.precision;
    ScalePow2(fmt.precision, k);
    ScalePow2(fmt.precision + 1, k);
    ScaleLess(q, Pow2(fmt.precision + 1), k);
    if Pow2(fmt.precision) < q {
      ScaleLess(Pow2(fmt.precision), q, k);
    }
  }

  lemma SmallestEncodes(fmt: FloatFormat)
    ensures CodeValue(fmt, if fmt.haveZeroAndSubnormals then 1 else 0) == Exp2(SmallestExponent(fmt))
    ensures fmt.haveZeroAndSubnormals ==> CodeValue(fmt, 0) == 0.0
  {
    hide CodeValue, Exp2, Scale, Shl, Pow2;
    var p := fmt.precision;
    CodeOfPower(fmt, 0);
    ShlZero(p);
    if fmt.haveZeroAndSubnormals {
      FirstPowers();
      Pow2Monotone(0, p + 1);
      AssembledValue(fmt, fmt.emin, 1, 1);
      ScaleOne(fmt.emin - p);
    }
  }

  lemma ShortPower(n: nat, k: nat)
    ensures Scale(n, k) == Shl(n, k) as real
  {
    hide Exp2, Shl, Pow2;
    Exp2Nat(k);
    ShlIsProduct(n, k);
  }

  lemma ShortFraction(n: nat)
    ensures Scale(n, -1) == n as real / 2.0
    ensures Exp2(-1) == 0.5 && Exp2(-3) == 0.125 && Exp2(-4) == 0.0625
  {
    assert Exp2(-1) == 0.5;
  }

  lemma Float16Encodes()
    ensures Encodes(FLOAT16, 16, 0x3c00, 0x7bff, 65504.0, 1, Exp2(-24))
  {
    hide Encodes, Exp2, Scale;
    assert Pow2(8) == 0x100;
    EntryEncodes(FLOAT16, 0x400, 16, 0x3c00, 0x7bff, 0x7ff);
    ShortPower(2047, 5);
  }

  lemma Float32Encodes()
    ensures Encodes(FLOAT32, 32, 0x3f80_0000, 0x7f7f_ffff, Scale(0xff_ffff, 104), 1, Exp2(-149))
  {
    hide Encodes, Exp2, Scale;
    assert Pow2(8) == 0x100;
    assert Pow2(16) == 0x1_0000;
    EntryEncodes(FLOAT32, 0x80_0000, 0x80, 0x3f80_0000, 0x7f7f_ffff, 0xff_ffff);
  }

  lemma Float64Encodes()
    ensures Encodes(FLOAT64, 64, 0x3ff0_0000_0000_0000, 0x7fef_ffff_ffff_ffff,
                    Scale(0x1f_ffff_ffff_ffff, 971), 1, Exp2(-1074))
  {
    hide Encodes, Exp2, Scale;
    assert Pow2(8) == 0x100;
    assert Pow2(16) == 0x1_0000;
    assert Pow2(24) == 0x100_0000;
    assert Pow2(32) == 0x1_0000_0000;
    assert Pow2(40) == 0x100_0000_0000;
    assert Pow2(48) == 0x1_0000_0000_0000;
    EntryEncodes(FLOAT64, 0x10_0000_0000_0000, 0x400, 0x3ff0_0000_0000_0000, 0x7fef_ffff_ffff_ffff,
                 0x1f_ffff_ffff_ffff);
  }

  lemma Bfloat16Encodes()
    ensures Encodes(BFLOAT16, 16, 0x3f80, 0x7f7f, Scale(0xff, 120), 1, Exp2(-133))
  {
    hide Encodes, Exp2, Scale;
    EntryEncodes(BFLOAT16, 0x80, 0x80, 0x3f80, 0x7f7f, 0xff);
  }

  lemma Tfloat32Encodes()
    ensures Encodes(TFLOAT32, 19, 0x1_fc00, 0x3_fbff, Scale(0x7ff, 117), 1, Exp2(-136))
  {
    hide Encodes, Exp2, Scale;
    assert Pow2(8) == 0x100;
    EntryEncodes(TFLOAT32, 0x400, 0x80, 0x1_fc00, 0x3_fbff, 0x7ff);
  }

  lemma Float8E4m3Encodes()
    ensures Encodes(FLOAT8_E4M3FN, 8, 0x38, 0x7e, 448.0, 1, Exp2(-9))
  {
    hide Encodes, Exp2, Scale;
    EntryEncodes(FLOAT8_E4M3FN, 8, 8, 0x38, 0x7e, 14);
    ShortPower(14, 5);
  }

  lemma Float8E5m3Encodes()
    ensures Encodes(FLOAT8_E5M3FNU, 8, 0x78, 0xfe, 114688.0, 1, Exp2(-17))
  {
    hide Encodes, Exp2, Scale;
    EntryEncodes(FLOAT8_E5M3FNU, 8, 16, 0x78, 0xfe, 14);
    ShortPower(14, 13);
  }

  lemma Float8E5m2Encodes()
    ensures Encodes(FLOAT8_E5M2, 8, 0x3c, 0x7b, 57344.0, 1, Exp2(-16))
  {
    hide Encodes, Exp2, Scale;
    EntryEncodes(FLOAT8_E5M2, 4, 16, 0x3c, 0x7b, 7);
    ShortPower(7, 13);
  }

  lemma Float8E8m0Encodes()
    ensures Encodes(FLOAT8_E8M0FNU, 8, 0x7f, 0xfe, Exp2(127), 0, Exp2(-127))
  {
    hide Encodes, Exp2, Scale;
    EntryEncodes(FLOAT8_E8M0FNU, 1, 0x80, 0x7f, 0xfe, 1);
    ScaleOne(127);
  }

  lemma Float4E2m1Encodes()
    ensures Encodes(FLOAT4_E2M1FN, 4, 2, 7, 6.0, 1, 0.5)
  {
    hide Encodes, Exp2, Scale;
    EntryEncodes(FLOAT4_E2M1FN, 2, 2, 2, 7, 3);
    ShortPower(3, 1);
    ShortFraction(1);
  }

  lemma Float6E2m3Encodes()
    ensures Encodes(FLOAT6_E2M3FN, 6, 8, 31, 7.5, 1, 0.125)
  {
    hide Encodes, Exp2, Scale;
    EntryEncodes(FLOAT6_E2M3FN, 8, 2, 8, 31, 15);
    ShortFraction(15);
  }

  lemma Float6E3m2Encodes()
    ensures Encodes(FLOAT6_E3M2FN, 6, 12, 31, 28.0, 1, 0.0625)
  {
    hide Encodes, Exp2, Scale;
    EntryEncodes(FLOAT6_E3M2FN, 4, 4, 12, 31, 7);
    ShortPower(7, 2);
    ShortFraction(1);
  }

  /** The table, entry by entry. Numbers with few digits are written out, the others are an integer
      times a power of two. */
  lemma TableEncodes()
    ensures |FORMATS| == 12 && forall i :: 0 <= i < 12 ==> IsBiased(FORMATS[i])
    ensures Encodes(FORMATS[0], 16, 0x3c00, 0x7bff, 65504.0, 1, Exp2(-24))
    ensures Encodes(FORMATS[1], 32, 0x3f80_0000, 0x7f7f_ffff, Scale(0xff_ffff, 104), 1, Exp2(-149))
    ensures Encodes(FORMATS[2], 64, 0x3ff0_0000_0000_0000, 0x7fef_ffff_ffff_ffff,
                    Scale(0x1f_ffff_ffff_ffff, 971), 1, Exp2(-1074))
    ensures Encodes(FORMATS[3], 16, 0x3f80, 0x7f7f, Scale(0xff, 120), 1, Exp2(-133))
    ensures Encodes(FORMATS[4], 19, 0x1_fc00, 0x3_fbff, Scale(0x7ff, 117), 1, Exp2(-136))
    ensures Encodes(FORMATS[5], 8, 0x38, 0x7e, 448.0, 1, Exp2(-9))
    ensures Encodes(FORMATS[6], 8, 0x78, 0xfe, 114688.0, 1, Exp2(-17))
    ensures Encodes(FORMATS[7], 8, 0x3c, 0x7b, 57344.0, 1, Exp2(-16))
    ensures Encodes(FORMATS[8], 8, 0x7f, 0xfe, Exp2(127), 0, Exp2(-127))
    ensures Encodes(FORMATS[9], 4, 2, 7, 6.0, 1, 0.5)
    ensures Encodes(FORMATS[10], 6, 8, 31, 7.5, 1, 0.125)
    ensures Encodes(FORMATS[11], 6, 12, 31, 28.0, 1, 0.0625)
  {
    hide Encodes, Exp2, Scale;
    Float16Encodes();
    Float32Encodes();
    Float64Encodes();
    Bfloat16Encodes();
    Tfloat32Encodes();
    Float8E4m3Encodes();
    Float8E5m3Encodes();
    Float8E5m2Encodes();
    Float8E8m0Encodes();
    Float4E2m1Encodes();
    Float6E2m3Encodes();
    Float6E3m2Encodes();
  }
}
