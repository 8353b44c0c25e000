/** Constant folding of a float operation: computed in binary64 and encoded back, the result is
    the exact one rounded once. */
module FloatFolding {
  import opened PowersOfTwo
  import opened FloatFormats
  import opened FloatRounding
  import opened FloatEncode
  import opened FloatConversions
  import opened FloatDecode

  /** Less than half of binary64's precision and exponent range: binary64 has room for products and
      quotients. */
  ghost predicate HalfOfFloat64(fmt: FloatFormat) {
    && NarrowerThanFloat64(fmt)
    && 2 * (fmt.precision + 1) <= 53
    && 2 * (fmt.emin - fmt.precision) >= -1074
    && 2 * (fmt.emax + 1) <= 1024
    && fmt.emax + 1 - fmt.emin + fmt.precision <= 900
  }

  lemma TableIsHalfOfFloat64()
    ensures forall i :: 0 <= i < |FORMATS| && FORMATS[i] != FLOAT64 ==> HalfOfFloat64(FORMATS[i])
  {
    TableIsWellFormed();
  }

  /** A number of the format is an integer of p+1 bits times a power of two. */
  lemma CodeParts(fmt: FloatFormat, m: nat) returns (q: nat, k: int)
    requires WellFormed(fmt)
    ensures q < Pow2(fmt.precision + 1) && CodeValue(fmt, m) == Scale(q, k) && k >= fmt.emin - fmt.precision
    ensures m + SkippedCodes(fmt) == Shl(k - fmt.emin + fmt.precision, fmt.precision) + q
    ensures k > fmt.emin - fmt.precision ==> q >= Pow2(fmt.precision)
    ensures m < FirstInvalid(fmt) ==> k <= fmt.emax - fmt.precision
  {
    hide Shl, Shr, LowBits, Pow2, Scale, FirstInvalid, UnitMagnitude;
    var p := fmt.precision;
    var e;
    e, q := Unpack(p, m + SkippedCodes(fmt));
    k := e + fmt.emin - p;
    ScaleShl(q, e, fmt.emin - p);
    FirstInvalidBounds(fmt);
    Pow2IsShl(p);
    Pow2Next(p);
    if m < FirstInvalid(fmt) && e > fmt.emax - fmt.emin {
      var skip := if fmt.haveZeroAndSubnormals then 0 else 1;
      ShlMonotone(TopExponentField(fmt) + 1, e + 1 - skip, p);
      ShlSum(e, 1, p);
      assert false;
    }
  }

  /** An integer of w <= 53 bits, scaled within the exponent range, is a binary64 number. */
  lemma RepresentableInF64(n: nat, w: nat, k: int) returns (c: nat)
    requires w <= 53 && n < Pow2(w) && -1074 <= k <= 1024 - w
    ensures c < FirstInvalid(FLOAT64) && CodeValue(FLOAT64, c) == Scale(n, k)
  {
    hide Shl, Shr, LowBits, Pow2, Scale, CodeValue, BitLength;
    if n == 0 {
      c := 0;
      ShlZero(52);
      AssembledValue(FLOAT64, -1022, 0, 0);
      ScaleZero(-1074);
      ScaleZero(k);
      F64CodeIsFinite(0, 0);
    } else {
      var width := BitLength(n);
      BitLengthBounds(n);
      if width > w {
        Pow2Monotone(w, width - 1);
      }
      var room := if k + 1074 < 53 - width then k + 1074 else 53 - width;
      SignificandFits(n, room);
      var e := k - room + 52;
      c := Shl(e + 1022, 52) + Shl(n, room);
      ScaleShl(n, room, k - room);
      AssembledValue(FLOAT64, e, Shl(n, room), c);
      F64CodeIsFinite(e + 1022, Shl(n, room));
    }
  }

  lemma SignificandFits(n: nat, room: nat)
    requires n > 0 && BitLength(n) + room <= 53
    ensures Shl(n, room) < Pow2(53)
    ensures BitLength(n) + room == 53 ==> Shl(n, room) >= Pow2(52)
  {
    hide Shl, Pow2, BitLength;
    var width := BitLength(n);
    BitLengthBounds(n);
    ShlOrder(n, Pow2(width), room);
    ShlOfPow2(width, room);
    Pow2Monotone(width + room, 53);
    ShlMonotone(Pow2(width - 1), n, room);
    ShlOfPow2(width - 1, room);
  }

  lemma F64CodeIsFinite(e: nat, q: nat)
    requires e <= 2045 && q < Pow2(53)
    ensures Shl(e, 52) + q < FirstInvalid(FLOAT64)
  {
    hide Shl, Pow2;
    Pow2Of52();
    Pow2Next(52);
    Pow2IsShl(52);
    ShlSum(e, 1, 52);
    ShlSum(e + 1, 1, 52);
    ShlMonotone(e + 2, 2047, 52);
  }

  lemma ScaleProduct(a: nat, i: int, b: nat, j: int)
    ensures Scale(a, i) * Scale(b, j) == Scale(a * b, i + j)
  {
    Exp2Add(i, j);
    hide Exp2;
    Regroup(a as real, Exp2(i), b as real, Exp2(j));
    ProductAsReal(a, b);
  }

  lemma Regroup(a: real, x: real, b: real, y: real)
    ensures (a * x) * (b * y) == (a * b) * (x * y)
  {
  }

  lemma ProductAsReal(a: nat, b: nat)
    ensures (a * b) as real == a as real * b as real
  {
  }

  lemma ProductBits(a: nat, b: nat, i: nat, j: nat)
    requires a < Pow2(i) && b < Pow2(j)
    ensures a * b < Pow2(i + j)
  {
    hide Shl, Pow2;
    ShlIsProduct(a, j);
    ProductMonotone(a, b, Pow2(j));
    ShlOrder(a, Pow2(i), j);
    ShlOfPow2(i, j);
  }

  lemma ProductMonotone(a: nat, b: nat, c: nat)
    requires b <= c
    ensures a * b <= a * c
  {
  }

  ghost function Product(x: real, y: real): real { x * y }

  /** The product of two finite numbers of the format is a binary64 number. */
  lemma ProductIsExact(fmt: FloatFormat, a: nat, b: nat) returns (c: nat)
    requires HalfOfFloat64(fmt) && a < FirstInvalid(fmt) && b < FirstInvalid(fmt)
    ensures c < FirstInvalid(FLOAT64) && CodeValue(FLOAT64, c) == Product(CodeValue(fmt, a), CodeValue(fmt, b))
  {
    hide Pow2, Scale, CodeValue, FirstInvalid;
    var qa, ka := CodeParts(fmt, a);
    var qb, kb := CodeParts(fmt, b);
    ScaleProduct(qa, ka, qb, kb);
    ProductBits(qa, qb, fmt.precision + 1, fmt.precision + 1);
    c := RepresentableInF64(qa * qb, 2 * (fmt.precision + 1), ka + kb);
  }

  /** What comes back from binary64 when the operation's exact result is a binary64 number. */
  lemma ExactResultRoundsOnce(fmt: FloatFormat, sign: bool, c: nat, exact: real, bits: nat, r: Conversion)
    requires NarrowerThanFloat64(fmt) && c < FirstInvalid(FLOAT64) && CodeValue(FLOAT64, c) == exact
    requires CorrectlyConverted(FLOAT64, sign, exact, Ok(bits))
    requires EncodesDouble(fmt, bits, r)
    ensures CorrectlyConverted(fmt, sign, exact, r)
  {
    hide Shl, Shr, LowBits, Pow2, CodeValue, FirstInvalid, RoundsTo, CorrectlyConverted;
    ExactRounding(FLOAT64, c, exact);
    assert CorrectlyConverted(FLOAT64, sign, exact, Ok(Packed(FLOAT64, sign, c))) by {
      ExactConversion(FLOAT64, sign, c, exact);
    }
    ConversionIsUnique(FLOAT64, sign, exact, Ok(bits), Ok(Packed(FLOAT64, sign, c)));
    FiniteF64Bits(sign, c);
  }

  lemma ExactConversion(fmt: FloatFormat, sign: bool, c: nat, x: real)
    requires RoundsTo(fmt, c, x) && c < FirstInvalid(fmt) && (sign ==> fmt.haveSign)
    ensures CorrectlyConverted(fmt, sign, x, Ok(Packed(fmt, sign, c)))
  {
  }

  lemma FiniteF64Bits(sign: bool, c: nat)
    requires c < FirstInvalid(FLOAT64)
    ensures var bits := Packed(FLOAT64, sign, c);
            bits < TWO_64 && IsF64Finite(bits) && F64Sign(bits) == sign
            && F64Value(bits) == CodeValue(FLOAT64, c)
  {
    hide Shl, Shr, LowBits, Pow2, CodeValue;
    Pow2Of52();
    Pow2Of63And64();
    Pow2Of11();
    F64WellFormed();
    FirstInvalidBounds(FLOAT64);
    var field, low := Shr(c, 52), LowBits(c, 52);
    Split(c, 52);
    TopFieldOfFinite(FLOAT64, c);
    F64Fields(sign, field, low);
    Pow2IsShl(63);
    ShlZero(63);
  }

  lemma Pow2Of11()
    ensures Pow2(11) == 2048
  {
  }

  /** Folding a multiplication. x and y are finite encodings; `product` is what an IEEE 754
      multiplication of the decoded operands returns, and r is that encoded back. Then r is the
      exact product, rounded once. */
  lemma FoldedProduct(fmt: FloatFormat, x: nat, y: nat, product: nat, r: Conversion)
    requires HalfOfFloat64(fmt) && IsEncoding(fmt, x) && IsEncoding(fmt, y)
    requires MagnitudeOf(fmt, x) < FirstInvalid(fmt) && MagnitudeOf(fmt, y) < FirstInvalid(fmt)
    requires var a, b := DecodeFloat(fmt, x), DecodeFloat(fmt, y);
             CorrectlyConverted(FLOAT64, F64Sign(a) != F64Sign(b), Product(F64Value(a), F64Value(b)), Ok(product))
    requires EncodesDouble(fmt, product, r)
    ensures CorrectlyConverted(fmt, SignOf(fmt, x) != SignOf(fmt, y),
              Product(CodeValue(fmt, MagnitudeOf(fmt, x)), CodeValue(fmt, MagnitudeOf(fmt, y))), r)
  {
    hide Product, CorrectlyConverted, EncodesDouble, DecodeFloat, CodeValue, FirstInvalid, MagnitudeOf, SignOf, F64Sign,
      F64Value;
    DecodeIsExact(fmt, x);
    DecodeIsExact(fmt, y);
    var c := ProductIsExact(fmt, MagnitudeOf(fmt, x), MagnitudeOf(fmt, y));
    ExactResultRoundsOnce(fmt, SignOf(fmt, x) != SignOf(fmt, y), c, CodeValue(FLOAT64, c), product, r);
  }
}
