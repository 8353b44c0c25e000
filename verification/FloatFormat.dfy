/** The FloatFormat record and what an encoding of such a format means. */
module FloatFormats {
  import opened PowersOfTwo

  datatype NonFiniteBehavior = IEEE | NanOnlyAllOnes | FiniteOnly

  datatype FloatFormat = FloatFormat(
    emin: int, emax: int, bitwidth: nat, expBits: nat, precision: nat,
    nonFinite: NonFiniteBehavior, haveSign: bool, haveZeroAndSubnormals: bool)

  /** The first magnitude encoding that is not a finite number. */
  function FirstInvalid(fmt: FloatFormat): nat {
    match fmt.nonFinite
    case IEEE => Shl(Pow2(fmt.expBits) - 1, fmt.precision)
    case NanOnlyAllOnes => Pow2(fmt.expBits + fmt.precision) - 1
    case FiniteOnly => Pow2(fmt.expBits + fmt.precision)
  }

  /** A format without a zero starts at the encoding that would be its first normal number:
      its encodings are those of the same format with a zero, shifted by this amount. */
  function SkippedCodes(fmt: FloatFormat): nat {
    if fmt.haveZeroAndSubnormals then 0 else Pow2(fmt.precision)
  }

  function Max(a: int, b: int): int { if a < b then b else a }

  /** The relations between the fields that the rounding routine relies on. Each entry of the
      format table meets them (TableIsWellFormed). */
  ghost predicate WellFormed(fmt: FloatFormat) {
    && 1 <= fmt.expBits <= 11
    && fmt.precision <= 52 && fmt.bitwidth <= 64
    && (if fmt.haveSign then 1 else 0) + fmt.expBits + fmt.precision == fmt.bitwidth
    && (fmt.nonFinite != NanOnlyAllOnes ==> fmt.haveSign)
    && (fmt.nonFinite == IEEE ==> fmt.precision >= 1)
    && (if fmt.haveZeroAndSubnormals then fmt.precision >= 1 else !fmt.haveSign)
    && fmt.emin <= fmt.emax
    // emax is the exponent of the largest finite encoding
    && fmt.emax - fmt.emin + (if fmt.haveZeroAndSubnormals then 1 else 0)
       == TopExponentField(fmt)
  }

  /** The exponent field of the largest finite encoding. */
  function TopExponentField(fmt: FloatFormat): int {
    if fmt.nonFinite == IEEE || (fmt.nonFinite == NanOnlyAllOnes && fmt.precision == 0)
    then Pow2(fmt.expBits) - 2 else Pow2(fmt.expBits) - 1
  }

  function IeeeLike(emin: int, emax: int, bitwidth: nat, expBits: nat, precision: nat): FloatFormat {
    FloatFormat(emin, emax, bitwidth, expBits, precision, IEEE, true, true)
  }

  const FLOAT16 := IeeeLike(-14, 15, 16, 5, 10)
  const FLOAT32 := IeeeLike(-126, 127, 32, 8, 23)
  const FLOAT64 := IeeeLike(-1022, 1023, 64, 11, 52)
  const BFLOAT16 := IeeeLike(-126, 127, 16, 8, 7)
  const TFLOAT32 := IeeeLike(-126, 127, 19, 8, 10)
  const FLOAT8_E5M2 := IeeeLike(-14, 15, 8, 5, 2)
  const FLOAT8_E4M3FN := FloatFormat(-6, 8, 8, 4, 3, NanOnlyAllOnes, true, true)
  const FLOAT8_E5M3FNU := FloatFormat(-14, 16, 8, 5, 3, NanOnlyAllOnes, false, true)
  const FLOAT8_E8M0FNU := FloatFormat(-127, 127, 8, 8, 0, NanOnlyAllOnes, false, false)
  const FLOAT4_E2M1FN := FloatFormat(0, 2, 4, 2, 1, FiniteOnly, true, true)
  const FLOAT6_E2M3FN := FloatFormat(0, 2, 6, 2, 3, FiniteOnly, true, true)
  const FLOAT6_E3M2FN := FloatFormat(-2, 4, 6, 3, 2, FiniteOnly, true, true)

  const FORMATS: seq<FloatFormat> :=
    [FLOAT16, FLOAT32, FLOAT64, BFLOAT16, TFLOAT32, FLOAT8_E4M3FN, FLOAT8_E5M3FNU,
     FLOAT8_E5M2, FLOAT8_E8M0FNU, FLOAT4_E2M1FN, FLOAT6_E2M3FN, FLOAT6_E3M2FN]

  /** A format whose finite values are all values of binary64, and that is not binary64 itself. */
  ghost predicate NarrowerThanFloat64(fmt: FloatFormat) {
    && WellFormed(fmt)
    && fmt != FLOAT64
    && fmt.emin - fmt.precision >= -1022
    && fmt.emax <= 1023
  }

  lemma TableIsWellFormed()
    ensures forall i :: 0 <= i < |FORMATS| ==> WellFormed(FORMATS[i])
    ensures forall i :: 0 <= i < |FORMATS| && FORMATS[i] != FLOAT64 ==> NarrowerThanFloat64(FORMATS[i])
  {
    assert Pow2(2) == 4 && Pow2(3) == 8 && Pow2(4) == 16 && Pow2(5) == 32;
    assert Pow2(8) == 256 && Pow2(11) == 2048;
  }

  // ---- The value of an encoding ----

  ghost function Exp2(k: int): (r: real)
    ensures r > 0.0
    decreases if k >= 0 then k else -k
  {
    if k == 0 then 1.0 else if k > 0 then 2.0 * Exp2(k - 1) else Exp2(k + 1) / 2.0
  }

  /** n * 2^k. */
  ghost function Scale(n: nat, k: int): real { n as real * Exp2(k) }

  /** The value of magnitude encoding m, of a format with a zero and p fraction bits, as a
      multiple of that format's smallest subnormal number (IEEE 754-2019 section 3.4). */
  function UnitMagnitude(p: nat, m: nat): nat {
    var field := Shr(m, p);
    if field == 0 then m else Shl(Pow2(p) + LowBits(m, p), field - 1)
  }

  /** The value of magnitude encoding m. Encodings past FirstInvalid are read as if the exponent
      range went on: IEEE 754-2019 section 7.4 decides overflow on such a result. */
  ghost function CodeValue(fmt: FloatFormat, m: nat): real {
    Scale(UnitMagnitude(fmt.precision, m + SkippedCodes(fmt)), fmt.emin - fmt.precision)
  }

  ghost function Distance(a: real, b: real): real { if a < b then b - a else a - b }

  ghost predicate IsNearest(fmt: FloatFormat, m: nat, x: real) {
    forall k: nat :: Distance(CodeValue(fmt, m), x) <= Distance(CodeValue(fmt, k), x)
  }

  /** Ties go to the even significand, which is the even encoding. The significands of a format
      without fraction bits are all odd: there the larger value is taken. */
  ghost predicate TieGoesTo(fmt: FloatFormat, m: nat, other: nat) {
    if fmt.precision >= 1 then m % 2 == 0 else other < m
  }

  /** roundTiesToEven of IEEE 754-2019 section 4.3.1, with an unbounded exponent range above. */
  ghost predicate RoundsTo(fmt: FloatFormat, m: nat, x: real) {
    && IsNearest(fmt, m, x)
    && forall k: nat :: k != m && IsNearest(fmt, k, x) ==> TieGoesTo(fmt, m, k)
  }

  // ---- Powers of two over the reals ----

  lemma Exp2Next(k: int)
    ensures Exp2(k + 1) == 2.0 * Exp2(k)
  {
  }

  lemma DoubleProduct(x: real, y: real)
    ensures x * (2.0 * y) == 2.0 * (x * y)
  {
  }

  lemma Exp2Zero()
    ensures Exp2(0) == 1.0
  {
  }

  lemma {:induction false} Exp2Add(a: int, b: int)
    ensures Exp2(a + b) == Exp2(a) * Exp2(b)
    decreases if b >= 0 then b else -b
  {
    Exp2Zero();
    hide Exp2;
    if b > 0 {
      Exp2Add(a, b - 1);
      Exp2Next(a + b - 1);
      Exp2Next(b - 1);
      DoubleProduct(Exp2(a), Exp2(b - 1));
    } else if b < 0 {
      Exp2Add(a, b + 1);
      Exp2Next(a + b);
      Exp2Next(b);
      DoubleProduct(Exp2(a), Exp2(b));
    }
  }

  lemma {:induction false} Exp2Nat(k: nat)
    ensures Exp2(k) == Pow2(k) as real
  {
    if k > 0 {
      Exp2Nat(k - 1);
    }
  }

  lemma {:induction false} Exp2Monotone(a: int, b: int)
    requires a <= b
    ensures Exp2(a) <= Exp2(b)
    decreases b - a
  {
    if a < b {
      Exp2Next(b - 1);
      Exp2Monotone(a, b - 1);
    }
  }

  lemma ScaleLess(a: nat, b: nat, k: int)
    requires a < b
    ensures Scale(a, k) < Scale(b, k)
  {
    hide Exp2;
    RealMulStrict(a as real, b as real, Exp2(k));
  }

  lemma RealMulStrict(a: real, b: real, c: real)
    requires a < b && c > 0.0
    ensures a * c < b * c
  {
  }

  lemma ScaleSum(a: nat, b: nat, k: int)
    ensures Scale(a + b, k) == Scale(a, k) + Scale(b, k)
  {
    hide Exp2;
    Distribute(a as real, b as real, Exp2(k));
  }

  lemma Distribute(a: real, b: real, c: real)
    ensures (a + b) * c == a * c + b * c
  {
  }

  /** Doubling the number and raising the exponent are the same. */
  lemma ScaleDouble(a: nat, k: int)
    ensures Scale(2 * a, k) == Scale(a, k + 1)
  {
    ScaleSum(a, a, k);
    Exp2Next(k);
    hide Exp2;
    DoubleProduct(a as real, Exp2(k));
  }

  lemma {:induction false} ScaleShl(q: nat, d: nat, k: int)
    ensures Scale(Shl(q, d), k) == Scale(q, k + d)
  {
    if d > 0 {
      ScaleDouble(Shl(q, d - 1), k);
      ScaleShl(q, d - 1, k + 1);
    }
    hide Scale;
  }

  lemma ScalePow2(n: nat, k: int)
    ensures Scale(Pow2(n), k) == Exp2(k + n)
  {
    hide Scale;
    Pow2IsShl(n);
    ScaleShl(1, n, k);
    ScaleOne(k + n);
  }

  lemma ScaleOne(k: int)
    ensures Scale(1, k) == Exp2(k)
  {
    hide Exp2;
  }

  lemma ScaleZero(k: int)
    ensures Scale(0, k) == 0.0
  {
    hide Exp2;
  }

  // ---- The encodings are in the order of their values ----

  /** The addition that assembles an encoding: an exponent one less than the biased one, plus a
      significand with its leading one. It stays right for subnormal significands, and when
      rounding has carried the significand to the next power of two. */
  lemma PackedCode(p: nat, e: nat, q: nat)
    requires q <= Pow2(p + 1) && (e > 0 ==> q >= Pow2(p))
    ensures UnitMagnitude(p, Shl(e, p) + q) == Shl(q, e)
  {
    hide Shl, Shr, LowBits, Pow2, UnitMagnitude;
    var one := Pow2(p);
    Pow2Next(p);
    if q < one {
      ShlZero(p);
      ShlBy0(q);
      MagnitudeOfParts(p, 0, q);
    } else {
      ShlOfPow2(0, p);
      Pow2IsShl(p);
      if q < 2 * one {
        ShlSum(e, 1, p);
        MagnitudeOfParts(p, e + 1, q - one);
      } else {
        ShlSum(e, 2, p);
        ShlSum(1, 1, p);
        MagnitudeOfParts(p, e + 2, 0);
        ShlOfDouble(one, e);
      }
    }
  }

  /** What an encoding with the given field and fraction stands for. */
  lemma MagnitudeOfParts(p: nat, field: nat, low: nat)
    requires low < Pow2(p)
    ensures UnitMagnitude(p, Shl(field, p) + low)
            == if field == 0 then Shl(field, p) + low else Shl(Pow2(p) + low, field - 1)
  {
    hide Shl, Shr, LowBits, Pow2;
    SplitUnique(field, low, p);
  }

  lemma {:induction false} ShlOfDouble(q: nat, e: nat)
    ensures Shl(2 * q, e) == Shl(q, e + 1)
  {
    if e > 0 {
      ShlOfDouble(q, e - 1);
    }
  }

  /** Every encoding is packed from a significand of at most p+1 bits. */
  lemma Unpack(p: nat, m: nat) returns (e: nat, q: nat)
    ensures m == Shl(e, p) + q && q < Pow2(p + 1) && (e > 0 ==> q >= Pow2(p))
    ensures UnitMagnitude(p, m) == Shl(q, e)
  {
    Split(m, p);
    var field := Shr(m, p);
    if field == 0 {
      e, q := 0, m;
      ShlZero(p);
    } else {
      e, q := field - 1, Pow2(p) + LowBits(m, p);
      ShlSum(e, 1, p);
      Pow2IsShl(p);
    }
  }

  lemma NextMagnitude(p: nat, m: nat)
    ensures UnitMagnitude(p, m) < UnitMagnitude(p, m + 1)
  {
    var e, q := Unpack(p, m);
    PackedCode(p, e, q + 1);
    ShlOrder(q, q + 1, e);
  }

  lemma {:induction false} MagnitudeIncreases(p: nat, m: nat, k: nat)
    requires m < k
    ensures UnitMagnitude(p, m) < UnitMagnitude(p, k)
    decreases k - m
  {
    NextMagnitude(p, k - 1);
    if m < k - 1 {
      MagnitudeIncreases(p, m, k - 1);
    }
  }

  lemma LargerCodeLargerValue(fmt: FloatFormat, m: nat, k: nat)
    requires m < k
    ensures CodeValue(fmt, m) < CodeValue(fmt, k)
  {
    hide UnitMagnitude, SkippedCodes, Scale;
    var s := SkippedCodes(fmt);
    MagnitudeIncreases(fmt.precision, m + s, k + s);
    ScaleLess(UnitMagnitude(fmt.precision, m + s), UnitMagnitude(fmt.precision, k + s),
              fmt.emin - fmt.precision);
  }

  lemma CodeOrderIsValueOrder(fmt: FloatFormat, m: nat, k: nat)
    ensures m < k <==> CodeValue(fmt, m) < CodeValue(fmt, k)
  {
    if m < k {
      LargerCodeLargerValue(fmt, m, k);
    } else if k < m {
      LargerCodeLargerValue(fmt, k, m);
    }
  }

  /** A number has at most one correct rounding. */
  lemma RoundingIsUnique(fmt: FloatFormat, m: nat, k: nat, x: real)
    requires RoundsTo(fmt, m, x) && RoundsTo(fmt, k, x)
    ensures m == k
  {
    hide CodeValue, Distance;
    if m < k {
      NearestAreAdjacent(fmt, m, k, x);
    } else if k < m {
      NearestAreAdjacent(fmt, k, m, x);
    }
  }

  lemma NearestAreAdjacent(fmt: FloatFormat, lo: nat, hi: nat, x: real)
    requires lo < hi && IsNearest(fmt, lo, x) && IsNearest(fmt, hi, x)
    ensures hi == lo + 1
  {
    var mid := lo + 1;
    LargerCodeLargerValue(fmt, lo, mid);
    if mid < hi {
      LargerCodeLargerValue(fmt, mid, hi);
      BetweenIsNearer(CodeValue(fmt, lo), CodeValue(fmt, mid), CodeValue(fmt, hi), x);
    }
  }

  lemma BetweenIsNearer(a: real, b: real, c: real, x: real)
    requires a < b < c
    ensures Distance(b, x) < Distance(a, x) || Distance(b, x) < Distance(c, x)
  {
  }

  /** A representable value rounds to itself. */
  lemma ExactRounding(fmt: FloatFormat, m: nat, x: real)
    requires x == CodeValue(fmt, m)
    ensures RoundsTo(fmt, m, x)
  {
    forall k: nat | k != m ensures !IsNearest(fmt, k, x) {
      CodeOrderIsValueOrder(fmt, m, k);
      CodeOrderIsValueOrder(fmt, k, m);
      assert Distance(CodeValue(fmt, m), x) == 0.0;
    }
  }
}
