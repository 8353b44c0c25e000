/** Constant folding of float additions, subtractions and divisions: rounding to binary64 first and
    to the format afterwards is harmless. */
module FloatDoubleRounding {
  import opened PowersOfTwo
  import opened FloatFormats
  import opened FloatRounding
  import opened FloatEncode
  import opened FloatConversions
  import opened FloatDecode
  import opened FloatFolding

  // ---- Order ----

  lemma MonotoneRounding(fmt: FloatFormat, c: nat, d: nat, x: real)
    requires RoundsTo(fmt, c, x)
    ensures x <= CodeValue(fmt, d) ==> c <= d && CodeValue(fmt, c) <= CodeValue(fmt, d)
    ensures x >= CodeValue(fmt, d) ==> c >= d && CodeValue(fmt, c) >= CodeValue(fmt, d)
  {
    hide CodeValue;
    CodeOrderIsValueOrder(fmt, c, d);
    CodeOrderIsValueOrder(fmt, d, c);
    assert Distance(CodeValue(fmt, c), x) <= Distance(CodeValue(fmt, d), x);
  }

  /** Halfway between two neighbouring numbers of the format. */
  ghost function Midpoint(fmt: FloatFormat, k: nat): real { (CodeValue(fmt, k) + CodeValue(fmt, k + 1)) / 2.0 }

  /** x and what it is rounded to are on the same side of the midpoint. */
  ghost predicate SameSide(x: real, y: real, mid: real) {
    (x < mid ==> y < mid) && (x > mid ==> y > mid) && (x == mid ==> y == mid)
  }

  /** Rounding to binary64 does not move a number across one of binary64, nor onto it by assumption. */
  lemma StaysOnSide(x: real, c: nat, m: nat)
    requires RoundsTo(FLOAT64, c, x)
    requires CodeValue(FLOAT64, c) == CodeValue(FLOAT64, m) ==> x == CodeValue(FLOAT64, m)
    ensures SameSide(x, CodeValue(FLOAT64, c), CodeValue(FLOAT64, m))
  {
    hide CodeValue, RoundsTo;
    MonotoneRounding(FLOAT64, c, m, x);
    if x == CodeValue(FLOAT64, m) {
      ExactRounding(FLOAT64, m, x);
      RoundingIsUnique(FLOAT64, c, m, x);
    }
  }

  lemma NearestIsBetweenMidpoints(fmt: FloatFormat, r: nat, y: real)
    requires RoundsTo(fmt, r, y)
    ensures y <= Midpoint(fmt, r)
    ensures r > 0 ==> y >= Midpoint(fmt, r - 1)
    ensures y == Midpoint(fmt, r) ==> TieGoesTo(fmt, r, r + 1)
    ensures r > 0 && y == Midpoint(fmt, r - 1) ==> TieGoesTo(fmt, r, r - 1)
  {
    hide CodeValue, TieGoesTo;
    LargerCodeLargerValue(fmt, r, r + 1);
    assert Distance(CodeValue(fmt, r), y) <= Distance(CodeValue(fmt, r + 1), y);
    if r > 0 {
      LargerCodeLargerValue(fmt, r - 1, r);
      assert Distance(CodeValue(fmt, r), y) <= Distance(CodeValue(fmt, r - 1), y);
      if y == Midpoint(fmt, r - 1) {
        assert IsNearest(fmt, r - 1, y);
      }
    }
    if y == Midpoint(fmt, r) {
      assert IsNearest(fmt, r + 1, y);
    }
  }

  /** If x is on the same side of the two midpoints around r as y, it rounds to r as y does. */
  lemma RoundsLike(fmt: FloatFormat, r: nat, x: real, y: real)
    requires RoundsTo(fmt, r, y)
    requires SameSide(x, y, Midpoint(fmt, r)) && (r > 0 ==> SameSide(x, y, Midpoint(fmt, r - 1)))
    ensures RoundsTo(fmt, r, x)
  {
    NearestIsBetweenMidpoints(fmt, r, y);
    hide CodeValue, TieGoesTo, RoundsTo;
    if x >= CodeValue(fmt, r) {
      RoundDown(fmt, r, x);
    } else if r == 0 {
      BelowEverything(fmt, x);
    } else {
      RoundUp(fmt, r - 1, x);
    }
  }

  // ---- Midpoints ----

  /** The midpoint above code k is an odd multiple of 2^l, and its neighbours are 2^l away. */
  ghost predicate IsMidpoint(fmt: FloatFormat, k: nat, q: nat, l: int) {
    && q % 2 == 1 && q < Pow2(fmt.precision + 2) && l >= fmt.emin - fmt.precision - 1
    && CodeValue(fmt, k) == Scale(q, l) - Exp2(l) && CodeValue(fmt, k + 1) == Scale(q, l) + Exp2(l)
  }

  lemma MidpointOf(fmt: FloatFormat, k: nat, bound: int) returns (q: nat, l: int)
    requires CodeValue(fmt, k) <= Exp2(bound) && bound >= fmt.emin
    ensures IsMidpoint(fmt, k, q, l) && Midpoint(fmt, k) == Scale(q, l) && l <= bound - fmt.precision - 1
  {
    hide Shl, Shr, LowBits, Pow2, Scale, Exp2, UnitMagnitude;
    var p, skip := fmt.precision, SkippedCodes(fmt);
    var e, s := Unpack(p, k + skip);
    PackedCode(p, e, s + 1);
    ScaleShl(s, e, fmt.emin - p);
    ScaleShl(s + 1, e, fmt.emin - p);
    q, l := 2 * s + 1, e + fmt.emin - p - 1;
    Pow2Next(p + 1);
    ScaleDouble(s, l);
    ScaleDouble(s + 1, l);
    ScaleSum(2 * s, 1, l);
    ScaleSum(2 * s + 1, 1, l);
    ScaleOne(l);
    if e > 0 && l > bound - p - 1 {
      ScaleAtLeast(Pow2(p), s, l + 1);
      ScalePow2(p, l + 1);
      Exp2StrictlyMonotone(bound, e + fmt.emin);
    }
  }

  lemma Exp2StrictlyMonotone(a: int, b: int)
    requires a < b
    ensures 2.0 * Exp2(a) <= Exp2(b) && Exp2(a) < Exp2(b)
  {
    Exp2Next(a);
    Exp2Monotone(a + 1, b);
  }

  lemma ScaleAtLeast(a: nat, b: nat, k: int)
    requires a <= b
    ensures Scale(a, k) <= Scale(b, k)
  {
    if a < b {
      ScaleLess(a, b, k);
    }
  }

  /** A number q * 2^l of few bits that x is rounded to is within half a unit of binary64's last
      place from x. */
  lemma CloseToResult(x: real, c: nat, q: nat, l: int)
    requires RoundsTo(FLOAT64, c, x) && CodeValue(FLOAT64, c) == Scale(q, l)
    requires 0 < q < Pow2(27) && -700 <= l <= 900
    ensures Distance(x, Scale(q, l)) <= Exp2(l + BitLength(q) - 54)
  {
    hide Shl, Pow2, Scale, CodeValue, Exp2, RoundsTo, BitLength;
    var n := BitLength(q);
    BitLengthBounds(q);
    if n > 27 {
      Pow2Monotone(27, n - 1);
    }
    var room := 53 - n;
    var k := l - room;
    var big := Shl(q, room);
    SignificandFits(q, room);
    ShiftedIsEven(q, room);
    Pow2Next(52);
    ScaleShl(q, room, k);
    ScaleSum(big, 1, k);
    ScaleSum(big - 1, 1, k);
    ScaleOne(k);
    var up := RepresentableInF64(big + 1, 53, k);
    var down := RepresentableInF64(big - 1, 53, k);
    Exp2Next(k - 1);
    NearestStep(x, c, up, down, Exp2(k));
  }

  lemma ShiftedIsEven(q: nat, room: nat)
    requires room > 0
    ensures Shl(q, room) % 2 == 0
  {
    assert Shl(q, room) == 2 * Shl(q, room - 1);
  }

  lemma NearestStep(x: real, c: nat, up: nat, down: nat, u: real)
    requires RoundsTo(FLOAT64, c, x) && u > 0.0
    requires CodeValue(FLOAT64, up) == CodeValue(FLOAT64, c) + u
    requires CodeValue(FLOAT64, down) == CodeValue(FLOAT64, c) - u
    ensures 2.0 * Distance(x, CodeValue(FLOAT64, c)) <= u
  {
    hide CodeValue;
    assert Distance(CodeValue(FLOAT64, c), x) <= Distance(CodeValue(FLOAT64, up), x);
    assert Distance(CodeValue(FLOAT64, c), x) <= Distance(CodeValue(FLOAT64, down), x);
  }

  // ---- Double rounding ----

  /** x is not close to any midpoint without being it. */
  ghost predicate Separated(fmt: FloatFormat, x: real) {
    forall k: nat, q: nat, l: int :: IsMidpoint(fmt, k, q, l) && Scale(q, l) != x ==>
      Distance(x, Scale(q, l)) > Exp2(l + BitLength(q) - 54)
  }

  lemma SideOfMidpoint(fmt: FloatFormat, x: real, c: nat, k: nat, bound: int)
    requires HalfOfFloat64(fmt) && Separated(fmt, x) && RoundsTo(FLOAT64, c, x)
    requires CodeValue(fmt, k) <= Exp2(bound) && fmt.emin <= bound <= 900
    ensures SameSide(x, CodeValue(FLOAT64, c), Midpoint(fmt, k))
  {
    hide Scale, CodeValue, Exp2, RoundsTo, Midpoint, SameSide, Pow2;
    var q, l := MidpointOf(fmt, k, bound);
    var w := fmt.precision + 2;
    var m := RepresentableInF64(q, w, l);
    Pow2Monotone(w, 27);
    if CodeValue(FLOAT64, c) == CodeValue(FLOAT64, m) && x != CodeValue(FLOAT64, m) {
      CloseToResult(x, c, q, l);
      assert false;
    }
    StaysOnSide(x, c, m);
  }

  /** 2^k is a number of the format, at least with an unbounded exponent range. */
  lemma PowerOfTwoCode(fmt: FloatFormat, k: int) returns (c: nat)
    requires k >= fmt.emin
    ensures CodeValue(fmt, c) == Exp2(k)
  {
    hide Shl, Pow2, Scale, Exp2, CodeValue;
    var p := fmt.precision;
    Pow2Next(p);
    c := Shl(k - fmt.emin, p) + Pow2(p) - SkippedCodes(fmt);
    AssembledValue(fmt, k, Pow2(p), c);
    ScalePow2(p, k - p);
  }

  lemma SecondRoundingIsHarmless(fmt: FloatFormat, x: real, c: nat, r: nat, bound: int)
    requires HalfOfFloat64(fmt) && Separated(fmt, x) && RoundsTo(FLOAT64, c, x)
    requires RoundsTo(fmt, r, CodeValue(FLOAT64, c))
    requires x <= Exp2(bound) && fmt.emin <= bound <= 900
    ensures RoundsTo(fmt, r, x)
  {
    hide Scale, CodeValue, Exp2, RoundsTo, Midpoint, SameSide, Separated, Pow2;
    var y := CodeValue(FLOAT64, c);
    var top := PowerOfTwoInF64(bound);
    MonotoneRounding(FLOAT64, c, top, x);
    var t := PowerOfTwoCode(fmt, bound);
    MonotoneRounding(fmt, r, t, y);
    SideOfMidpoint(fmt, x, c, r, bound);
    if r > 0 {
      LargerCodeLargerValue(fmt, r - 1, r);
      SideOfMidpoint(fmt, x, c, r - 1, bound);
    }
    RoundsLike(fmt, r, x, y);
  }

  lemma PowerOfTwoInF64(k: int) returns (c: nat)
    requires -1074 <= k <= 1000
    ensures c < FirstInvalid(FLOAT64) && CodeValue(FLOAT64, c) == Exp2(k)
  {
    ScaleOne(k);
    assert Pow2(1) == 2;
    c := RepresentableInF64(1, 1, k);
  }

  /** An operation whose exact result x is separated from the midpoints: the result of binary64,
      encoded, is x rounded once. */
  lemma FoldedOnce(fmt: FloatFormat, sign: bool, x: real, bound: int, bits: nat, r: Conversion)
    requires HalfOfFloat64(fmt) && Separated(fmt, x) && x <= Exp2(bound) && fmt.emin <= bound <= 900
    requires CorrectlyConverted(FLOAT64, sign, x, Ok(bits)) && EncodesDouble(fmt, bits, r)
    ensures CorrectlyConverted(fmt, sign, x, r)
  {
    hide CodeValue, Exp2, RoundsTo, Separated, FirstInvalid, F64Value, F64Sign, IsF64Finite, Packed, Overflow;
    var top := PowerOfTwoInF64(bound);
    var c: nat :| RoundsTo(FLOAT64, c, x) &&
      Ok(bits) == if c < FirstInvalid(FLOAT64) then Ok(Packed(FLOAT64, sign, c)) else Overflow(FLOAT64, sign);
    MonotoneRounding(FLOAT64, c, top, x);
    FiniteF64Bits(sign, c);
    if !sign || fmt.haveSign {
      var m: nat :| RoundsTo(fmt, m, CodeValue(FLOAT64, c)) &&
        r == if m < FirstInvalid(fmt) then Ok(Packed(fmt, sign, m)) else Overflow(fmt, sign);
      SecondRoundingIsHarmless(fmt, x, c, m, bound);
    }
  }

  // ---- Sums and differences ----

  /** Different multiples of 2^l are at least that far apart. */
  lemma MultiplesApart(a: nat, i: int, b: nat, j: int, l: int)
    requires l <= i && l <= j && Scale(a, i) != Scale(b, j)
    ensures Distance(Scale(a, i), Scale(b, j)) >= Exp2(l)
  {
    hide Scale, Exp2;
    ScaleShl(a, i - l, l);
    ScaleShl(b, j - l, l);
    var m, n := Shl(a, i - l), Shl(b, j - l);
    ScaleOne(l);
    if m < n {
      ScaleAtLeast(m + 1, n, l);
      ScaleSum(m, 1, l);
    } else {
      ScaleAtLeast(n + 1, m, l);
      ScaleSum(n, 1, l);
    }
  }

  /** A larger code does not have a smaller exponent. */
  lemma LargerCodeLargerExponent(p: nat, e: nat, q: nat, e': nat, q': nat)
    requires q < Pow2(p + 1) && (e' > 0 ==> q' >= Pow2(p)) && Shl(e, p) + q >= Shl(e', p) + q'
    ensures e >= e'
  {
    hide Shl, Pow2;
    Pow2Next(p);
    Pow2IsShl(p);
    if e < e' {
      ShlMonotone(e + 2, e' + 1, p);
      ShlSum(e, 1, p);
      ShlSum(e + 1, 1, p);
      ShlSum(e', 1, p);
      assert false;
    }
  }

  lemma BelowPower(q: nat, k: int, n: nat)
    requires q < Pow2(n)
    ensures 0.0 <= Scale(q, k) < Exp2(k + n)
  {
    hide Exp2, Pow2, Scale;
    ScaleLess(q, Pow2(n), k);
    ScalePow2(n, k);
    ScaleZero(k);
    ScaleAtLeast(0, q, k);
  }

  ghost function SumOrDifference(a: real, b: real, plus: bool): real { if plus then a + b else a - b }

  /** A sum or difference, as a multiple of the smaller operand's unit. */
  lemma SumAsInteger(qa: nat, ka: int, qb: nat, kb: int, plus: bool) returns (n: nat)
    requires ka >= kb && Scale(qa, ka) >= Scale(qb, kb)
    ensures SumOrDifference(Scale(qa, ka), Scale(qb, kb), plus) == Scale(n, kb)
  {
    hide Scale;
    var big := Shl(qa, ka - kb);
    ScaleShl(qa, ka - kb, kb);
    if plus {
      n := big + qb;
      ScaleSum(big, qb, kb);
    } else {
      if big < qb {
        ScaleLess(big, qb, kb);
      }
      n := big - qb;
      ScaleSum(n, qb, kb);
    }
  }

  lemma SumAwayFromMidpoint(
      fmt: FloatFormat, a: nat, b: nat, plus: bool, k: nat, q: nat, l: int)
    requires HalfOfFloat64(fmt) && a >= b && IsMidpoint(fmt, k, q, l)
    requires SumOrDifference(CodeValue(fmt, a), CodeValue(fmt, b), plus) != Scale(q, l)
    ensures Distance(SumOrDifference(CodeValue(fmt, a), CodeValue(fmt, b), plus), Scale(q, l))
            > Exp2(l + BitLength(q) - 54)
  {
    hide Scale, CodeValue, Exp2, Pow2, Shl, FirstInvalid;
    var p := fmt.precision;
    var x := SumOrDifference(CodeValue(fmt, a), CodeValue(fmt, b), plus);
    var qa, ka := CodeParts(fmt, a);
    var qb, kb := CodeParts(fmt, b);
    LargerCodeLargerExponent(p, ka - fmt.emin + p, qa, kb - fmt.emin + p, qb);
    CodeOrderIsValueOrder(fmt, a, b);
    FewBits(q, p + 2);
    Exp2Monotone(l + BitLength(q) - 54, l + p - 52);
    if kb >= l + p - 51 {
      var n := SumAsInteger(qa, ka, qb, kb, plus);
      MultiplesApart(n, kb, q, l, if kb < l then kb else l);
      Exp2StrictlyMonotone(l + p - 52, if kb < l then kb else l);
    } else {
      BelowPower(qb, kb, p + 1);
      Exp2Monotone(kb + p + 1, l - 1);
      Exp2StrictlyMonotone(l + p - 52, l - 1);
      Exp2Next(l - 1);
      CodeAwayFromMidpoint(fmt, a, k, q, l);
    }
  }

  lemma {:induction false} FewBits(q: nat, n: nat)
    requires q < Pow2(n)
    ensures BitLength(q) <= n
  {
    if q > 0 {
      FewBits(q / 2, n - 1);
    }
  }

  lemma CodeAwayFromMidpoint(fmt: FloatFormat, a: nat, k: nat, q: nat, l: int)
    requires IsMidpoint(fmt, k, q, l)
    ensures Distance(CodeValue(fmt, a), Scale(q, l)) >= Exp2(l)
  {
    hide CodeValue, Exp2, Scale, Pow2;
    CodeOrderIsValueOrder(fmt, k, a);
    CodeOrderIsValueOrder(fmt, a, k + 1);
  }

  lemma SumIsSeparated(fmt: FloatFormat, a: nat, b: nat, plus: bool)
    requires HalfOfFloat64(fmt) && a >= b
    ensures Separated(fmt, SumOrDifference(CodeValue(fmt, a), CodeValue(fmt, b), plus))
  {
    hide HalfOfFloat64, IsMidpoint, CodeValue, SumOrDifference, Scale, Exp2, Distance;
    var x := SumOrDifference(CodeValue(fmt, a), CodeValue(fmt, b), plus);
    forall k: nat, q: nat, l: int | IsMidpoint(fmt, k, q, l) && Scale(q, l) != x
      ensures Distance(x, Scale(q, l)) > Exp2(l + BitLength(q) - 54)
    {
      SumAwayFromMidpoint(fmt, a, b, plus, k, q, l);
    }
  }

  lemma SumIsBounded(fmt: FloatFormat, a: nat, b: nat, plus: bool)
    requires HalfOfFloat64(fmt) && a < FirstInvalid(fmt) && b < FirstInvalid(fmt)
    ensures SumOrDifference(CodeValue(fmt, a), CodeValue(fmt, b), plus) <= Exp2(fmt.emax + 2)
  {
    hide CodeValue, Exp2, Scale, Pow2, FirstInvalid, Shl;
    FiniteBelowPower(fmt, a);
    FiniteBelowPower(fmt, b);
    Exp2Next(fmt.emax + 1);
  }

  lemma FiniteBelowPower(fmt: FloatFormat, a: nat)
    requires WellFormed(fmt) && a < FirstInvalid(fmt)
    ensures 0.0 <= CodeValue(fmt, a) < Exp2(fmt.emax + 1)
  {
    hide CodeValue, Exp2, Scale, Pow2, FirstInvalid, Shl;
    var q, k := CodeParts(fmt, a);
    BelowPower(q, k, fmt.precision + 1);
    Exp2Monotone(k + fmt.precision + 1, fmt.emax + 1);
  }

  ghost function Signed(sign: bool, x: real): real { if sign then -x else x }

  /** Folding an addition; subtracting y is adding it with the other sign. x and y are finite
      encodings, `sum` is what an IEEE 754 addition of the decoded operands returns, and r is that
      encoded back. Then r is the exact sum, rounded once. */
  lemma FoldedSum(
      fmt: FloatFormat, x: nat, y: nat, negateY: bool, sign: bool, exact: real, sum: nat, r: Conversion)
    requires HalfOfFloat64(fmt) && IsEncoding(fmt, x) && IsEncoding(fmt, y)
    requires MagnitudeOf(fmt, x) < FirstInvalid(fmt) && MagnitudeOf(fmt, y) < FirstInvalid(fmt)
    requires var a, b := DecodeFloat(fmt, x), DecodeFloat(fmt, y);
             && exact >= 0.0
             && Signed(sign, exact) == Signed(F64Sign(a), F64Value(a)) + Signed(F64Sign(b) != negateY, F64Value(b))
    requires CorrectlyConverted(FLOAT64, sign, exact, Ok(sum)) && EncodesDouble(fmt, sum, r)
    ensures var u, v := CodeValue(fmt, MagnitudeOf(fmt, x)), CodeValue(fmt, MagnitudeOf(fmt, y));
            Signed(sign, exact) == Signed(SignOf(fmt, x), u) + Signed(SignOf(fmt, y) != negateY, v)
    ensures CorrectlyConverted(fmt, sign, exact, r)
  {
    hide CorrectlyConverted, EncodesDouble, DecodeFloat, CodeValue, FirstInvalid, MagnitudeOf, SignOf, F64Sign,
      F64Value, Exp2, Separated;
    DecodeIsExact(fmt, x);
    DecodeIsExact(fmt, y);
    var m, n := MagnitudeOf(fmt, x), MagnitudeOf(fmt, y);
    var plus := SignOf(fmt, x) == (SignOf(fmt, y) != negateY);
    CodeOrderIsValueOrder(fmt, m, n);
    CodeOrderIsValueOrder(fmt, n, m);
    FiniteBelowPower(fmt, m);
    FiniteBelowPower(fmt, n);
    if m >= n {
      assert exact == SumOrDifference(CodeValue(fmt, m), CodeValue(fmt, n), plus);
      SumIsSeparated(fmt, m, n, plus);
      SumIsBounded(fmt, m, n, plus);
    } else {
      assert exact == SumOrDifference(CodeValue(fmt, n), CodeValue(fmt, m), plus);
      SumIsSeparated(fmt, n, m, plus);
      SumIsBounded(fmt, n, m, plus);
    }
    FoldedOnce(fmt, sign, exact, fmt.emax + 2, sum, r);
  }

  // ---- Quotients ----

  ghost function Quotient(a: real, b: real): real
    requires b > 0.0
  {
    a / b
  }

  ghost function Times(a: real, b: real): real { a * b }

  lemma QuotientTimes(a: real, b: real)
    requires b > 0.0
    ensures Times(Quotient(a, b), b) == a
  {
  }

  lemma TimesLess(a: real, b: real, c: real)
    requires a < b && c > 0.0
    ensures Times(a, c) < Times(b, c) && Times(c, a) < Times(c, b)
  {
  }

  lemma TimesAtMost(a: real, b: real, c: real)
    requires a <= b && c >= 0.0
    ensures Times(a, c) <= Times(b, c) && Times(c, a) <= Times(c, b)
  {
  }

  lemma TimesDistance(a: real, b: real, c: real)
    requires c > 0.0
    ensures Times(Distance(a, b), c) == Distance(Times(a, c), Times(b, c))
    ensures a != b ==> Times(a, c) != Times(b, c)
  {
    Distribute(a, -b, c);
    Distribute(b, -a, c);
    if a < b {
      TimesLess(a, b, c);
    } else if b < a {
      TimesLess(b, a, c);
    }
  }

  lemma TimesPowers(i: int, j: int)
    ensures Times(Exp2(i), Exp2(j)) == Exp2(i + j)
  {
    Exp2Add(i, j);
  }

  lemma TimesScales(a: nat, i: int, b: nat, j: int)
    ensures Times(Scale(a, i), Scale(b, j)) == Scale(a * b, i + j)
  {
    ScaleProduct(a, i, b, j);
  }

  lemma TimesAssociative(a: real, b: real, c: real)
    ensures Times(a, Times(b, c)) == Times(Times(a, b), c)
  {
  }

  lemma FarEnough(distance: real, near: real, b: real, unit: real)
    requires b > 0.0 && Times(near, b) < unit <= Times(distance, b)
    ensures distance > near
  {
    if distance <= near {
      TimesAtMost(distance, near, b);
    }
  }

  /** b is small: less than 2^n. */
  lemma NearTimesDivisor(b: real, n: int, near: int, unit: int)
    requires 0.0 < b < Exp2(n) && near + n <= unit
    ensures Times(Exp2(near), b) < Exp2(unit)
  {
    hide Times, Exp2;
    TimesLess(b, Exp2(n), Exp2(near));
    TimesPowers(near, n);
    Exp2Monotone(near + n, unit);
  }

  /** b is small in relation to a = x * b: x is at least 2^(t - 1), and a less than 2^n. */
  lemma NearTimesLargeQuotient(x: real, b: real, a: real, t: int, n: int, unit: int)
    requires b > 0.0 && x >= Exp2(t - 1) && Times(x, b) == a && a < Exp2(n) && n - 52 <= unit
    ensures Times(Exp2(t - 53), b) < Exp2(unit)
  {
    hide Times, Exp2;
    TimesAtMost(Exp2(t - 1), x, b);
    TimesPowers(-52, t - 1);
    TimesAssociative(Exp2(-52), Exp2(t - 1), b);
    TimesLess(Times(Exp2(t - 1), b), Exp2(n), Exp2(-52));
    TimesPowers(-52, n);
    Exp2Monotone(n - 52, unit);
  }

  /** A number with BitLength bits is at least that power of two. */
  lemma AtLeastTopBit(q: nat, l: int)
    requires q > 0
    ensures Scale(q, l) >= Exp2(l + BitLength(q) - 1)
  {
    hide Scale, Exp2, Pow2;
    BitLengthBounds(q);
    ScaleAtLeast(Pow2(BitLength(q) - 1), q, l);
    ScalePow2(BitLength(q) - 1, l);
  }

  /** x = a / b is not close to q * 2^l without being it. a and b are integers of p+1 bits times
      powers of two, and q has at most one bit more. */
  lemma QuotientAwayFrom(p: nat, qa: nat, ka: int, qb: nat, kb: int, q: nat, l: int, x: real)
    requires p <= 25 && qa < Pow2(p + 1) && qb < Pow2(p + 1) && 0 < q < Pow2(p + 2)
    requires Scale(qb, kb) > 0.0 && Times(x, Scale(qb, kb)) == Scale(qa, ka) && x != Scale(q, l)
    ensures Distance(x, Scale(q, l)) > Exp2(l + BitLength(q) - 54)
  {
    hide Scale, Exp2, Pow2, Times, BitLength;
    var b, mid, t := Scale(qb, kb), Scale(q, l), l + BitLength(q) - 1;
    BelowPower(qa, ka, p + 1);
    BelowPower(qb, kb, p + 1);
    TimesDistance(x, mid, b);
    TimesScales(q, l, qb, kb);
    FewBits(q, p + 2);
    var unit := if ka < l + kb then ka else l + kb;
    MultiplesApart(qa, ka, q * qb, l + kb, unit);
    if unit == l + kb {
      NearTimesDivisor(b, kb + p + 1, t - 53, unit);
      FarEnough(Distance(x, mid), Exp2(t - 53), b, Exp2(unit));
    } else if x >= Exp2(t - 1) {
      NearTimesLargeQuotient(x, b, Scale(qa, ka), t, ka + p + 1, unit);
      FarEnough(Distance(x, mid), Exp2(t - 53), b, Exp2(unit));
    } else {
      AtLeastTopBit(q, l);
      Exp2Next(t - 1);
      Exp2StrictlyMonotone(t - 53, t - 1);
    }
  }

  lemma QuotientIsSeparated(fmt: FloatFormat, a: nat, b: nat)
    requires HalfOfFloat64(fmt) && CodeValue(fmt, b) > 0.0
    ensures Separated(fmt, Quotient(CodeValue(fmt, a), CodeValue(fmt, b)))
  {
    hide CodeValue, Quotient, Scale, Exp2, Distance, Pow2, FirstInvalid, Shl, Times, BitLength;
    var x := Quotient(CodeValue(fmt, a), CodeValue(fmt, b));
    QuotientTimes(CodeValue(fmt, a), CodeValue(fmt, b));
    var qa, ka := CodeParts(fmt, a);
    var qb, kb := CodeParts(fmt, b);
    forall k: nat, q: nat, l: int | IsMidpoint(fmt, k, q, l) && Scale(q, l) != x
      ensures Distance(x, Scale(q, l)) > Exp2(l + BitLength(q) - 54)
    {
      QuotientAwayFrom(fmt.precision, qa, ka, qb, kb, q, l, x);
    }
  }

  lemma QuotientIsBounded(fmt: FloatFormat, a: nat, b: nat)
    requires HalfOfFloat64(fmt) && a < FirstInvalid(fmt) && CodeValue(fmt, b) > 0.0
    ensures Quotient(CodeValue(fmt, a), CodeValue(fmt, b)) <= Exp2(fmt.emax + 1 - fmt.emin + fmt.precision)
    ensures Quotient(CodeValue(fmt, a), CodeValue(fmt, b)) >= 0.0
  {
    hide CodeValue, Quotient, Scale, Exp2, Pow2, FirstInvalid, Shl, Times;
    var u, v := CodeValue(fmt, a), CodeValue(fmt, b);
    var unit := fmt.emin - fmt.precision;
    FiniteBelowPower(fmt, a);
    var qb, kb := CodeParts(fmt, b);
    if qb == 0 {
      ScaleZero(kb);
    }
    ScaleAtLeast(1, qb, kb);
    ScaleOne(kb);
    Exp2Monotone(unit, kb);
    QuotientTimes(u, v);
    QuotientBelow(u, v, Exp2(fmt.emax + 1), unit, fmt.emax + 1);
  }

  lemma QuotientBelow(u: real, v: real, top: real, unit: int, e: int)
    requires 0.0 <= u < top && v >= Exp2(unit) && v > 0.0 && top == Exp2(e)
    ensures 0.0 <= Quotient(u, v) <= Exp2(e - unit)
  {
    hide Exp2;
    QuotientTimes(u, v);
    TimesPowers(e - unit, unit);
    TimesAtMost(Exp2(unit), v, Exp2(e - unit));
    var x := Quotient(u, v);
    if x > Exp2(e - unit) {
      TimesLess(Exp2(e - unit), x, v);
    }
    if x < 0.0 {
      TimesLess(x, 0.0, v);
    }
  }

  /** Folding a division by a number other than zero. */
  lemma FoldedQuotient(fmt: FloatFormat, x: nat, y: nat, quotient: nat, r: Conversion)
    requires HalfOfFloat64(fmt) && IsEncoding(fmt, x) && IsEncoding(fmt, y)
    requires MagnitudeOf(fmt, x) < FirstInvalid(fmt) && MagnitudeOf(fmt, y) < FirstInvalid(fmt)
    requires CodeValue(fmt, MagnitudeOf(fmt, y)) > 0.0 && F64Value(DecodeFloat(fmt, y)) > 0.0
    requires var a, b := DecodeFloat(fmt, x), DecodeFloat(fmt, y);
             CorrectlyConverted(FLOAT64, F64Sign(a) != F64Sign(b), Quotient(F64Value(a), F64Value(b)), Ok(quotient))
    requires EncodesDouble(fmt, quotient, r)
    ensures CorrectlyConverted(fmt, SignOf(fmt, x) != SignOf(fmt, y),
              Quotient(CodeValue(fmt, MagnitudeOf(fmt, x)), CodeValue(fmt, MagnitudeOf(fmt, y))), r)
  {
    hide Quotient, CorrectlyConverted, EncodesDouble, DecodeFloat, CodeValue, FirstInvalid, MagnitudeOf, SignOf,
      F64Sign, F64Value, Exp2, Separated;
    DecodeIsExact(fmt, x);
    DecodeIsExact(fmt, y);
    var m, n := MagnitudeOf(fmt, x), MagnitudeOf(fmt, y);
    QuotientIsSeparated(fmt, m, n);
    QuotientIsBounded(fmt, m, n);
    var bound := fmt.emax + 1 - fmt.emin + fmt.precision;
    var wide := if bound < fmt.emin then fmt.emin else bound;
    Exp2Monotone(bound, wide);
    FoldedOnce(fmt, SignOf(fmt, x) != SignOf(fmt, y), Quotient(CodeValue(fmt, m), CodeValue(fmt, n)), wide, quotient, r);
  }
}
