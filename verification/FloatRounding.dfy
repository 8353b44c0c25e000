/** The arithmetic of the rounding routine, on mathematical integers: which encoding a
    significand and an exponent are rounded to, and that it is the IEEE 754 one. */
module FloatRounding {
  import opened PowersOfTwo
  import opened FloatFormats

  /** A fraction num / 2^n: above one half, or exactly one half. */
  predicate AboveHalf(num: nat, n: nat) { 2 * num > Pow2(n) }

  predicate ExactlyHalf(num: nat, n: nat) { 2 * num == Pow2(n) }

  /** An n-bit significand with its top bit set; its value is num / 2^(n-1), in [1, 2). */
  ghost predicate Normalized(num: nat, n: nat) {
    n >= 1 && Pow2(n - 1) <= num < Pow2(n)
  }

  /** The value of an n-bit significand at exponent e. */
  ghost function PartsValue(e: int, num: nat, n: nat): real {
    Scale(num, e - n + 1)
  }

  /** How many significand bits the format keeps at exponent e: fewer below emin, and possibly
      less than none. */
  function BitsToKeep(fmt: FloatFormat, e: int): int {
    fmt.precision + 1 - Max(0, fmt.emin - e)
  }

  /** The top `keep` bits of an n-bit significand, to nearest, ties to even. */
  function RoundSignificand(keep: int, num: nat, n: nat): nat
    requires keep <= n
  {
    if keep < 0 then 0
    else
      var kept := Shr(num, n - keep);
      var rest := LowBits(num, n - keep);
      if AboveHalf(rest, n - keep) || (ExactlyHalf(rest, n - keep) && kept % 2 == 1)
      then kept + 1 else kept
  }

  /** The encoding of a positive number, if the exponent range had no upper end. */
  function UnboundedCode(fmt: FloatFormat, e: int, num: nat, n: nat): (m: nat)
    requires n >= fmt.precision + 1 && Normalized(num, n)
  {
    if e < fmt.emin && !fmt.haveZeroAndSubnormals then 0
    else
      KeptBitsBounds(fmt, e, num, n);
      Shl(Max(e, fmt.emin) - fmt.emin, fmt.precision)
      + RoundSignificand(BitsToKeep(fmt, e), num, n) - SkippedCodes(fmt)
  }

  lemma KeptBitsBounds(fmt: FloatFormat, e: int, num: nat, n: nat)
    requires n >= fmt.precision + 1 && Normalized(num, n)
    ensures var keep := BitsToKeep(fmt, e);
            0 <= keep ==> && Shr(num, n - keep) < Pow2(keep)
                          && (keep > 0 ==> Shr(num, n - keep) >= Pow2(keep - 1))
    ensures e >= fmt.emin ==> RoundSignificand(BitsToKeep(fmt, e), num, n) >= Pow2(fmt.precision)
    ensures RoundSignificand(BitsToKeep(fmt, e), num, n) <= Pow2(fmt.precision + 1)
  {
    hide Shr, LowBits, Pow2;
    var keep := BitsToKeep(fmt, e);
    if keep >= 0 {
      ShrBound(num, n - keep, keep);
      Pow2Monotone(keep, fmt.precision + 1);
      if keep > 0 {
        ShrBound(num, n - keep, keep - 1);
      }
    }
  }

  // ---- Choosing between neighbours ----

  lemma NearestOfNeighbours(fmt: FloatFormat, m: nat, x: real)
    requires CodeValue(fmt, m) <= x <= CodeValue(fmt, m + 1)
    ensures forall k: nat :: Distance(CodeValue(fmt, k), x) >= Distance(CodeValue(fmt, m), x)
                          || Distance(CodeValue(fmt, k), x) >= Distance(CodeValue(fmt, m + 1), x)
    ensures forall k: nat :: k != m && k != m + 1 ==>
              Distance(CodeValue(fmt, k), x) > Distance(CodeValue(fmt, m), x)
              || Distance(CodeValue(fmt, k), x) > Distance(CodeValue(fmt, m + 1), x)
  {
    hide CodeValue;
    forall k: nat
      ensures k < m ==> CodeValue(fmt, k) < CodeValue(fmt, m)
      ensures k > m + 1 ==> CodeValue(fmt, k) > CodeValue(fmt, m + 1)
    {
      if k < m {
        LargerCodeLargerValue(fmt, k, m);
      } else if k > m + 1 {
        LargerCodeLargerValue(fmt, m + 1, k);
      }
    }
  }

  lemma RoundDown(fmt: FloatFormat, m: nat, x: real)
    requires CodeValue(fmt, m) <= x
    requires var below, above := x - CodeValue(fmt, m), CodeValue(fmt, m + 1) - x;
             below < above || (below == above && TieGoesTo(fmt, m, m + 1))
    ensures RoundsTo(fmt, m, x)
  {
    hide CodeValue;
    NearestOfNeighbours(fmt, m, x);
  }

  lemma RoundUp(fmt: FloatFormat, m: nat, x: real)
    requires x <= CodeValue(fmt, m + 1)
    requires var below, above := x - CodeValue(fmt, m), CodeValue(fmt, m + 1) - x;
             below > above || (below == above && TieGoesTo(fmt, m + 1, m))
    ensures RoundsTo(fmt, m + 1, x)
  {
    hide CodeValue;
    NearestOfNeighbours(fmt, m, x);
  }

  lemma BelowEverything(fmt: FloatFormat, x: real)
    requires x < CodeValue(fmt, 0)
    ensures RoundsTo(fmt, 0, x)
  {
    hide CodeValue;
    forall k: nat | k > 0 ensures CodeValue(fmt, 0) < CodeValue(fmt, k) {
      LargerCodeLargerValue(fmt, 0, k);
    }
  }

  // ---- The routine's code is the nearest one ----

  /** The value of an encoding assembled from an exponent and a significand. */
  lemma AssembledValue(fmt: FloatFormat, e: int, q: nat, m: nat)
    requires e >= fmt.emin && q <= Pow2(fmt.precision + 1)
    requires e > fmt.emin ==> q >= Pow2(fmt.precision)
    requires m + SkippedCodes(fmt) == Shl(e - fmt.emin, fmt.precision) + q
    ensures CodeValue(fmt, m) == Scale(q, e - fmt.precision)
  {
    hide Scale, UnitMagnitude;
    PackedCode(fmt.precision, e - fmt.emin, q);
    ScaleShl(q, e - fmt.emin, fmt.emin - fmt.precision);
  }

  lemma ParityOfCode(fmt: FloatFormat, e: nat, q: nat, m: nat)
    requires fmt.precision >= 1
    requires m + SkippedCodes(fmt) == Shl(e, fmt.precision) + q
    ensures m % 2 == q % 2
  {
    assert Shl(e, fmt.precision) == 2 * Shl(e, fmt.precision - 1);
    assert Pow2(fmt.precision) == 2 * Pow2(fmt.precision - 1);
    if fmt.haveZeroAndSubnormals {
      assert m == 2 * Shl(e, fmt.precision - 1) + q;
    } else {
      assert m == 2 * (Shl(e, fmt.precision - 1) - Pow2(fmt.precision - 1)) + q;
    }
  }

  lemma SmallestIsNearest(fmt: FloatFormat, e: int, num: nat, n: nat)
    requires WellFormed(fmt) && !fmt.haveZeroAndSubnormals && e < fmt.emin
    requires n >= fmt.precision + 1 && Normalized(num, n)
    ensures RoundsTo(fmt, 0, PartsValue(e, num, n))
  {
    hide CodeValue, Scale, Exp2;
    ShlZero(fmt.precision);
    Pow2Next(fmt.precision);
    AssembledValue(fmt, fmt.emin, Pow2(fmt.precision), 0);
    ScalePow2(fmt.precision, fmt.emin - fmt.precision);
    PartsBelowNextPower(e, num, n);
    Exp2Monotone(e + 1, fmt.emin);
    BelowEverything(fmt, PartsValue(e, num, n));
  }

  lemma PartsBelowNextPower(e: int, num: nat, n: nat)
    requires Normalized(num, n)
    ensures Exp2(e) <= PartsValue(e, num, n) < Exp2(e + 1)
  {
    hide Exp2, Pow2, Scale;
    ScalePow2(n, e - n + 1);
    ScalePow2(n - 1, e - n + 1);
    ScaleLess(num, Pow2(n), e - n + 1);
    if Pow2(n - 1) < num {
      ScaleLess(Pow2(n - 1), num, e - n + 1);
    }
  }

  /** Too small to keep even the leading bit: less than half of the smallest subnormal. */
  lemma TinyRoundsToZero(fmt: FloatFormat, e: int, num: nat, n: nat)
    requires WellFormed(fmt) && fmt.haveZeroAndSubnormals && BitsToKeep(fmt, e) < 0
    requires n >= fmt.precision + 1 && Normalized(num, n)
    ensures RoundsTo(fmt, 0, PartsValue(e, num, n))
  {
    hide Scale, CodeValue, PartsValue, Exp2;
    var p := fmt.precision;
    var x := PartsValue(e, num, n);
    ShlZero(p);
    ScaleZero(fmt.emin - p);
    ScaleOne(fmt.emin - p);
    AssembledValue(fmt, fmt.emin, 0, 0);
    AssembledValue(fmt, fmt.emin, 1, 1);
    PartsBelowNextPower(e, num, n);
    Exp2Monotone(e + 1, fmt.emin - p - 1);
    Exp2Next(fmt.emin - p - 1);
    RoundDown(fmt, 0, x);
  }

  lemma KeptPartRounds(fmt: FloatFormat, e: int, num: nat, n: nat)
    requires WellFormed(fmt) && BitsToKeep(fmt, e) >= 0
    requires fmt.haveZeroAndSubnormals || e >= fmt.emin
    requires n >= fmt.precision + 1 && Normalized(num, n)
    ensures RoundsTo(fmt, UnboundedCode(fmt, e, num, n), PartsValue(e, num, n))
  {
    hide *;
    var q, rest, d, low := KeptParts(fmt, e, num, n);
    var top := Max(e, fmt.emin);
    AssembledPartRounds(fmt, top, q, rest, d, low);
    KeepIsDifference(fmt, e);
    assert top - fmt.precision - d == e - n + 1;
    ValueOfParts(e, num, n);
  }

  lemma KeptParts(fmt: FloatFormat, e: int, num: nat, n: nat) returns (q: nat, rest: nat, d: nat, low: nat)
    requires WellFormed(fmt) && BitsToKeep(fmt, e) >= 0
    requires fmt.haveZeroAndSubnormals || e >= fmt.emin
    requires n >= fmt.precision + 1 && Normalized(num, n)
    ensures d == n - BitsToKeep(fmt, e) && num == Shl(q, d) + rest
    ensures Max(e, fmt.emin) >= fmt.emin && q < Pow2(fmt.precision + 1) && rest < Pow2(d)
    ensures Max(e, fmt.emin) > fmt.emin ==> q >= Pow2(fmt.precision)
    ensures low + SkippedCodes(fmt) == Shl(Max(e, fmt.emin) - fmt.emin, fmt.precision) + q
    ensures if fmt.precision == 0 then q % 2 == 1 else low % 2 == q % 2
    ensures UnboundedCode(fmt, e, num, n)
            == if AboveHalf(rest, d) || (ExactlyHalf(rest, d) && q % 2 == 1) then low + 1 else low
  {
    hide Shl, Shr, LowBits, AboveHalf, ExactlyHalf, Pow2, Normalized;
    var keep := BitsToKeep(fmt, e);
    d := n - keep;
    q, rest := Shr(num, d), LowBits(num, d);
    KeptBitsBounds(fmt, e, num, n);
    Split(num, d);
    Pow2Monotone(keep, fmt.precision + 1);
    assert e >= fmt.emin ==> q >= Pow2(fmt.precision);
    low := Shl(Max(e, fmt.emin) - fmt.emin, fmt.precision) + q - SkippedCodes(fmt);
    if fmt.precision > 0 {
      ParityOfCode(fmt, Max(e, fmt.emin) - fmt.emin, q, low);
    } else {
      FirstPowers();
    }
  }

  lemma KeepIsDifference(fmt: FloatFormat, e: int)
    ensures Max(e, fmt.emin) - fmt.precision + BitsToKeep(fmt, e) == e + 1
  {
  }

  lemma ValueOfParts(e: int, num: nat, n: nat)
    ensures PartsValue(e, num, n) == Scale(num, e - n + 1)
  {
  }

  /** Of two neighbouring encodings, the remainder picks the one to round to. */
  lemma AssembledPartRounds(fmt: FloatFormat, top: int, q: nat, rest: nat, d: nat, low: nat)
    requires top >= fmt.emin && q < Pow2(fmt.precision + 1) && rest < Pow2(d)
    requires top > fmt.emin ==> q >= Pow2(fmt.precision)
    requires low + SkippedCodes(fmt) == Shl(top - fmt.emin, fmt.precision) + q
    requires if fmt.precision == 0 then q % 2 == 1 else low % 2 == q % 2
    ensures RoundsTo(fmt, if AboveHalf(rest, d) || (ExactlyHalf(rest, d) && q % 2 == 1) then low + 1 else low,
                     Scale(Shl(q, d) + rest, top - fmt.precision - d))
  {
    hide Shl, Scale, CodeValue, SkippedCodes, Pow2;
    Pow2Next(fmt.precision);
    AssembledValue(fmt, top, q, low);
    AssembledValue(fmt, top, q + 1, low + 1);
    KeptPartInterval(q, rest, d, top - fmt.precision);
    var x := Scale(Shl(q, d) + rest, top - fmt.precision - d);
    var below, above := x - CodeValue(fmt, low), CodeValue(fmt, low + 1) - x;
    assert AboveHalf(rest, d) <==> below > above;
    assert ExactlyHalf(rest, d) <==> below == above;
    hide AboveHalf, ExactlyHalf;
    if AboveHalf(rest, d) || (ExactlyHalf(rest, d) && q % 2 == 1) {
      RoundUp(fmt, low, x);
    } else {
      RoundDown(fmt, low, x);
    }
  }

  /** Where q * 2^d + rest lies between the neighbours q and q + 1, in units of 2^k. */
  lemma KeptPartInterval(q: nat, rest: nat, d: nat, k: int)
    requires rest < Pow2(d)
    ensures var x := Scale(Shl(q, d) + rest, k - d);
            var low, high := Scale(q, k), Scale(q + 1, k);
            && low <= x < high
            && (AboveHalf(rest, d) <==> x - low > high - x)
            && (ExactlyHalf(rest, d) <==> x - low == high - x)
  {
    hide Scale, Shl, Pow2;
    ScaleShl(q, d, k - d);
    ScaleShl(q + 1, d, k - d);
    ShlSum(q, 1, d);
    Pow2IsShl(d);
    ScaleSum(Shl(q, d), rest, k - d);
    ScaleSum(Shl(q, d), Pow2(d), k - d);
    ScaleSum(rest, rest, k - d);
    ScaleZero(k - d);
    ScaleLess(rest, Pow2(d), k - d);
    if 0 < rest {
      ScaleLess(0, rest, k - d);
    }
    if 2 * rest > Pow2(d) {
      ScaleLess(Pow2(d), 2 * rest, k - d);
    } else if 2 * rest < Pow2(d) {
      ScaleLess(2 * rest, Pow2(d), k - d);
    }
  }

  /** The main result: the routine's encoding is the correctly rounded one. */
  lemma UnboundedCodeRounds(fmt: FloatFormat, e: int, num: nat, n: nat)
    requires WellFormed(fmt) && n >= fmt.precision + 1 && Normalized(num, n)
    ensures RoundsTo(fmt, UnboundedCode(fmt, e, num, n), PartsValue(e, num, n))
  {
    if e < fmt.emin && !fmt.haveZeroAndSubnormals {
      SmallestIsNearest(fmt, e, num, n);
    } else if BitsToKeep(fmt, e) < 0 {
      TinyRoundsToZero(fmt, e, num, n);
      ShlZero(fmt.precision);
    } else {
      KeptPartRounds(fmt, e, num, n);
    }
  }
}
