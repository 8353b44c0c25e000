/** Constant folding of integers: 64-bit words that hold values of 8, 16, 32 or 64 bits, sign- or
    zero-extended. Every result is the exact one, or there is an overflow. */
module FixedWidthArithmetic {
  import opened PowersOfTwo

  datatype Result = Ok(bits: nat) | Overflow | ZeroDivision

  // ---- Bitwise operations on words ----

  function BitAnd(a: nat, b: nat): nat {
    if a == 0 || b == 0 then 0 else (if a % 2 == 1 && b % 2 == 1 then 1 else 0) + 2 * BitAnd(a / 2, b / 2)
  }

  function BitXor(a: nat, b: nat): nat
    decreases a + b
  {
    if a == 0 then b
    else if b == 0 then a
    else (if a % 2 != b % 2 then 1 else 0) + 2 * BitXor(a / 2, b / 2)
  }

  function AllOnes(n: nat): nat { Pow2(n) - 1 }

  function Complement(x: nat): nat
    requires x < TWO_64
  {
    TWO_64 - 1 - x
  }

  lemma {:induction false} ShrOfAnd(a: nat, b: nat, k: nat)
    ensures Shr(BitAnd(a, b), k) == BitAnd(Shr(a, k), Shr(b, k))
  {
    if k > 0 {
      assert BitAnd(a, b) / 2 == BitAnd(a / 2, b / 2);
      ShrOfAnd(a / 2, b / 2, k - 1);
    }
  }

  lemma {:induction false} ShrOfXor(a: nat, b: nat, k: nat)
    ensures Shr(BitXor(a, b), k) == BitXor(Shr(a, k), Shr(b, k))
  {
    if k > 0 {
      assert BitXor(a, b) / 2 == BitXor(a / 2, b / 2);
      ShrOfXor(a / 2, b / 2, k - 1);
    }
  }

  lemma {:induction false} ShrOfOr(a: nat, b: nat, k: nat)
    ensures Shr(BitOr(a, b), k) == BitOr(Shr(a, k), Shr(b, k))
  {
    if k > 0 {
      assert BitOr(a, b) / 2 == BitOr(a / 2, b / 2);
      ShrOfOr(a / 2, b / 2, k - 1);
    }
  }

  lemma OnesStep(n: nat)
    requires n > 0
    ensures AllOnes(n) == 1 + 2 * AllOnes(n - 1) && Pow2(n) == 2 * Pow2(n - 1)
  {
  }

  lemma NoOnes()
    ensures AllOnes(0) == 0 && Pow2(0) == 1 && BitXor(0, 0) == 0
  {
  }

  /** The lowest bit of the exclusive or with an odd number is the other one's, inverted. */
  lemma XorStep(odd: nat, z: nat)
    requires odd % 2 == 1
    ensures BitXor(odd, z) == (1 - z % 2) + 2 * BitXor(odd / 2, z / 2)
  {
  }

  lemma {:induction false} XorWithOnes(z: nat, n: nat)
    requires z < Pow2(n)
    ensures BitXor(AllOnes(n), z) == AllOnes(n) - z
  {
    hide Pow2, AllOnes, BitXor;
    NoOnes();
    if n > 0 {
      OnesStep(n);
      XorWithOnes(z / 2, n - 1);
      XorStep(AllOnes(n), z);
    }
  }

  lemma {:induction false} AndWithRest(z: nat, n: nat)
    requires z < Pow2(n)
    ensures BitAnd(z, AllOnes(n) - z) == 0 && BitAnd(AllOnes(n) - z, z) == 0
  {
    if n > 0 {
      assert AllOnes(n) == 1 + 2 * AllOnes(n - 1);
      assert (AllOnes(n) - z) / 2 == AllOnes(n - 1) - z / 2;
      AndWithRest(z / 2, n - 1);
    }
  }

  lemma {:induction false} AndWithItself(z: nat)
    ensures BitAnd(z, z) == z
  {
    if z > 0 {
      AndWithItself(z / 2);
    }
  }

  /** The upper bits of a word and of its complement. */
  lemma ShrOfComplement(x: nat, k: nat)
    requires x < TWO_64 && k <= 64
    ensures Shr(x, k) < Pow2(64 - k)
    ensures Shr(Complement(x), k) == AllOnes(64 - k) - Shr(x, k)
  {
    hide Pow2, Shl, Shr, LowBits;
    Pow2Of63And64();
    ShrBound(x, k, 64 - k);
    Split(x, k);
    var hi, lo := Shr(x, k), LowBits(x, k);
    var hi', lo' := AllOnes(64 - k) - hi, AllOnes(k) - lo;
    ShlSum(hi, hi', k);
    ShlOfPow2(64 - k, k);
    ShlSum(AllOnes(64 - k), 1, k);
    Pow2IsShl(k);
    assert Complement(x) == Shl(hi', k) + lo';
    SplitUnique(hi', lo', k);
  }

  // ---- Values of a given width ----

  predicate IsUnsigned(x: nat, width: nat) { x < Pow2(width) }

  /** Sign-extended from `width` bits to a word. */
  predicate IsSigned(x: nat, width: nat)
    requires width > 0
  {
    x < TWO_64 && (x < Pow2(width - 1) || TWO_64 - Pow2(width - 1) <= x)
  }

  /** A word as a SignedBits. */
  function Signed(x: nat): (v: int)
    requires x < TWO_64
    ensures 0 - TWO_63 <= v < TWO_63
  {
    if x < TWO_63 then x else x - TWO_64
  }

  /** A SignedBits as a word. */
  function Word(v: int): (x: nat)
    requires 0 - TWO_63 <= v < TWO_63
    ensures x < TWO_64 && Signed(x) == v
  {
    if v >= 0 then v else v + TWO_64
  }

  predicate FitsSigned(v: int, width: nat)
    requires width > 0
  {
    0 - Pow2(width - 1) <= v < Pow2(width - 1)
  }

  lemma PowersUpTo64(width: nat)
    requires 0 < width <= 64
    ensures Pow2(width) == 2 * Pow2(width - 1)
    ensures Pow2(width - 1) <= TWO_63 && Pow2(width) <= TWO_64
    ensures width == 64 ==> Pow2(width) == TWO_64
  {
    hide Pow2;
    Pow2Of63And64();
    Pow2Next(width - 1);
    Pow2Monotone(width - 1, 63);
    Pow2Monotone(width, 64);
  }

  lemma SignedRange(x: nat, width: nat)
    requires 0 < width <= 64 && x < TWO_64
    ensures IsSigned(x, width) <==> FitsSigned(Signed(x), width)
  {
    hide Pow2;
    PowersUpTo64(width);
  }

  /** What an operation with this exact result has to return. */
  function SignedResult(v: int, width: nat): (r: Result)
    requires 0 < width <= 64
  {
    PowersUpTo64(width);
    if FitsSigned(v, width) then Ok(Word(v)) else Overflow
  }

  function UnsignedResult(v: int, width: nat): (r: Result) {
    if 0 <= v < Pow2(width) then Ok(v) else Overflow
  }

  /** The sign bit and all bits above it. */
  lemma TopBits(x: nat, width: nat)
    requires 0 < width <= 64 && x < TWO_64
    ensures Shr(x, width - 1) < Pow2(65 - width)
    ensures x < Pow2(width - 1) <==> Shr(x, width - 1) == 0
    ensures TWO_64 - Pow2(width - 1) <= x <==> Shr(x, width - 1) == AllOnes(65 - width)
    ensures AllOnes(65 - width) > 0
  {
    PowersUpTo64(width);
    ShrOfComplement(x, width - 1);
    assert Pow2(0) == 1 && Pow2(65 - width) >= 2;
    hide Pow2, Shr;
    ShrBound(x, width - 1, 0);
    ShrBound(Complement(x), width - 1, 0);
  }

  // ---- Addition and subtraction ----

  function UnsignedAdd(x: nat, y: nat, width: nat): (r: Result)
    requires 0 < width <= 64 && IsUnsigned(x, width) && IsUnsigned(y, width)
    ensures r == UnsignedResult(x + y, width)
  {
    PowersUpTo64(width);
    var z := (x + y) % TWO_64;
    CarryOfSum(x, y, width);
    if Shr(BitOr(BitAnd(x, y), BitAnd(BitOr(x, y), Complement(z))), width - 1) != 0 then Overflow else Ok(z)
  }

  function SignedAdd(x: nat, y: nat, width: nat): (r: Result)
    requires 0 < width <= 64 && IsSigned(x, width) && IsSigned(y, width)
    ensures r == SignedResult(Signed(x) + Signed(y), width)
  {
    PowersUpTo64(width);
    var z := (x + y) % TWO_64;
    SignChange(x, y, z, width);
    SignsOfSum(x, y, width);
    if Shr(BitAnd(BitXor(x, z), BitXor(y, z)), width - 1) != 0 then Overflow else Ok(z)
  }

  function UnsignedSub(x: nat, y: nat, width: nat): (r: Result)
    requires IsUnsigned(x, width) && IsUnsigned(y, width)
    ensures r == UnsignedResult(x - y, width)
  {
    if y > x then Overflow else Ok(x - y)
  }

  function SignedSub(x: nat, y: nat, width: nat): (r: Result)
    requires 0 < width <= 64 && IsSigned(x, width) && IsSigned(y, width)
    ensures r == SignedResult(Signed(x) - Signed(y), width)
  {
    PowersUpTo64(width);
    var z := (x - y) % TWO_64;
    SignDifference(x, y, z, width);
    SignsOfDifference(x, y, width);
    if Shr(BitAnd(BitXor(x, y), BitXor(x, z)), width - 1) != 0 then Overflow else Ok(z)
  }

  lemma {:induction false} CarryOfBits(a: nat, b: nat, c: nat)
    requires a <= 1 && b <= 1
    ensures BitOr(BitAnd(a, b), BitAnd(BitOr(a, b), c)) != 0 <==> a + b == 2 || (a + b == 1 && c % 2 == 1)
  {
    if a + b == 1 {
      assert BitOr(a, b) == 1 && BitAnd(a, b) == 0;
      assert BitAnd(1 / 2, c / 2) == 0;
      assert BitAnd(1, c) == c % 2;
    } else if a + b == 2 {
      assert BitAnd(1, 1) == 1;
      assert BitOr(1, 1) == 1;
      OrIsNotLess(1, BitAnd(1, c));
    }
  }

  lemma {:induction false} OrIsNotLess(a: nat, b: nat)
    ensures BitOr(a, b) >= a
    decreases a + b
  {
    if a > 0 && b > 0 {
      OrIsNotLess(a / 2, b / 2);
    }
  }

  lemma ParityOfRest(z: nat, n: nat)
    requires n > 0
    ensures (AllOnes(n) - z) % 2 == 1 <==> z % 2 == 0
  {
    Pow2Next(n - 1);
  }

  /** The carry out of the topmost bit, put together from the operands and the sum. */
  lemma CarryOfSum(x: nat, y: nat, width: nat)
    requires 0 < width <= 64 && IsUnsigned(x, width) && IsUnsigned(y, width) && Pow2(width) <= TWO_64
    ensures var z := (x + y) % TWO_64;
            Shr(BitOr(BitAnd(x, y), BitAnd(BitOr(x, y), Complement(z))), width - 1) != 0 <==> x + y >= Pow2(width)
  {
    var k, z := width - 1, (x + y) % TWO_64;
    TopOfSum(x, y, width);
    hide *;
    ShrOfOr(BitAnd(x, y), BitAnd(BitOr(x, y), Complement(z)), k);
    ShrOfAnd(x, y, k);
    ShrOfAnd(BitOr(x, y), Complement(z), k);
    ShrOfOr(x, y, k);
    ShrOfComplement(z, k);
    ParityOfRest(Shr(z, k), 65 - width);
    CarryOfBits(Shr(x, k), Shr(y, k), Shr(Complement(z), k));
  }

  /** Bit width - 1 of the sum when exactly one operand has it. */
  lemma TopOfSum(x: nat, y: nat, width: nat)
    requires 0 < width <= 64 && x < Pow2(width) <= TWO_64 && y < Pow2(width)
    ensures Shr(x, width - 1) <= 1 && Shr(y, width - 1) <= 1
    ensures Shr(x, width - 1) == 1 && Shr(y, width - 1) == 1 ==> x + y >= Pow2(width)
    ensures Shr(x, width - 1) == 0 && Shr(y, width - 1) == 0 ==> x + y < Pow2(width)
    ensures Shr(x, width - 1) != Shr(y, width - 1) ==>
              (Shr((x + y) % TWO_64, width - 1) % 2 == 0 <==> x + y >= Pow2(width))
  {
    PowersUpTo64(width);
    hide Pow2, Shr;
    var k, s := width - 1, x + y;
    var p, z := Pow2(k), (x + y) % TWO_64;
    Wrapped(x, y);
    TopIs(x, k, if x < p then 0 else 1);
    TopIs(y, k, if y < p then 0 else 1);
    if (x < p) != (y < p) {
      if width < 64 {
        PowersUpTo64(width + 1);
        TopIs(z, k, if s < 2 * p then 1 else 2);
      } else {
        TopIs(z, k, if s < 2 * p then 1 else 0);
      }
    }
  }

  lemma Wrapped(x: nat, y: nat)
    requires x < TWO_64 && y < TWO_64
    ensures (x + y) % TWO_64 == if x + y < TWO_64 then x + y else x + y - TWO_64
    ensures (x - y) % TWO_64 == if x >= y then x - y else x - y + TWO_64
  {
  }

  lemma TopIs(x: nat, k: nat, hi: nat)
    requires hi <= 2
    requires var p := Pow2(k); if hi == 0 then x < p else if hi == 1 then p <= x < 2 * p else 2 * p <= x < 3 * p
    ensures Shr(x, k) == hi
  {
    hide Pow2, Shr, Shl;
    ShlZero(k);
    Pow2IsShl(k);
    ShlSum(1, 1, k);
    SplitUnique(hi, x - Shl(hi, k), k);
  }

  /** Whether the operands have the same sign and the sum another one. */
  lemma SignChange(x: nat, y: nat, z: nat, width: nat)
    requires 0 < width <= 64 && IsSigned(x, width) && IsSigned(y, width) && z < TWO_64
    ensures Shr(BitAnd(BitXor(x, z), BitXor(y, z)), width - 1) != 0
            <==> Shr(x, width - 1) == Shr(y, width - 1) != Shr(z, width - 1)
  {
    hide Pow2, Shr, BitAnd, BitXor, AllOnes;
    var k := width - 1;
    ShrOfAnd(BitXor(x, z), BitXor(y, z), k);
    ShrOfXor(x, z, k);
    ShrOfXor(y, z, k);
    TopBits(x, width);
    TopBits(y, width);
    TopBits(z, width);
    SignChangeOfTops(Shr(x, k), Shr(y, k), Shr(z, k), 65 - width);
  }

  lemma SignChangeOfTops(x: nat, y: nat, z: nat, n: nat)
    requires (x == 0 || x == AllOnes(n)) && (y == 0 || y == AllOnes(n)) && z < Pow2(n) && AllOnes(n) > 0
    ensures BitAnd(BitXor(x, z), BitXor(y, z)) != 0 <==> x == y != z
  {
    hide BitAnd, Pow2;
    XorWithOnes(z, n);
    XorWithZero(z);
    AndWithRest(z, n);
    AndWithItself(z);
    AndWithItself(AllOnes(n) - z);
    hide BitXor;
  }

  lemma XorWithZero(z: nat)
    ensures BitXor(0, z) == z
  {
  }

  lemma SignsOfSum(x: nat, y: nat, width: nat)
    requires 0 < width <= 64 && IsSigned(x, width) && IsSigned(y, width)
    ensures var z := (x + y) % TWO_64;
            && (Shr(x, width - 1) == Shr(y, width - 1) != Shr(z, width - 1)
                <==> !FitsSigned(Signed(x) + Signed(y), width))
            && (FitsSigned(Signed(x) + Signed(y), width) ==> Signed(z) == Signed(x) + Signed(y))
  {
    PowersUpTo64(width);
    Wrapped(x, y);
    hide Pow2, Shr, AllOnes;
    TopBits(x, width);
    TopBits(y, width);
    TopBits((x + y) % TWO_64, width);
  }

  lemma SignDifference(x: nat, y: nat, z: nat, width: nat)
    requires 0 < width <= 64 && IsSigned(x, width) && IsSigned(y, width) && z < TWO_64
    ensures Shr(BitAnd(BitXor(x, y), BitXor(x, z)), width - 1) != 0
            <==> Shr(x, width - 1) != Shr(y, width - 1) && Shr(x, width - 1) != Shr(z, width - 1)
  {
    hide Pow2, Shr, BitAnd, BitXor, AllOnes;
    var k := width - 1;
    ShrOfAnd(BitXor(x, y), BitXor(x, z), k);
    ShrOfXor(x, y, k);
    ShrOfXor(x, z, k);
    TopBits(x, width);
    TopBits(y, width);
    TopBits(z, width);
    SignDifferenceOfTops(Shr(x, k), Shr(y, k), Shr(z, k), 65 - width);
  }

  lemma SignDifferenceOfTops(x: nat, y: nat, z: nat, n: nat)
    requires (x == 0 || x == AllOnes(n)) && (y == 0 || y == AllOnes(n)) && z < Pow2(n) && AllOnes(n) > 0
    ensures BitAnd(BitXor(x, y), BitXor(x, z)) != 0 <==> x != y && x != z
  {
    hide BitAnd, Pow2;
    XorWithOnes(z, n);
    XorWithOnes(y, n);
    XorWithZero(z);
    XorWithZero(y);
    AndWithOnes(z, n);
    AndWithOnes(AllOnes(n) - z, n);
    hide BitXor;
  }

  lemma AndStep(odd: nat, z: nat)
    requires odd % 2 == 1
    ensures BitAnd(odd, z) == z % 2 + 2 * BitAnd(odd / 2, z / 2) && BitAnd(0, z) == 0
  {
  }

  lemma {:induction false} AndWithOnes(z: nat, n: nat)
    requires z < Pow2(n)
    ensures BitAnd(AllOnes(n), z) == z && BitAnd(0, z) == 0
  {
    hide Pow2, AllOnes, BitAnd;
    NoOnes();
    if n > 0 {
      OnesStep(n);
      AndWithOnes(z / 2, n - 1);
      AndStep(AllOnes(n), z);
    } else {
      AndStep(1, z);
    }
  }

  lemma SignsOfDifference(x: nat, y: nat, width: nat)
    requires 0 < width <= 64 && IsSigned(x, width) && IsSigned(y, width)
    ensures var z := (x - y) % TWO_64;
            && (Shr(x, width - 1) != Shr(y, width - 1) && Shr(x, width - 1) != Shr(z, width - 1)
                <==> !FitsSigned(Signed(x) - Signed(y), width))
            && (FitsSigned(Signed(x) - Signed(y), width) ==> Signed(z) == Signed(x) - Signed(y))
  {
    PowersUpTo64(width);
    Wrapped(x, y);
    hide Pow2, Shr, AllOnes;
    TopBits(x, width);
    TopBits(y, width);
    TopBits((x - y) % TWO_64, width);
  }

  // ---- Multiplication ----

  /** x >> k on a SignedBits, which shifts in copies of the sign. */
  function Sar(x: int, k: nat): int {
    if x >= 0 then Shr(x, k) else -1 - Shr(-1 - x, k)
  }

  predicate SignedIntFits(x: int, width: nat)
    requires 0 < width <= 64
  {
    Sar(x, width - 1) == Sar(x, 63)
  }

  predicate UnsignedIntFits(x: nat, width: nat) { width >= 64 || Shr(x, width) == 0 }

  lemma SignedIntFitsIsRange(x: int, width: nat)
    requires 0 < width <= 64 && 0 - TWO_63 <= x < TWO_63
    ensures SignedIntFits(x, width) <==> FitsSigned(x, width)
  {
    hide Pow2, Shr;
    Pow2Of63And64();
    FirstPowers();
    var y := if x >= 0 then x else -1 - x;
    ShrBound(y, width - 1, 0);
    ShrBound(y, 63, 0);
  }

  lemma UnsignedIntFitsIsRange(x: nat, width: nat)
    requires 0 < width <= 64 && x < TWO_64
    ensures UnsignedIntFits(x, width) <==> x < Pow2(width)
  {
    PowersUpTo64(width);
    assert Pow2(0) == 1;
    hide Pow2, Shr;
    ShrBound(x, width, 0);
  }

  function SignedMul(x: nat, y: nat, width: nat): (r: Result)
    requires 0 < width <= 64 && IsSigned(x, width) && IsSigned(y, width)
    ensures r == SignedResult(Signed(x) * Signed(y), width)
  {
    var z := Signed(x) * Signed(y);
    PowersUpTo64(width);
    if !(0 - TWO_63 <= z < TWO_63) then Overflow
    else
      SignedIntFitsIsRange(z, width);
      if !SignedIntFits(z, width) then Overflow else Ok(Word(z))
  }

  function UnsignedMul(x: nat, y: nat, width: nat): (r: Result)
    requires 0 < width <= 64 && IsUnsigned(x, width) && IsUnsigned(y, width)
    ensures r == UnsignedResult(x * y, width)
  {
    var z: nat := x * y;
    PowersUpTo64(width);
    if z >= TWO_64 then Overflow
    else
      UnsignedIntFitsIsRange(z, width);
      if !UnsignedIntFits(z, width) then Overflow else Ok(z)
  }

  // ---- Division ----

  function Magnitude(a: int): nat { if a < 0 then -a else a }

  /** C's a / b and a % b, which round toward zero. */
  function TruncDiv(a: int, b: int): int
    requires b != 0
  {
    var q: int := Magnitude(a) / Magnitude(b);
    if (a < 0) != (b < 0) then -q else q
  }

  function TruncMod(a: int, b: int): int
    requires b != 0
  {
    var r: int := Magnitude(a) % Magnitude(b);
    if a < 0 then -r else r
  }

  /** The greatest integer that is not above a / b, and the least that is not below. */
  function FloorDiv(a: int, b: int): int
    requires b != 0
  {
    if b > 0 then a / b else (-a) / (-b)
  }

  function CeilDiv(a: int, b: int): int
    requires b != 0
  {
    -FloorDiv(-a, b)
  }

  lemma Quotient(a: int, b: int)
    requires b > 0
    ensures a == b * (a / b) + a % b && 0 <= a % b < b
  {
  }

  lemma QuotientIsUnique(a: int, b: int, q: int, r: int)
    requires b > 0 && a == b * q + r && 0 <= r < b
    ensures a / b == q && a % b == r
  {
    Quotient(a, b);
    var d := q - a / b;
    assert b * d == a % b - r by { Distribute(b, q, a / b); }
    if d != 0 {
      MultipleIsAway(b, d);
    }
  }

  lemma Distribute(b: int, p: int, q: int)
    ensures b * (p - q) == b * p - b * q
  {
  }

  lemma MultipleIsAway(b: int, d: int)
    requires b > 0 && d != 0
    ensures b * d >= b || b * d <= -b
  {
    if d >= 1 {
      assert b * d >= b * 1;
    } else {
      assert b * d <= b * (-1);
    }
  }

  /** Floor and ceiling in terms of C's division. */
  lemma FloorFromTrunc(a: int, b: int)
    requires b != 0
    ensures FloorDiv(a, b)
            == TruncDiv(a, b) - (if TruncMod(a, b) != 0 && (a < 0) != (b < 0) then 1 else 0)
    ensures CeilDiv(a, b)
            == TruncDiv(a, b) + (if TruncMod(a, b) != 0 && (a < 0) == (b < 0) then 1 else 0)
  {
    var m: int, n: int := Magnitude(a), Magnitude(b);
    Quotient(m, n);
    NegatedQuotient(m, n);
  }

  lemma NegatedQuotient(m: int, n: int)
    requires m >= 0 && n > 0
    ensures (-m) / n == -(m / n) - (if m % n != 0 then 1 else 0)
  {
    var q, r := m / n, m % n;
    Quotient(m, n);
    assert n * (-q) == -(n * q);
    assert n * (-q - 1) == -(n * q) - n;
    if r == 0 {
      QuotientIsUnique(-m, n, -q, 0);
    } else {
      QuotientIsUnique(-m, n, -q - 1, n - r);
    }
  }

  lemma QuotientBounds(m: int, n: int)
    requires m >= 0 && n > 0
    ensures 0 <= m / n <= m && 0 <= m % n < n
    ensures n == 1 ==> m / n == m && m % n == 0
    ensures n >= 2 ==> 2 * (m / n) + m % n <= m
  {
    Quotient(m, n);
    var q := m / n;
    if n == 1 {
      QuotientIsUnique(m, 1, m, 0);
    } else {
      TwiceAtLeast(q, n);
    }
  }

  /** Only the least value divided by -1 gives a quotient that is not a SignedBits. */
  lemma QuotientIsSmall(a: int, b: int)
    requires b != 0 && 0 - TWO_63 <= a < TWO_63 && 0 - TWO_63 <= b < TWO_63
    requires !(a == 0 - TWO_63 && b == -1)
    ensures 0 - TWO_63 <= FloorDiv(a, b) < TWO_63 && 0 - TWO_63 <= CeilDiv(a, b) < TWO_63
  {
    FloorFromTrunc(a, b);
    QuotientBounds(Magnitude(a), Magnitude(b));
    hide FloorDiv, CeilDiv;
  }

  lemma OnlyOverflow(a: int, b: int)
    requires a == 0 - TWO_63 && b == -1
    ensures FloorDiv(a, b) == TWO_63 && CeilDiv(a, b) == TWO_63
  {
    assert TWO_63 / 1 == TWO_63;
  }

  function SignedFloorDiv(x: nat, y: nat, width: nat): (r: Result)
    requires 0 < width <= 64 && IsSigned(x, width) && IsSigned(y, width)
    ensures r == if Signed(y) == 0 then ZeroDivision else SignedResult(FloorDiv(Signed(x), Signed(y)), width)
  {
    PowersUpTo64(width);
    var a, b := Signed(x), Signed(y);
    if b == 0 then ZeroDivision
    else if a == 0 - TWO_63 && b == -1 then
      OnlyOverflow(a, b);
      Overflow
    else
      FloorFromTrunc(a, b);
      QuotientIsSmall(a, b);
      var q := if TruncMod(a, b) != 0 && (a < 0) != (b < 0) then TruncDiv(a, b) - 1 else TruncDiv(a, b);
      SignedIntFitsIsRange(q, width);
      if !SignedIntFits(q, width) then Overflow else Ok(Word(q))
  }

  function SignedCeilDiv(x: nat, y: nat, width: nat): (r: Result)
    requires 0 < width <= 64 && IsSigned(x, width) && IsSigned(y, width)
    ensures r == if Signed(y) == 0 then ZeroDivision else SignedResult(CeilDiv(Signed(x), Signed(y)), width)
  {
    PowersUpTo64(width);
    var a, b := Signed(x), Signed(y);
    if b == 0 then ZeroDivision
    else if a == 0 - TWO_63 && b == -1 then
      OnlyOverflow(a, b);
      Overflow
    else
      FloorFromTrunc(a, b);
      QuotientIsSmall(a, b);
      var q := if TruncMod(a, b) != 0 && (a < 0) == (b < 0) then TruncDiv(a, b) + 1 else TruncDiv(a, b);
      SignedIntFitsIsRange(q, width);
      if !SignedIntFits(q, width) then Overflow else Ok(Word(q))
  }

  function UnsignedFloorDiv(x: nat, y: nat, width: nat): (r: Result)
    requires IsUnsigned(x, width) && IsUnsigned(y, width)
    ensures r == if y == 0 then ZeroDivision else UnsignedResult(FloorDiv(x, y), width)
  {
    if y == 0 then ZeroDivision
    else
      Quotient(x, y);
      UnsignedQuotientIsSmall(x, y);
      Ok(x / y)
  }

  function UnsignedCeilDiv(x: nat, y: nat, width: nat): (r: Result)
    requires IsUnsigned(x, width) && IsUnsigned(y, width)
    ensures r == if y == 0 then ZeroDivision else UnsignedResult(CeilDiv(x, y), width)
  {
    if y == 0 then ZeroDivision
    else
      FloorFromTrunc(x, y);
      UnsignedQuotientIsSmall(x, y);
      Ok(x / y + if x % y != 0 then 1 else 0)
  }

  lemma UnsignedQuotientIsSmall(x: nat, y: nat)
    requires y > 0
    ensures 0 <= x / y + (if x % y != 0 then 1 else 0) <= x
  {
    QuotientBounds(x, y);
  }

  /** Python's remainder, which has the sign of the divisor. */
  function SignedMod(x: nat, y: nat, width: nat): (r: Result)
    requires 0 < width <= 64 && IsSigned(x, width) && IsSigned(y, width)
    ensures Signed(y) == 0 ==> r == ZeroDivision
    ensures Signed(y) != 0 ==> r.Ok? && IsSigned(r.bits, width)
    ensures Signed(y) != 0 ==> Signed(x) == Signed(y) * FloorDiv(Signed(x), Signed(y)) + Signed(r.bits)
    ensures Signed(y) != 0 ==> if Signed(y) > 0 then 0 <= Signed(r.bits) < Signed(y) else Signed(y) < Signed(r.bits) <= 0
  {
    PowersUpTo64(width);
    SignedRange(y, width);
    var a, b := Signed(x), Signed(y);
    if b == 0 then ZeroDivision
    else
      RemainderFromTrunc(a, b);
      if b == -1 then Ok(0)
      else
        var r := TruncMod(a, b);
        var s := if r != 0 && (r < 0) != (b < 0) then r + b else r;
        SignedRange(Word(s), width);
        Ok(Word(s))
  }

  lemma RemainderFromTrunc(a: int, b: int)
    requires b != 0
    ensures var r := TruncMod(a, b);
            var s := if r != 0 && (r < 0) != (b < 0) then r + b else r;
            && a == b * FloorDiv(a, b) + s
            && (if b > 0 then 0 <= s < b else b < s <= 0)
  {
    FloorFromTrunc(a, b);
    Quotient(Magnitude(a), Magnitude(b));
    hide FloorDiv, CeilDiv;
    SignedProducts(b, Magnitude(a) / Magnitude(b));
  }

  lemma SignedProducts(b: int, q: int)
    ensures b * (-q) == -(b * q) && (-b) * q == -(b * q)
    ensures b * (-q - 1) == -(b * q) - b && b * (q - 1) == b * q - b
  {
    Distribute(b, 0, q);
    Distribute(b, -q, 1);
    Distribute(b, q, 1);
  }

  function UnsignedMod(x: nat, y: nat, width: nat): (r: Result)
    requires IsUnsigned(x, width) && IsUnsigned(y, width)
    ensures y == 0 ==> r == ZeroDivision
    ensures y != 0 ==> r.Ok? && r.bits < y && x == y * FloorDiv(x, y) + r.bits
  {
    if y == 0 then ZeroDivision
    else
      Quotient(x, y);
      Ok(x % y)
  }

  /** Whenever the quotient fits, quotient and remainder give back the dividend. */
  lemma DivisionLaw(x: nat, y: nat, width: nat)
    requires 0 < width <= 64 && IsSigned(x, width) && IsSigned(y, width) && SignedFloorDiv(x, y, width).Ok?
    ensures SignedMod(x, y, width).Ok?
    ensures Signed(SignedFloorDiv(x, y, width).bits) * Signed(y) + Signed(SignedMod(x, y, width).bits) == Signed(x)
  {
    FloorQuotient(x, y, width);
    hide SignedFloorDiv, SignedMod, FloorDiv, Signed;
  }

  lemma FloorQuotient(x: nat, y: nat, width: nat)
    requires 0 < width <= 64 && IsSigned(x, width) && IsSigned(y, width) && SignedFloorDiv(x, y, width).Ok?
    ensures Signed(y) != 0 && SignedFloorDiv(x, y, width).bits < TWO_64
    ensures Signed(SignedFloorDiv(x, y, width).bits) == FloorDiv(Signed(x), Signed(y))
    ensures SignedMod(x, y, width).Ok? && SignedMod(x, y, width).bits < TWO_64
    ensures Signed(x) == Signed(y) * FloorDiv(Signed(x), Signed(y)) + Signed(SignedMod(x, y, width).bits)
  {
    PowersUpTo64(width);
    assert SignedFloorDiv(x, y, width) == SignedResult(FloorDiv(Signed(x), Signed(y)), width);
    assert SignedMod(x, y, width).Ok?;
    hide SignedFloorDiv, SignedMod, FloorDiv, TruncDiv, TruncMod;
  }

  // ---- Power ----

  function Power(base: int, exp: nat): int {
    if exp == 0 then 1 else base * Power(base, exp - 1)
  }

  datatype Arithmetic = SignedInt(width: nat) | UnsignedInt(width: nat)

  predicate IsArithmetic(a: Arithmetic) {
    0 < a.width <= 64 && (a.SignedInt? ==> a.width > 1)
  }

  predicate InRange(a: Arithmetic, x: nat)
    requires IsArithmetic(a)
  {
    if a.SignedInt? then IsSigned(x, a.width) else IsUnsigned(x, a.width)
  }

  function ValueOf(a: Arithmetic, x: nat): int
    requires IsArithmetic(a) && InRange(a, x)
  {
    if a.SignedInt? then Signed(x) else x
  }

  predicate Fits(a: Arithmetic, v: int)
    requires IsArithmetic(a)
  {
    if a.SignedInt? then FitsSigned(v, a.width) else 0 <= v < Pow2(a.width)
  }

  function Exact(a: Arithmetic, v: int): (r: Result)
    requires IsArithmetic(a)
    ensures r.Ok? <==> Fits(a, v)
    ensures r.Ok? ==> InRange(a, r.bits) && ValueOf(a, r.bits) == v
    ensures !r.Ok? ==> r == Overflow
  {
    PowersUpTo64(a.width);
    if a.SignedInt? then SignedResult(v, a.width) else UnsignedResult(v, a.width)
  }

  function Mul(a: Arithmetic, x: nat, y: nat): (r: Result)
    requires IsArithmetic(a) && InRange(a, x) && InRange(a, y)
    ensures r == Exact(a, ValueOf(a, x) * ValueOf(a, y))
  {
    if a.SignedInt? then SignedMul(x, y, a.width) else UnsignedMul(x, y, a.width)
  }

  lemma {:induction false} PowerOfSquare(base: int, exp: nat)
    ensures Power(base * base, exp) == Power(base, 2 * exp)
  {
    if exp > 0 {
      PowerOfSquare(base, exp - 1);
      var p := Power(base, 2 * exp - 2);
      assert Power(base, 2 * exp) == base * Power(base, 2 * exp - 1) == base * (base * p);
      Associative(base, base, p);
    }
  }

  lemma Associative(a: int, b: int, c: int)
    ensures (a * b) * c == a * (b * c)
  {
  }

  lemma {:induction false} PowerAtLeast(b: nat, e: nat)
    requires b >= 1
    ensures Power(b, e) >= 1
    ensures e >= 1 ==> Power(b, e) >= b
  {
    if e > 0 {
      PowerAtLeast(b, e - 1);
      ProductAtLeast(b, Power(b, e - 1));
    }
  }

  lemma ProductAtLeast(p: int, q: int)
    requires q >= 1
    ensures p >= 0 ==> p * q >= p
    ensures p <= 0 ==> p * q <= p
  {
    var d := q - 1;
    assert p * q == p * d + p;
    if p >= 0 {
      assert p * d >= 0;
    } else {
      assert p * d <= 0;
    }
  }

  /** Even if what is left to multiply with is not 1, it does not bring the result back into range. */
  lemma ProductStaysOut(a: Arithmetic, p: int, q: int)
    requires IsArithmetic(a) && !Fits(a, p) && q >= 1
    requires a.UnsignedInt? ==> p >= 0
    ensures !Fits(a, p * q)
  {
    hide Pow2;
    ProductAtLeast(p, q);
  }

  /** The running product is 1, or as large as 2, while the base can still grow. */
  predicate Grown(result: int, base: int) {
    result == 1 || Magnitude(result) >= 2 || Magnitude(base) <= 1
  }

  lemma GrownByBase(result: int, base: int)
    requires Grown(result, base)
    ensures Grown(result * base, base)
  {
    if Magnitude(base) >= 2 && result != 1 {
      if base >= 2 { ProductAtLeast(result, base); } else { ProductAtLeast(-result, -base); assert (-result) * (-base) == result * base; }
    }
  }

  lemma SquareOf(base: int)
    ensures base * base >= 0
    ensures Magnitude(base) <= 1 ==> base * base <= 1
    ensures Magnitude(base) >= 2 ==> base * base >= 4
  {
    if base >= 0 { ProductAtLeast(base, base + 1); } else { assert base * base == (-base) * (-base); }
    if base >= 2 { assert base * base >= 2 * base; }
    if base <= -2 { assert (-base) * (-base) >= 2 * (-base); }
  }

  lemma GrownBySquare(result: int, base: int)
    requires Grown(result, base)
    ensures Grown(result, base * base)
  {
    SquareOf(base);
  }

  /** A square that does not fit is not multiplied for nothing: the power does not fit either. */
  lemma SquareStaysOut(a: Arithmetic, result: int, base: int, exp: nat)
    requires IsArithmetic(a) && Grown(result, base) && exp >= 1 && !Fits(a, base * base)
    requires a.UnsignedInt? ==> result >= 0
    ensures !Fits(a, result * Power(base * base, exp))
  {
    hide Fits, Power;
    var b := base * base;
    SquareOf(base);
    UnitsFit(a);
    PowerAtLeast(b, exp);
    GrownProduct(result, Power(b, exp), b);
    OutOfRange(a, b, result * Power(b, exp));
  }

  lemma UnitsFit(a: Arithmetic)
    requires IsArithmetic(a)
    ensures Fits(a, 0) && Fits(a, 1)
  {
    FirstPowers();
    Pow2Monotone(1, if a.SignedInt? then a.width - 1 else a.width);
    hide Pow2;
  }

  lemma GrownProduct(result: int, p: nat, b: nat)
    requires p >= b && (result == 1 || Magnitude(result) >= 2)
    ensures result * p >= b || result * p <= -2 * b
    ensures result >= 0 ==> result * p >= 0
  {
    if result >= 2 {
      ProductAtLeast(p, result);
      assert result * p == p * result;
    } else if result <= -2 {
      TwiceAtLeast(p, -result);
      assert result * p == -(p * (-result));
    }
  }

  /** What is beyond a square that does not fit does not fit either. */
  lemma OutOfRange(a: Arithmetic, b: nat, v: int)
    requires IsArithmetic(a) && !Fits(a, b) && (v >= b || v <= -2 * b) && (a.UnsignedInt? ==> v >= 0)
    ensures !Fits(a, v)
  {
    hide Pow2;
  }

  lemma TwiceAtLeast(p: nat, q: nat)
    requires q >= 2
    ensures p * q >= 2 * p
  {
  }

  /** Square and multiply. It overflows exactly when the power itself does not fit. */
  method IntPowNonnegative(a: Arithmetic, x: nat, y: nat) returns (r: Result)
    requires IsArithmetic(a) && InRange(a, x)
    ensures r == Exact(a, Power(ValueOf(a, x), y))
  {
    OneIsInRange(a);
    hide InRange, ValueOf, Fits, Power, Grown, Magnitude;
    assert Grown(1, ValueOf(a, x)) by { OneIsGrown(ValueOf(a, x)); }
    var base, exp, result := x, y, 1;
    while true
      invariant InRange(a, base) && InRange(a, result)
      invariant ValueOf(a, result) * Power(ValueOf(a, base), exp) == Power(ValueOf(a, x), y)
      invariant Grown(ValueOf(a, result), ValueOf(a, base))
      decreases exp
    {
      ghost var res, b, e := ValueOf(a, result), ValueOf(a, base), exp / 2;
      PowerByHalves(res, b, exp);
      if exp % 2 == 1 {
        var product := Mul(a, result, base);
        if product.Overflow? {
          MultiplyOverflows(a, res, b, e);
          return Overflow;
        }
        GrownByBase(res, b);
        result := product.bits;
      }
      exp := exp / 2;
      if exp == 0 {
        return Ok(result);
      }
      var square := Mul(a, base, base);
      if square.Overflow? {
        SquareStaysOut(a, ValueOf(a, result), b, e);
        return Overflow;
      }
      GrownBySquare(ValueOf(a, result), b);
      base := square.bits;
    }
  }

  lemma OneIsGrown(base: int)
    ensures Grown(1, base)
  {
  }

  lemma OneIsInRange(a: Arithmetic)
    requires IsArithmetic(a)
    ensures InRange(a, 1) && ValueOf(a, 1) == 1
  {
    Pow2Monotone(1, if a.SignedInt? then a.width - 1 else a.width);
    assert Pow2(1) == 2;
  }

  lemma PowerByHalves(result: int, base: int, exp: nat)
    ensures exp % 2 == 1 ==> result * Power(base, exp) == (result * base) * Power(base * base, exp / 2)
    ensures exp % 2 == 0 ==> result * Power(base, exp) == result * Power(base * base, exp / 2)
  {
    PowerOfSquare(base, exp / 2);
    if exp % 2 == 1 {
      Associative(result, base, Power(base, exp - 1));
    }
  }

  lemma MultiplyOverflows(a: Arithmetic, result: int, base: int, exp: nat)
    requires IsArithmetic(a) && !Fits(a, result * base)
    requires a.UnsignedInt? ==> result * base >= 0
    ensures !Fits(a, (result * base) * Power(base * base, exp))
  {
    hide Fits, Power;
    UnitsFit(a);
    ZeroTimes(result);
    SquareIsPositive(base);
    PowerAtLeast(base * base, exp);
    ProductStaysOut(a, result * base, Power(base * base, exp));
  }

  lemma ZeroTimes(x: int)
    ensures x * 0 == 0
  {
  }

  lemma SquareIsPositive(base: int)
    requires base != 0
    ensures base * base >= 1
  {
    if base > 0 { ProductAtLeast(base, base); } else { ProductAtLeast(-base, -base); assert (-base) * (-base) == base * base; }
  }

  method UnsignedPow(x: nat, y: nat, width: nat) returns (r: Result)
    requires 0 < width <= 64 && IsUnsigned(x, width) && IsUnsigned(y, width)
    ensures r == UnsignedResult(Power(x, y), width)
  {
    r := IntPowNonnegative(UnsignedInt(width), x, y);
  }

  /** A negative exponent gives the fraction that Python computes, truncated toward zero. */
  method SignedPow(x: nat, y: nat, width: nat) returns (r: Result)
    requires 1 < width <= 64 && IsSigned(x, width) && IsSigned(y, width)
    ensures Signed(y) >= 0 ==> r == SignedResult(Power(Signed(x), Signed(y)), width)
    ensures Signed(y) < 0 && Signed(x) == 0 ==> r == ZeroDivision
    ensures Signed(y) < 0 && Signed(x) != 0 ==>
              && Power(Signed(x), -Signed(y)) != 0
              && r == SignedResult(TruncDiv(1, Power(Signed(x), -Signed(y))), width)
  {
    var base, exp := Signed(x), Signed(y);
    if exp < 0 {
      if base == 0 {
        return ZeroDivision;
      }
      PowerOfNonzero(base, -exp);
      SmallFits(width);
      OddIsLowBit(y);
      if base == 1 {
        return Ok(1);
      }
      if base == -1 {
        return Ok(Word(if y % 2 == 1 then -1 else 1));
      }
      return Ok(0);
    }
    r := IntPowNonnegative(SignedInt(width), x, y);
  }

  lemma SmallFits(width: nat)
    requires 1 < width <= 64
    ensures SignedResult(1, width) == Ok(1) && SignedResult(0, width) == Ok(0)
    ensures SignedResult(-1, width) == Ok(Word(-1))
  {
    Pow2Monotone(1, width - 1);
    assert Pow2(1) == 2;
  }

  lemma OddIsLowBit(y: nat)
    requires y < TWO_64
    ensures y % 2 == (-Signed(y)) % 2
  {
  }

  lemma {:induction false} PowerOfNonzero(base: int, exp: nat)
    requires base != 0
    ensures Power(base, exp) != 0
    ensures base == 1 ==> Power(base, exp) == 1
    ensures base == -1 ==> Power(base, exp) == if exp % 2 == 1 then -1 else 1
    ensures Magnitude(base) >= 2 && exp >= 1 ==> Magnitude(Power(base, exp)) >= 2 && TruncDiv(1, Power(base, exp)) == 0
    ensures TruncDiv(1, 1) == 1 && TruncDiv(1, -1) == -1
  {
    if exp > 0 {
      PowerOfNonzero(base, exp - 1);
      var p := Power(base, exp - 1);
      MagnitudeOfProduct(base, p);
      ProductAtLeast(Magnitude(base), Magnitude(p));
      if Magnitude(base) >= 2 {
        OneOver(Power(base, exp));
      }
    }
  }

  lemma MagnitudeOfProduct(a: int, b: int)
    ensures Magnitude(a * b) == Magnitude(a) * Magnitude(b)
  {
    if a >= 0 && b < 0 {
      assert a * b == -(a * (-b));
    } else if a < 0 && b >= 0 {
      assert a * b == -((-a) * b);
    } else if a < 0 && b < 0 {
      assert a * b == (-a) * (-b);
    }
  }

  lemma OneOver(p: int)
    requires Magnitude(p) >= 2
    ensures TruncDiv(1, p) == 0
  {
    QuotientIsUnique(1, Magnitude(p), 0, 1);
  }

  // ---- Truncation ----

  function TruncateToUnsigned(x: nat, width: nat): (r: nat)
    requires 0 < width <= 64 && x < TWO_64
    ensures r == LowBits(x, width)
  {
    ShiftedOut(x, width);
    Shr(Shl64(x, 64 - width), 64 - width)
  }

  function TruncateToSigned(x: nat, width: nat): (r: nat)
    requires 0 < width <= 64 && x < TWO_64
    ensures IsSigned(r, width) && LowBits(r, width) == LowBits(x, width)
  {
    SignShiftedIn(x, width);
    Word(Sar(Signed(Shl64(x, 64 - width)), 64 - width))
  }

  /** There is only one sign-extended word with given low bits. */
  lemma SignedIsUnique(x: nat, y: nat, width: nat)
    requires 0 < width <= 64 && IsSigned(x, width) && IsSigned(y, width)
    requires LowBits(x, width) == LowBits(y, width)
    ensures x == y
  {
    LowBitsOfSigned(x, width);
    LowBitsOfSigned(y, width);
    PowersUpTo64(width);
  }

  lemma LowBitsOfSigned(x: nat, width: nat)
    requires 0 < width <= 64 && IsSigned(x, width)
    ensures LowBits(x, width) == if x < Pow2(width - 1) then x else x - (TWO_64 - Pow2(width))
    ensures x >= Pow2(width - 1) ==> x - (TWO_64 - Pow2(width)) >= Pow2(width - 1)
  {
    PowersUpTo64(width);
    hide Pow2, Shl, Shr, LowBits;
    if x < Pow2(width - 1) {
      ShlZero(width);
      SplitUnique(0, x, width);
    } else {
      ShiftedOnes(width);
      SplitUnique(AllOnes(64 - width), x - (TWO_64 - Pow2(width)), width);
    }
  }

  lemma ShiftedOnes(width: nat)
    requires width <= 64
    ensures Shl(AllOnes(64 - width), width) == TWO_64 - Pow2(width)
  {
    Pow2Of63And64();
    hide Pow2, Shl;
    ShlSum(AllOnes(64 - width), 1, width);
    ShlOfPow2(64 - width, width);
    Pow2IsShl(width);
  }

  lemma ShiftedOut(x: nat, width: nat)
    requires 0 < width <= 64 && x < TWO_64
    ensures Shl64(x, 64 - width) == Shl(LowBits(x, width), 64 - width)
    ensures Shr(Shl64(x, 64 - width), 64 - width) == LowBits(x, width)
  {
    var shift := 64 - width;
    Pow2Of63And64();
    hide Pow2, Shl, Shr, LowBits;
    var hi, lo := Shr(x, width), LowBits(x, width);
    Split(x, width);
    ShlSum(Shl(hi, width), lo, shift);
    ShlShl(hi, width, shift);
    ShlIsProduct(hi, 64);
    ShlOrder(lo, Pow2(width), shift);
    ShlOfPow2(width, shift);
    RemainderOfSum(hi, Shl(lo, shift));
    SplitUnique(lo, 0, shift);
  }

  lemma RemainderOfSum(hi: nat, lo: nat)
    requires lo < TWO_64
    ensures (hi * TWO_64 + lo) % TWO_64 == lo
  {
  }

  lemma SignShiftedIn(x: nat, width: nat)
    requires 0 < width <= 64 && x < TWO_64
    ensures var v := Sar(Signed(Shl64(x, 64 - width)), 64 - width);
            && 0 - TWO_63 <= v < TWO_63
            && IsSigned(Word(v), width) && LowBits(Word(v), width) == LowBits(x, width)
  {
    hide Pow2, Shl, Shr, LowBits;
    var shift, lo := 64 - width, LowBits(x, width);
    var s := Shl64(x, shift);
    PowersUpTo64(width);
    ShiftedOut(x, width);
    ShlOrder(lo, Pow2(width - 1), shift);
    ShlOfPow2(width - 1, shift);
    Pow2Of63And64();
    ShrOfComplement(s, shift);
    var v := Sar(Signed(s), shift);
    assert v == if lo < Pow2(width - 1) then lo else lo - Pow2(width);
    LowBitsOfSigned(Word(v), width);
  }
}
