/** Powers of two and the shift, mask and bit-length operators on naturals that the codec,
    the shapes and the bit writer share. They are recursive on the shift count, so that no proof
    needs to multiply or divide by an unknown power of two. */
module PowersOfTwo {

  const TWO_63: nat := 0x8000_0000_0000_0000
  const TWO_64: nat := 0x1_0000_0000_0000_0000

  function Pow2(e: nat): (r: nat)
    ensures r >= 1
  {
    if e == 0 then 1 else 2 * Pow2(e - 1)
  }

  /** x << k, without a word size. */
  function Shl(x: nat, k: nat): (r: nat)
    ensures r >= x
  {
    if k == 0 then x else 2 * Shl(x, k - 1)
  }

  /** x >> k. */
  function Shr(x: nat, k: nat): (r: nat)
    ensures r <= x
  {
    if k == 0 then x else Shr(x / 2, k - 1)
  }

  /** x & ((1 << k) - 1). */
  function LowBits(x: nat, k: nat): (r: nat)
    ensures r < Pow2(k)
  {
    if k == 0 then 0 else x % 2 + 2 * LowBits(x / 2, k - 1)
  }

  /** The number of bits needed to write x, 0 for x == 0. */
  function BitLength(x: nat): nat {
    if x == 0 then 0 else 1 + BitLength(x / 2)
  }

  /** A left shift of a 64-bit word, which drops the bits that leave the word. */
  function Shl64(x: nat, k: nat): (r: nat)
    ensures r < TWO_64
  {
    Shl(x, k) % TWO_64
  }

  function BitOr(a: nat, b: nat): nat
    decreases a + b
  {
    if a == 0 then b
    else if b == 0 then a
    else (if a % 2 == 1 || b % 2 == 1 then 1 else 0) + 2 * BitOr(a / 2, b / 2)
  }

  lemma Pow2Of63And64()
    ensures Pow2(63) == TWO_63 && Pow2(64) == TWO_64
  {
    assert Pow2(8) == 0x100;
    assert Pow2(16) == 0x1_0000;
    assert Pow2(24) == 0x100_0000;
    assert Pow2(32) == 0x1_0000_0000;
    assert Pow2(40) == 0x100_0000_0000;
    assert Pow2(48) == 0x1_0000_0000_0000;
    assert Pow2(56) == 0x100_0000_0000_0000;
  }

  lemma FirstPowers()
    ensures Pow2(0) == 1 && Pow2(1) == 2
  {
  }

  lemma Pow2Next(e: nat)
    ensures Pow2(e + 1) == 2 * Pow2(e)
  {
  }

  lemma {:induction false} Pow2IsShl(k: nat)
    ensures Shl(1, k) == Pow2(k)
  {
    if k > 0 {
      Pow2IsShl(k - 1);
    }
  }

  lemma {:induction false} Pow2Monotone(a: nat, b: nat)
    requires a <= b
    ensures Pow2(a) <= Pow2(b)
    decreases b - a
  {
    if a < b {
      Pow2Monotone(a, b - 1);
    }
  }

  lemma {:induction false} ShlSum(x: nat, y: nat, k: nat)
    ensures Shl(x + y, k) == Shl(x, k) + Shl(y, k)
  {
    if k > 0 {
      ShlSum(x, y, k - 1);
    }
  }

  lemma {:induction false} ShlShl(x: nat, a: nat, b: nat)
    ensures Shl(Shl(x, a), b) == Shl(x, a + b)
  {
    if b > 0 {
      ShlShl(x, a, b - 1);
    }
  }

  lemma {:induction false} ShlOfPow2(a: nat, b: nat)
    ensures Shl(Pow2(a), b) == Pow2(a + b)
  {
    if b > 0 {
      ShlOfPow2(a, b - 1);
    }
  }

  lemma {:induction false} ShlOrder(x: nat, y: nat, k: nat)
    ensures x < y <==> Shl(x, k) < Shl(y, k)
  {
    if k > 0 {
      ShlOrder(x, y, k - 1);
    }
  }

  lemma ShlBy0(x: nat)
    ensures Shl(x, 0) == x
  {
  }

  lemma {:induction false} ShlZero(k: nat)
    ensures Shl(0, k) == 0
  {
    if k > 0 {
      ShlZero(k - 1);
    }
  }

  /** Every number splits at bit k into a shifted upper part and the low bits. */
  lemma {:induction false} Split(x: nat, k: nat)
    ensures x == Shl(Shr(x, k), k) + LowBits(x, k)
  {
    if k > 0 {
      Split(x / 2, k - 1);
    }
  }

  /** The two parts are determined by their sum. */
  lemma {:induction false} SplitUnique(hi: nat, lo: nat, k: nat)
    requires lo < Pow2(k)
    ensures Shr(Shl(hi, k) + lo, k) == hi && LowBits(Shl(hi, k) + lo, k) == lo
  {
    if k > 0 {
      SplitUnique(hi, lo / 2, k - 1);
      var x := Shl(hi, k) + lo;
      assert x / 2 == Shl(hi, k - 1) + lo / 2 && x % 2 == lo % 2;
    }
  }

  lemma {:induction false} ShrShr(x: nat, a: nat, b: nat)
    ensures Shr(Shr(x, a), b) == Shr(x, a + b)
  {
    if a > 0 {
      ShrShr(x / 2, a - 1, b);
    }
  }

  /** x < 2^(a+b) exactly when the part above bit a fits b bits. */
  lemma {:induction false} ShrBound(x: nat, a: nat, b: nat)
    ensures x < Pow2(a + b) <==> Shr(x, a) < Pow2(b)
  {
    if a > 0 {
      ShrBound(x / 2, a - 1, b);
      assert Pow2(a + b) == 2 * Pow2(a - 1 + b);
    }
  }

  lemma {:induction false} BitLengthBounds(x: nat)
    requires x > 0
    ensures BitLength(x) > 0 && Pow2(BitLength(x) - 1) <= x < Pow2(BitLength(x))
  {
    if x > 1 {
      BitLengthBounds(x / 2);
    }
  }

  lemma BitLengthUnique(x: nat, n: nat)
    requires n > 0 && Pow2(n - 1) <= x < Pow2(n)
    ensures BitLength(x) == n
  {
    BitLengthBounds(x);
    if BitLength(x) < n {
      Pow2Monotone(BitLength(x), n - 1);
    } else if BitLength(x) > n {
      Pow2Monotone(n, BitLength(x) - 1);
    }
  }

  /** Or-ing fields that do not overlap is addition. */
  lemma {:induction false} BitOrDisjoint(hi: nat, k: nat, lo: nat)
    requires lo < Pow2(k)
    ensures BitOr(Shl(hi, k), lo) == Shl(hi, k) + lo
    decreases k
  {
    var a := Shl(hi, k);
    if k > 0 && a > 0 && lo > 0 {
      BitOrDisjoint(hi, k - 1, lo / 2);
      assert a / 2 == Shl(hi, k - 1);
    }
  }

  /** A field read by shifting then masking, or by masking then shifting. */
  lemma {:induction false} FieldOf(x: nat, a: nat, b: nat)
    ensures LowBits(Shr(x, a), b) == Shr(LowBits(x, a + b), a)
  {
    if a > 0 {
      FieldOf(x / 2, a - 1, b);
      var y := LowBits(x, a + b);
      assert y == x % 2 + 2 * LowBits(x / 2, a - 1 + b);
      assert y / 2 == LowBits(x / 2, a - 1 + b);
    }
  }

  lemma {:induction false} ShlIsProduct(x: nat, k: nat)
    ensures Shl(x, k) == x * Pow2(k)
  {
    if k > 0 {
      ShlIsProduct(x, k - 1);
      DoubleProduct(x, Pow2(k - 1));
    }
  }

  lemma DoubleProduct(x: int, y: int)
    ensures x * (2 * y) == 2 * (x * y)
  {
  }

  lemma ShlMonotone(x: nat, y: nat, k: nat)
    requires x <= y
    ensures Shl(x, k) <= Shl(y, k)
  {
    ShlOrder(y, x, k);
  }

  /** Shifting out of a 64-bit word what does not fit is reduction modulo 2^64. */
  lemma Shl64Exact(x: nat, k: nat)
    requires Shl(x, k) < TWO_64
    ensures Shl64(x, k) == Shl(x, k)
  {
  }

  /** Minus one, as a 64-bit word, shifted left. */
  lemma Shl64OfMinusOne(k: nat)
    requires k < 64
    ensures Shl64(TWO_64 - 1, k) == TWO_64 - Pow2(k) && Pow2(k) <= TWO_63
  {
    hide Shl, Pow2;
    Pow2Of63And64();
    Pow2Monotone(k, 63);
    var p := Pow2(k);
    ShlSum(TWO_64 - 1, 1, k);
    Pow2IsShl(k);
    ShlIsProduct(TWO_64, k);
    assert Shl(TWO_64 - 1, k) == p * TWO_64 - p;
    RemainderOfMultipleMinus(p);
  }

  lemma RemainderOfMultipleMinus(p: nat)
    requires 0 < p < TWO_64
    ensures (p * TWO_64 - p) % TWO_64 == TWO_64 - p
  {
    assert p * TWO_64 - p == (p - 1) * TWO_64 + (TWO_64 - p);
  }
}
