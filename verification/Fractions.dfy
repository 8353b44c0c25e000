/** The two significand representations that feed the rounding routine: a 64-bit word, and a
    byte vector of any length. Shifting one left takes its top bits out of it. */
module Fractions {
  import opened PowersOfTwo
  import opened FloatRounding

  // ---- U64Fraction ----

  /** The top bit of the word is the integer part: the word 2^63 is one. */
  class U64Fraction {
    var val: nat

    ghost predicate Valid()
      reads this
    {
      val < TWO_64
    }

    constructor (v: nat)
      requires TWO_63 <= v < TWO_64
      ensures Valid() && val == v
    {
      val := v;
    }

    method Lshift(n: nat) returns (ret: nat)
      requires Valid() && n <= 64
      modifies this
      ensures Valid()
      ensures ret == Shr(old(val), 64 - n)
      ensures val == Shl(LowBits(old(val), 64 - n), n)
    {
      ghost var v := val;
      Pow2Of63And64();
      if n == 0 {
        ShrBound(val, 64, 0);
        ret := 0;
        WholeWord(v);
      } else if n == 64 {
        ret := val;
        val := 0;
        ShlZero(64);
      } else {
        ret := Shr(val, 64 - n);
        val := Shl64(val, n);
        WordShiftedOut(v, n);
      }
    }

    predicate GreaterThanOne()
      reads this
      ensures GreaterThanOne() <==> AboveHalf(val, 64)
    {
      Pow2Of63And64();
      val > TWO_63
    }

    predicate EqualsOne()
      reads this
      ensures EqualsOne() <==> ExactlyHalf(val, 64)
    {
      Pow2Of63And64();
      val == TWO_63
    }
  }

  lemma WholeWord(v: nat)
    requires v < TWO_64
    ensures LowBits(v, 64) == v && Shl(v, 0) == v && Shr(v, 64) == 0
  {
    hide Shr, LowBits, Pow2;
    Pow2Of63And64();
    ShlZero(64);
    SplitUnique(0, v, 64);
  }

  /** The bits that stay in the word are the low ones. */
  lemma WordShiftedOut(v: nat, n: nat)
    requires v < TWO_64 && n < 64
    ensures Shl64(v, n) == Shl(LowBits(v, 64 - n), n)
  {
    hide Shl, Shr, LowBits, Pow2;
    Pow2Of63And64();
    var hi, lo := Shr(v, 64 - n), LowBits(v, 64 - n);
    Split(v, 64 - n);
    ShlSum(Shl(hi, 64 - n), lo, n);
    ShlShl(hi, 64 - n, n);
    ShlIsProduct(hi, 64);
    ShlOrder(lo, Pow2(64 - n), n);
    ShlOfPow2(64 - n, n);
    assert Shl(v, n) == hi * TWO_64 + Shl(lo, n);
  }

  /** Comparing a shifted word with one is comparing the bits left in it with one half. */
  lemma {:induction false} HalfOfShifted(r: nat, d: nat, n: nat)
    ensures AboveHalf(Shl(r, n), d + n) <==> AboveHalf(r, d)
    ensures ExactlyHalf(Shl(r, n), d + n) <==> ExactlyHalf(r, d)
  {
    if n > 0 {
      HalfOfShifted(r, d, n - 1);
    }
  }

  // ---- LongFraction ----

  /** The number stored in little-endian bytes. */
  ghost function BytesValue(data: seq<nat>): nat {
    if data == [] then 0
    else BytesValue(data[..|data| - 1]) + Shl(data[|data| - 1], 8 * (|data| - 1))
  }

  ghost predicate AreBytes(data: seq<nat>) {
    forall i :: 0 <= i < |data| ==> data[i] < 256
  }

  function TopByteBits(numBits: nat): nat {
    if numBits == 0 then 8 else (numBits - 1) % 8 + 1
  }

  /** Bytes hold a number of numBits bits, with no byte to spare. */
  ghost predicate HoldsBits(data: seq<nat>, numBits: nat) {
    && AreBytes(data)
    && |data| == (numBits + 7) / 8
    && (numBits > 0 ==> data[|data| - 1] < Pow2(TopByteBits(numBits)))
  }

  lemma {:induction false} BytesBound(data: seq<nat>)
    requires AreBytes(data)
    ensures BytesValue(data) < Pow2(8 * |data|)
  {
    if data != [] {
      var k := |data| - 1;
      BytesBound(data[..k]);
      hide Shl, Pow2;
      ShlSum(data[k], 1, 8 * k);
      Pow2IsShl(8 * k);
      ShlMonotone(data[k] + 1, 256, 8 * k);
      assert Pow2(8) == 256 by { Pow2Of8(); }
      ShlOfPow2(8, 8 * k);
    }
  }

  lemma Pow2Of8()
    ensures Pow2(8) == 256
  {
  }

  /** The top byte contributes the top bits. */
  lemma TopByte(data: seq<nat>, numBits: nat)
    requires HoldsBits(data, numBits) && numBits > 0
    ensures data != [] && AreBytes(data) && AreBytes(data[..|data| - 1])
    ensures var k := |data| - 1;
            && numBits == 8 * k + TopByteBits(numBits)
            && data[k] < Pow2(TopByteBits(numBits))
            && BytesValue(data) == Shl(data[k], 8 * k) + BytesValue(data[..k])
            && BytesValue(data[..k]) < Pow2(8 * k)
            && BytesValue(data) < Pow2(numBits)
            && 1 <= TopByteBits(numBits) <= 8
  {
    hide Shl, Pow2;
    var k := |data| - 1;
    BytesBound(data[..k]);
    ShlSum(data[k], 1, 8 * k);
    Pow2IsShl(8 * k);
    ShlMonotone(data[k] + 1, Pow2(TopByteBits(numBits)), 8 * k);
    ShlOfPow2(TopByteBits(numBits), 8 * k);
  }

  /** Moving the top m bits of the low part of a number over to its high part. */
  lemma MoveBoundary(x: nat, hi: nat, mid: nat, lo: nat, m: nat, w: nat)
    requires x == Shl(hi, m + w) + (Shl(mid, w) + lo)
    requires mid < Pow2(m) && lo < Pow2(w)
    ensures Shr(x, w) == Shl(hi, m) + mid && LowBits(x, w) == lo
  {
    hide Shl, Shr, LowBits, Pow2;
    ShlShl(hi, m, w);
    ShlSum(Shl(hi, m), mid, w);
    SplitUnique(Shl(hi, m) + mid, lo, w);
  }

  class LongFraction {
    var data: seq<nat>
    var numBits: nat

    ghost predicate Valid()
      reads this
    {
      HoldsBits(data, numBits)
    }

    ghost function Num(): nat
      reads this
    {
      BytesValue(data)
    }

    constructor (bytes: seq<nat>, nbits: nat)
      requires HoldsBits(bytes, nbits)
      ensures Valid() && data == bytes && numBits == nbits
    {
      data := bytes;
      numBits := nbits;
    }

    /** Takes the bits above `keep` out of the top byte. */
    method SplitTopByte(keep: nat) returns (ret: nat)
      requires data != []
      modifies this`data
      ensures ret == Shr(old(data)[|old(data)| - 1], keep)
      ensures data == old(data)[..|old(data)| - 1] + [LowBits(old(data)[|old(data)| - 1], keep)]
    {
      var top := data[|data| - 1];
      ret := Shr(top, keep);
      data := data[..|data| - 1] + [LowBits(top, keep)];
    }

    method PopByte() returns (ret: nat)
      requires data != []
      modifies this`data
      ensures ret == old(data)[|old(data)| - 1] && data == old(data)[..|old(data)| - 1]
    {
      ret := data[|data| - 1];
      data := data[..|data| - 1];
    }

    method Lshift(shift: nat) returns (ret: nat)
      requires Valid() && shift <= 64
      modifies this
      ensures Valid()
      ensures numBits == old(numBits) - (if shift > old(numBits) then old(numBits) else shift)
      ensures ret == Shr(old(Num()), numBits)
      ensures Num() == LowBits(old(Num()), numBits)
    {
      hide Shl, Shr, LowBits, Pow2, BytesValue, BitOr, Shl64, AreBytes, HoldsBits, TopByteBits;
      if numBits == 0 {
        NothingLeft(data);
        return 0;
      }
      var n := if shift > numBits then numBits else shift;
      ghost var x, total := Num(), numBits - n;
      var hiBits := TopByteBits(numBits);
      TopByte(data, numBits);
      numBits := numBits - n;
      if n < hiBits {
        ret := SplitTopByte(hiBits - n);
        TakeFromTopByte(old(data), old(numBits), n);
        return;
      }
      ret := PopByte();
      n := n - hiBits;
      ghost var k := |data|;
      SplitUnique(ret, BytesValue(data), 8 * k);
      ShrBound(x, 8 * k, hiBits);
      while n >= 8
        invariant AreBytes(data) && total <= 8 * |data| && n == 8 * |data| - total
        invariant |data| <= k && n + hiBits + 8 * (k - |data|) <= 64
        invariant ret == Shr(x, 8 * |data|) && BytesValue(data) == LowBits(x, 8 * |data|)
        invariant ret < Pow2(hiBits + 8 * (k - |data|))
        invariant numBits == total
      {
        ghost var before, r := data, ret;
        var b := PopByte();
        ret := BitOr(Shl64(ret, 8), b);
        ByteTaken(x, r, before, hiBits + 8 * (k - |before|));
        n := n - 8;
      }
      if n > 0 {
        ghost var before, r := data, ret;
        var h := SplitTopByte(8 - n);
        ret := BitOr(Shl64(ret, n), h);
        PartOfByteTaken(x, r, before, n, hiBits + 8 * (k - |before|));
      } else {
        WholeBytes(data);
      }
    }

    method GreaterThanOne() returns (r: bool)
      requires Valid()
      ensures r <==> AboveHalf(Num(), numBits)
    {
      hide Shl, Pow2, BytesValue, AreBytes, HoldsBits, TopByteBits, AboveHalf, ExactlyHalf;
      if numBits == 0 {
        NothingLeft(data);
        return false;
      }
      TopByte(data, numBits);
      var half := Pow2(TopByteBits(numBits) - 1);
      var top := data[|data| - 1];
      HalfByTopByte(top, BytesValue(data[..|data| - 1]), TopByteBits(numBits), 8 * (|data| - 1));
      if top != half {
        return top > half;
      }
      var i := 0;
      while i + 1 < |data|
        invariant 0 <= i <= |data| - 1
        invariant forall j :: 0 <= j < i ==> data[j] == 0
      {
        if data[i] != 0 {
          NonzeroByte(data[..|data| - 1], i);
          return true;
        }
        i := i + 1;
      }
      ZeroBytes(data[..|data| - 1]);
      return false;
    }

    method EqualsOne() returns (r: bool)
      requires Valid()
      ensures r <==> ExactlyHalf(Num(), numBits)
    {
      hide Shl, Pow2, BytesValue, AreBytes, HoldsBits, TopByteBits, AboveHalf, ExactlyHalf;
      if numBits == 0 {
        NothingLeft(data);
        return false;
      }
      TopByte(data, numBits);
      HalfByTopByte(data[|data| - 1], BytesValue(data[..|data| - 1]), TopByteBits(numBits), 8 * (|data| - 1));
      var i := 0;
      while i + 1 < |data|
        invariant 0 <= i <= |data| - 1
        invariant forall j :: 0 <= j < i ==> data[j] == 0
      {
        if data[i] != 0 {
          NonzeroByte(data[..|data| - 1], i);
          return false;
        }
        i := i + 1;
      }
      ZeroBytes(data[..|data| - 1]);
      return data[|data| - 1] == Pow2(TopByteBits(numBits) - 1);
    }
  }

  // ---- Proof steps of LongFraction ----

  lemma NothingLeft(data: seq<nat>)
    requires HoldsBits(data, 0)
    ensures BytesValue(data) == 0 && Shr(0, 0) == 0 && LowBits(0, 0) == 0
    ensures !AboveHalf(0, 0) && !ExactlyHalf(0, 0)
  {
  }

  lemma WholeBytes(data: seq<nat>)
    requires AreBytes(data)
    ensures HoldsBits(data, 8 * |data|)
  {
    Pow2Of8();
  }

  /** Dropping fewer bits than the top byte has, or all but `w` bits of a byte. */
  lemma TopBitsLeft(numBits: nat, k: nat, w: nat)
    requires numBits == 8 * k + w && 1 <= w <= 8
    ensures TopByteBits(numBits) == w && (numBits + 7) / 8 == k + 1
  {
  }

  lemma TakeFromTopByte(data: seq<nat>, numBits: nat, n: nat)
    requires HoldsBits(data, numBits) && numBits > 0 && n < TopByteBits(numBits)
    ensures var k := |data| - 1;
            var left := data[..k] + [LowBits(data[k], TopByteBits(numBits) - n)];
            && HoldsBits(left, numBits - n)
            && Shr(data[k], TopByteBits(numBits) - n) == Shr(BytesValue(data), numBits - n)
            && BytesValue(left) == LowBits(BytesValue(data), numBits - n)
  {
    hide Shl, Shr, LowBits, Pow2, BytesValue;
    var k, w := |data| - 1, TopByteBits(numBits) - n;
    var left := data[..k] + [LowBits(data[k], w)];
    TopByte(data, numBits);
    TopBitsLeft(numBits - n, k, w);
    hide TopByteBits;
    var hi, mid := Shr(data[k], w), LowBits(data[k], w);
    Split(data[k], w);
    ShlSum(Shl(hi, w), mid, 8 * k);
    ShlShl(hi, w, 8 * k);
    BytesBelow(left, k, w);
    Pow2Monotone(w, 8);
    Pow2Of8();
    SplitUnique(hi, Shl(mid, 8 * k) + BytesValue(data[..k]), w + 8 * k);
  }

  /** A byte vector whose top byte has w bits. */
  lemma BytesBelow(data: seq<nat>, k: nat, w: nat)
    requires |data| == k + 1 && AreBytes(data[..k]) && data[k] < Pow2(w)
    ensures BytesValue(data) == Shl(data[k], 8 * k) + BytesValue(data[..k])
    ensures BytesValue(data) < Pow2(w + 8 * k)
  {
    hide Shl, Pow2;
    BytesBound(data[..k]);
    ShlSum(data[k], 1, 8 * k);
    Pow2IsShl(8 * k);
    ShlMonotone(data[k] + 1, Pow2(w), 8 * k);
    ShlOfPow2(w, 8 * k);
  }

  /** One more whole byte moves from the data to the result. */
  lemma ByteTaken(x: nat, ret: nat, data: seq<nat>, used: nat)
    requires AreBytes(data) && data != [] && ret < Pow2(used) && used + 8 <= 64
    requires ret == Shr(x, 8 * |data|) && BytesValue(data) == LowBits(x, 8 * |data|)
    ensures var k := |data| - 1;
            && AreBytes(data[..k])
            && BitOr(Shl64(ret, 8), data[k]) == Shr(x, 8 * k) < Pow2(used + 8)
            && BytesValue(data[..k]) == LowBits(x, 8 * k)
  {
    hide Shl, Shr, LowBits, Pow2;
    var k := |data| - 1;
    Pow2Of8();
    BytesBelow(data, k, 8);
    BytesBound(data[..k]);
    Split(x, 8 * |data|);
    MoveBoundary(x, ret, data[k], BytesValue(data[..k]), 8, 8 * k);
    BitsAppended(ret, data[k], 8, used);
  }

  /** The last n bits come out of the top of a byte. */
  lemma PartOfByteTaken(x: nat, ret: nat, data: seq<nat>, n: nat, used: nat)
    requires AreBytes(data) && data != [] && 0 < n < 8 && ret < Pow2(used) && used + n <= 64
    requires ret == Shr(x, 8 * |data|) && BytesValue(data) == LowBits(x, 8 * |data|)
    ensures var k := |data| - 1;
            var left := data[..k] + [LowBits(data[k], 8 - n)];
            && BitOr(Shl64(ret, n), Shr(data[k], 8 - n)) == Shr(x, 8 * |data| - n)
            && BytesValue(left) == LowBits(x, 8 * |data| - n)
            && HoldsBits(left, 8 * |data| - n)
  {
    hide Shl, Shr, LowBits, Pow2, BytesValue, HoldsBits, TopByteBits, AreBytes, BitOr, Shl64;
    var k := |data| - 1;
    var left := data[..k] + [LowBits(data[k], 8 - n)];
    var h := Shr(data[k], 8 - n);
    PartLeft(data, n);
    Split(x, 8 * |data|);
    MoveBoundary(x, ret, h, BytesValue(left), n, 8 - n + 8 * k);
    BitsAppended(ret, h, n, used);
  }

  /** The top byte in two parts: what is taken, and what is left of the bytes. */
  lemma PartLeft(data: seq<nat>, n: nat)
    requires AreBytes(data) && data != [] && 0 < n < 8
    ensures var k := |data| - 1;
            var left := data[..k] + [LowBits(data[k], 8 - n)];
            && Shr(data[k], 8 - n) < Pow2(n) && HoldsBits(left, 8 * |data| - n)
            && BytesValue(left) < Pow2(8 - n + 8 * k)
            && BytesValue(data) == Shl(Shr(data[k], 8 - n), 8 - n + 8 * k) + BytesValue(left)
  {
    hide Shl, Shr, LowBits, Pow2, BytesValue, TopByteBits;
    var k := |data| - 1;
    var left := data[..k] + [LowBits(data[k], 8 - n)];
    TopBitsLeft(8 * |data| - n, k, 8 - n);
    Pow2Of8();
    BytesBelow(data, k, 8);
    Pow2Monotone(8 - n, 8);
    BytesBelow(left, k, 8 - n);
    ShrBound(data[k], 8 - n, n);
    Split(data[k], 8 - n);
    var h, l := Shr(data[k], 8 - n), LowBits(data[k], 8 - n);
    ShlSum(Shl(h, 8 - n), l, 8 * k);
    ShlShl(h, 8 - n, 8 * k);
  }

  /** (ret << n) | h on a 64-bit word that has room for it. */
  lemma BitsAppended(ret: nat, h: nat, n: nat, used: nat)
    requires ret < Pow2(used) && h < Pow2(n) && used + n <= 64
    ensures BitOr(Shl64(ret, n), h) == Shl(ret, n) + h < Pow2(used + n)
  {
    hide Shl, Pow2, BitOr;
    Pow2Of63And64();
    Pow2Monotone(used + n, 64);
    ShlSum(ret, 1, n);
    Pow2IsShl(n);
    ShlMonotone(ret + 1, Pow2(used), n);
    ShlOfPow2(used, n);
    Shl64Exact(ret, n);
    BitOrDisjoint(ret, n, h);
  }

  /** One half, seen at the top byte: 2^(top-1) with only zero bits below. */
  lemma HalfByTopByte(top: nat, rest: nat, topBits: nat, w: nat)
    requires topBits >= 1 && rest < Pow2(w)
    ensures var half := Pow2(topBits - 1);
            && (AboveHalf(Shl(top, w) + rest, w + topBits) <==> top > half || (top == half && rest > 0))
            && (ExactlyHalf(Shl(top, w) + rest, w + topBits) <==> top == half && rest == 0)
  {
    hide Shl, Pow2;
    var half := Pow2(topBits - 1);
    Pow2Next(w + topBits - 1);
    ShlOfPow2(topBits - 1, w);
    Pow2IsShl(w);
    if top < half {
      ShlSum(top, 1, w);
      ShlMonotone(top + 1, half, w);
    } else if top > half {
      ShlSum(half, 1, w);
      ShlMonotone(half + 1, top, w);
    }
  }

  lemma {:induction false} ZeroBytes(data: seq<nat>)
    requires forall j :: 0 <= j < |data| ==> data[j] == 0
    ensures BytesValue(data) == 0
  {
    if data != [] {
      ZeroBytes(data[..|data| - 1]);
      ShlZero(8 * (|data| - 1));
    }
  }

  lemma {:induction false} NonzeroByte(data: seq<nat>, i: nat)
    requires i < |data| && data[i] != 0
    ensures BytesValue(data) > 0
  {
    if i < |data| - 1 {
      NonzeroByte(data[..|data| - 1], i);
    }
  }

  // ---- The template parameter of encode_float_parts ----

  datatype Fraction = Word(word: U64Fraction) | Long(long: LongFraction) {

    ghost function Objects(): set<object> {
      match this
      case Word(w) => {w}
      case Long(l) => {l}
    }

    ghost predicate Valid()
      reads Objects()
    {
      match this
      case Word(w) => w.Valid()
      case Long(l) => l.Valid()
    }

    ghost function Num(): nat
      reads Objects()
    {
      match this
      case Word(w) => w.val
      case Long(l) => l.Num()
    }

    ghost function Bits(): nat
      reads Objects()
    {
      match this
      case Word(w) => 64
      case Long(l) => l.numBits
    }

    /** The contract both representations meet: the quotient is returned, and comparing what is
        left with one compares the remainder with one half. */
    method Lshift(n: nat) returns (ret: nat)
      requires Valid() && n <= 64 && n <= Bits()
      modifies Objects()
      ensures Valid()
      ensures ret == Shr(old(Num()), old(Bits()) - n)
      ensures AboveHalf(Num(), Bits())
              <==> AboveHalf(LowBits(old(Num()), old(Bits()) - n), old(Bits()) - n)
      ensures ExactlyHalf(Num(), Bits())
              <==> ExactlyHalf(LowBits(old(Num()), old(Bits()) - n), old(Bits()) - n)
    {
      match this
      case Word(w) =>
        HalfOfShifted(LowBits(w.val, 64 - n), 64 - n, n);
        ret := w.Lshift(n);
      case Long(l) =>
        ret := l.Lshift(n);
    }

    method GreaterThanOne() returns (r: bool)
      requires Valid()
      ensures r <==> AboveHalf(Num(), Bits())
    {
      match this
      case Word(w) => r := w.GreaterThanOne();
      case Long(l) => r := l.GreaterThanOne();
    }

    method EqualsOne() returns (r: bool)
      requires Valid()
      ensures r <==> ExactlyHalf(Num(), Bits())
    {
      match this
      case Word(w) => r := w.EqualsOne();
      case Long(l) => r := l.EqualsOne();
    }
  }
}
