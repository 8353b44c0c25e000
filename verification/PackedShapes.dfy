/** The two representations of a shape: two words, and an array with its length. */
module PackedShapes {
  import opened PowersOfTwo
  import opened Shapes

  const MAX_INLINE_DIMS: nat := 6
  const INLINE_DIM_BITS: nat := 20
  const INLINE_NDIM_BITS: nat := 3

  /** Blocks of dimensions on the heap, by address. Address 0 is the null pointer. */
  type Memory = map<nat, Dims>

  datatype PackedShape = PackedShape(a: nat, b: nat)

  /** heapData is the null pointer if the dimensions are stored inline. */
  datatype UnpackedShape = UnpackedShape(ndim: nat, heapData: nat, inlineDims: Dims)

  // ---- PackedShape ----

  predicate FitsInline(dims: Dims) {
    |dims| <= MAX_INLINE_DIMS && forall i :: 0 <= i < |dims| ==> 0 <= dims[i] < Pow2(INLINE_DIM_BITS)
  }

  /** The 64-bit word of at most three dimensions, accumulated from the highest one. */
  function Accumulate(dims: Dims): nat
    requires FitsInline(dims)
  {
    if dims == [] then 0 else BitOr(Shl64(Accumulate(dims[1..]), INLINE_DIM_BITS), dims[0])
  }

  function PackInline(dims: Dims): PackedShape
    requires FitsInline(dims)
  {
    var k := if |dims| < 3 then |dims| else 3;
    PackedShape(BitOr(Shl64(Accumulate(dims[..k]), INLINE_NDIM_BITS), |dims|), Accumulate(dims[k..]))
  }

  predicate IsInline(p: PackedShape) { LowBits(p.a, INLINE_NDIM_BITS) != 0 }

  function HeapData(p: PackedShape): nat { if IsInline(p) then 0 else p.a }

  function Ndim(p: PackedShape): nat {
    var inlineNdim := LowBits(p.a, INLINE_NDIM_BITS);
    if inlineNdim != 0 then inlineNdim else p.b
  }

  /** Three dimensions from a word, the last of which is all that is left. */
  function Extract(word: nat): Dims {
    var bits := INLINE_DIM_BITS;
    [LowBits(word, bits), LowBits(Shr(word, bits), bits), Shr(Shr(word, bits), bits)]
  }

  function UnpackInlineDims(p: PackedShape): Dims {
    Extract(Shr(p.a, INLINE_NDIM_BITS)) + Extract(p.b)
  }

  function Unpack(p: PackedShape): UnpackedShape {
    UnpackedShape(Ndim(p), HeapData(p), UnpackInlineDims(p))
  }

  /** A new block's address is a multiple of 8 that is not in use. */
  predicate IsNewBlock(memory: Memory, block: nat) {
    0 < block < TWO_64 && block !in memory && LowBits(block, INLINE_NDIM_BITS) == 0
  }

  /** The constructor: shares words if it can, and otherwise allocates `block`. */
  function Create(dims: Dims, memory: Memory, block: nat): (PackedShape, Memory)
    requires IsNewBlock(memory, block)
  {
    if FitsInline(dims) then (PackInline(dims), memory) else (PackedShape(block, |dims|), memory[block := dims])
  }

  // ---- UnpackedShape ----

  function CreateUnpacked(dims: Dims, memory: Memory, block: nat): (UnpackedShape, Memory)
    requires IsNewBlock(memory, block)
  {
    if |dims| <= MAX_INLINE_DIMS then (UnpackedShape(|dims|, 0, dims), memory)
    else (UnpackedShape(|dims|, block, []), memory[block := dims])
  }

  function Pack(u: UnpackedShape, memory: Memory, block: nat): (PackedShape, Memory)
    requires IsNewBlock(memory, block) && (u.heapData == 0 ==> u.ndim <= |u.inlineDims|)
  {
    if u.heapData == 0 then Create(u.inlineDims[..u.ndim], memory, block)
    else (PackedShape(u.heapData, u.ndim), memory)
  }

  // ---- What both stand for ----

  /** Dimensions are on the heap only if they have to be. */
  predicate IsHeapBlock(memory: Memory, block: nat, ndim: nat) {
    && block != 0 && LowBits(block, INLINE_NDIM_BITS) == 0
    && block in memory && |memory[block]| == ndim && !FitsInline(memory[block])
  }

  ghost predicate Packs(p: PackedShape, memory: Memory, dims: Dims) {
    if FitsInline(dims) then p == PackInline(dims)
    else IsHeapBlock(memory, p.a, p.b) && memory[p.a] == dims
  }

  ghost predicate Unpacks(u: UnpackedShape, memory: Memory, dims: Dims) {
    && u.ndim == |dims|
    && if u.heapData == 0 then u.ndim <= |u.inlineDims| && u.ndim <= MAX_INLINE_DIMS && u.inlineDims[..u.ndim] == dims
       else IsHeapBlock(memory, u.heapData, u.ndim) && memory[u.heapData] == dims
  }

  /** Nothing that is in memory is changed. */
  predicate Extends(memory: Memory, memory': Memory) {
    forall block :: block in memory ==> block in memory' && memory'[block] == memory[block]
  }

  lemma NumbersFitBits()
    ensures Pow2(INLINE_NDIM_BITS) == 8
  {
    assert Pow2(1) == 2 && Pow2(2) == 4;
  }

  /** Three dimensions of 20 bits leave room for the number of dimensions: no bit is shifted out. */
  lemma {:induction false} AccumulateFits(dims: Dims)
    requires FitsInline(dims) && |dims| <= 3
    ensures Accumulate(dims) < Pow2(INLINE_DIM_BITS * |dims|)
    ensures dims != [] ==> FitsInline(dims[1..])
                           && Accumulate(dims) == Shl(Accumulate(dims[1..]), INLINE_DIM_BITS) + dims[0]
  {
    hide Pow2, Shl, Shl64, BitOr;
    if dims == [] {
      FirstPowers();
    } else {
      AccumulateFits(dims[1..]);
      FieldAppended(Accumulate(dims[1..]), INLINE_DIM_BITS * (|dims| - 1), dims[0], INLINE_DIM_BITS);
    }
  }

  lemma FieldAppended(hi: nat, width: nat, lo: nat, n: nat)
    requires hi < Pow2(width) && lo < Pow2(n) && width + n <= 64
    ensures BitOr(Shl64(hi, n), lo) == Shl(hi, n) + lo < Pow2(width + n)
    ensures Pow2(width + n) <= TWO_64
  {
    hide Pow2, Shl, Shl64, BitOr;
    Pow2Of63And64();
    Pow2Monotone(width + n, 64);
    ShlSum(hi, 1, n);
    Pow2IsShl(n);
    ShlMonotone(hi + 1, Pow2(width), n);
    ShlOfPow2(width, n);
    Shl64Exact(hi, n);
    BitOrDisjoint(hi, n, lo);
  }

  /** Both words of an inline shape are 64-bit words. */
  lemma WordsFit(dims: Dims)
    requires FitsInline(dims)
    ensures PackInline(dims).a < TWO_64 && PackInline(dims).b < TWO_64
  {
    hide Pow2, Shl, Shl64, BitOr, Accumulate;
    var k := if |dims| < 3 then |dims| else 3;
    AccumulateFits(dims[..k]);
    AccumulateFits(dims[k..]);
    NumbersFitBits();
    Pow2Monotone(INLINE_DIM_BITS * k, 60);
    Pow2Monotone(INLINE_DIM_BITS * (|dims| - k), 60);
    FieldAppended(Accumulate(dims[..k]), 60, |dims|, INLINE_NDIM_BITS);
    Pow2Monotone(60, 63);
  }

  lemma AccumulateNext(dims: Dims)
    requires FitsInline(dims) && 0 < |dims| <= 3
    ensures FitsInline(dims[1..])
    ensures Shr(Accumulate(dims), INLINE_DIM_BITS) == Accumulate(dims[1..])
    ensures LowBits(Accumulate(dims), INLINE_DIM_BITS) == dims[0]
  {
    hide Pow2, Shl, Shr, LowBits, Accumulate;
    AccumulateFits(dims);
    SplitUnique(Accumulate(dims[1..]), dims[0], INLINE_DIM_BITS);
  }

  lemma AccumulateOne(dims: Dims)
    requires FitsInline(dims) && |dims| == 1
    ensures Accumulate(dims) == dims[0]
  {
    hide Pow2, LowBits, Shr;
    ShlZero(INLINE_DIM_BITS);
    AccumulateFits(dims);
    assert Accumulate(dims[1..]) == 0;
  }

  lemma ShrOfZero(k: nat)
    ensures Shr(0, k) == 0 && LowBits(0, k) == 0
  {
    hide Pow2, Shl, Shr, LowBits;
    ShlZero(k);
    SplitUnique(0, 0, k);
  }

  /** One word gives back its dimensions, with zeros after them. */
  lemma ExtractAccumulate(dims: Dims)
    requires FitsInline(dims) && |dims| <= 3
    ensures |Extract(Accumulate(dims))| == 3 && Extract(Accumulate(dims))[..|dims|] == dims
  {
    hide Pow2, Shl, Shr, LowBits, BitOr;
    ShrOfZero(INLINE_DIM_BITS);
    if |dims| > 0 {
      AccumulateNext(dims);
      if |dims| > 1 {
        AccumulateNext(dims[1..]);
        if |dims| > 2 {
          AccumulateOne(dims[1..][1..]);
          assert dims[1..][1..] == [dims[2]];
        }
      }
    }
  }

  /** The number of dimensions and the two words, from the packed form. */
  lemma PackedFields(dims: Dims)
    requires FitsInline(dims)
    ensures var k := if |dims| < 3 then |dims| else 3;
            && FitsInline(dims[..k]) && FitsInline(dims[k..])
            && LowBits(PackInline(dims).a, INLINE_NDIM_BITS) == |dims|
            && Shr(PackInline(dims).a, INLINE_NDIM_BITS) == Accumulate(dims[..k])
            && (dims == [] ==> PackInline(dims) == PackedShape(0, 0))
  {
    hide Pow2, Shr, LowBits, Shl, Shl64, BitOr;
    var k := if |dims| < 3 then |dims| else 3;
    NumbersFitBits();
    AccumulateFits(dims[..k]);
    Pow2Monotone(INLINE_DIM_BITS * k, 60);
    FieldAppended(Accumulate(dims[..k]), 60, |dims|, INLINE_NDIM_BITS);
    SplitUnique(Accumulate(dims[..k]), |dims|, INLINE_NDIM_BITS);
    ShlZero(INLINE_NDIM_BITS);
  }

  lemma UnpackInline(dims: Dims)
    requires FitsInline(dims)
    ensures Ndim(PackInline(dims)) == |dims| && HeapData(PackInline(dims)) == 0
    ensures |UnpackInlineDims(PackInline(dims))| == 6
    ensures UnpackInlineDims(PackInline(dims))[..|dims|] == dims
  {
    hide Pow2, Shl, Shr, LowBits, BitOr, Accumulate, Extract, FitsInline;
    PackedFields(dims);
    FewDims(dims);
    var k := if |dims| < 3 then |dims| else 3;
    hide PackInline;
    assert PackInline(dims).b == Accumulate(dims[k..]) by { SecondWord(dims); }
    ExtractAccumulate(dims[..k]);
    if |dims| > 3 { ExtractAccumulate(dims[3..]); }
    LengthOfExtract(Shr(PackInline(dims).a, INLINE_NDIM_BITS));
    LengthOfExtract(PackInline(dims).b);
    assert dims == dims[..k] + dims[k..];
  }

  lemma LengthOfExtract(word: nat)
    ensures |Extract(word)| == 3
  {
  }

  lemma SecondWord(dims: Dims)
    requires FitsInline(dims)
    ensures var k := if |dims| < 3 then |dims| else 3; FitsInline(dims[k..]) && PackInline(dims).b == Accumulate(dims[k..])
  {
  }

  /** Unpacking what has been packed gives the dimensions. */
  lemma UnpackOfPacked(p: PackedShape, memory: Memory, dims: Dims)
    requires Packs(p, memory, dims)
    ensures Unpacks(Unpack(p), memory, dims)
  {
    hide Pow2, Shl, Shr, LowBits, BitOr, PackInline, UnpackInlineDims, FitsInline;
    if FitsInline(dims) {
      UnpackInline(dims);
      FewDims(dims);
    }
  }

  lemma FewDims(dims: Dims)
    requires FitsInline(dims)
    ensures |dims| <= MAX_INLINE_DIMS
  {
  }

  /** Packing keeps the dimensions, and memory. It allocates only if there is no block yet. */
  lemma PackOfUnpacked(u: UnpackedShape, memory: Memory, block: nat, dims: Dims)
    requires IsNewBlock(memory, block) && Unpacks(u, memory, dims)
    ensures Packs(Pack(u, memory, block).0, Pack(u, memory, block).1, dims)
    ensures Extends(memory, Pack(u, memory, block).1)
    ensures u.heapData != 0 || FitsInline(dims) ==> Pack(u, memory, block).1 == memory
  {
  }

  lemma TwentyBits()
    ensures Pow2(INLINE_DIM_BITS) == 0x10_0000
  {
    assert Pow2(8) == 0x100;
    assert Pow2(16) == 0x1_0000;
  }

  /** At most six dimensions of at most 20 bits are stored without allocating, and no others. */
  lemma InlineIffSmall(dims: Dims, memory: Memory, block: nat)
    requires IsNewBlock(memory, block)
    ensures var (p, memory') := Create(dims, memory, block);
            if |dims| <= 6 && forall i :: 0 <= i < |dims| ==> 0 <= dims[i] <= 0xf_ffff
            then memory' == memory && HeapData(p) == 0
            else memory' == memory[block := dims] && HeapData(p) == block != 0
  {
    hide Pow2, LowBits, PackInline, Accumulate, UnpackInlineDims;
    TwentyBits();
    if FitsInline(dims) {
      UnpackInline(dims);
    }
  }

  lemma CreatedUnpacks(dims: Dims, memory: Memory, block: nat)
    requires IsNewBlock(memory, block)
    ensures Unpacks(CreateUnpacked(dims, memory, block).0, CreateUnpacked(dims, memory, block).1, dims)
    ensures Extends(memory, CreateUnpacked(dims, memory, block).1)
  {
  }

  /** A shape that starts unpacked keeps its dimensions when it is packed and unpacked again. */
  lemma UnpackedRoundTrip(dims: Dims, memory: Memory, block: nat, block': nat)
    requires IsNewBlock(memory, block)
    requires IsNewBlock(CreateUnpacked(dims, memory, block).1, block')
    ensures var (u, memory') := CreateUnpacked(dims, memory, block);
            && (u.heapData == 0 ==> u.ndim <= |u.inlineDims|)
            && var (p, memory'') := Pack(u, memory', block');
            Unpacks(Unpack(p), memory'', dims) && Extends(memory, memory'')
  {
    hide Pow2, Shl, Shr, LowBits, BitOr, PackInline, FitsInline, Pack, UnpackInlineDims;
    CreatedUnpacks(dims, memory, block);
    var (u, memory') := CreateUnpacked(dims, memory, block);
    PackOfUnpacked(u, memory', block', dims);
    UnpackOfPacked(Pack(u, memory', block').0, Pack(u, memory', block').1, dims);
  }

  /** Any shape, packed and unpacked, is itself; and packed again it is the same two words, without
      another allocation. */
  lemma RoundTrip(dims: Dims, memory: Memory, block: nat, block': nat)
    requires IsNewBlock(memory, block)
    requires IsNewBlock(Create(dims, memory, block).1, block')
    ensures var (p, memory') := Create(dims, memory, block);
            && Unpacks(Unpack(p), memory', dims)
            && (Unpack(p).heapData == 0 ==> Unpack(p).ndim <= |Unpack(p).inlineDims|)
            && Pack(Unpack(p), memory', block') == (p, memory')
            && p.a < TWO_64 && (FitsInline(dims) ==> p.b < TWO_64)
  {
    hide Pow2, Shl, Shr, LowBits, BitOr, PackInline, FitsInline;
    var (p, memory') := Create(dims, memory, block);
    assert Packs(p, memory', dims);
    UnpackOfPacked(p, memory', dims);
    if FitsInline(dims) {
      WordsFit(dims);
      UnpackInline(dims);
      hide UnpackInlineDims;
      assert UnpackInlineDims(p)[..|dims|] == dims;
    }
  }

  /** The fast path of PackedShape::broadcast: equal words mean equal shapes, which broadcast to
      themselves. Inline, equal shapes also have equal words. */
  lemma EqualWords(p: PackedShape, q: PackedShape, memory: Memory, x: Dims, y: Dims)
    requires Packs(p, memory, x) && Packs(q, memory, y) && ValidShape(x)
    ensures p == q ==> x == y && Broadcast(x, y) == Broadcasted(x)
    ensures x == y && FitsInline(x) ==> p == q
  {
    hide Pow2, Shl, Shr, LowBits, BitOr, PackInline, FitsInline, UnpackInlineDims;
    if p == q {
      UnpackOfPacked(p, memory, x);
      UnpackOfPacked(q, memory, y);
      ScalarIsNeutral(x);
    }
  }
}
