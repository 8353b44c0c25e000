/** The bit-level writer: 32-bit words and up to 63 bits that have not become words yet. It must
    behave like a sequence of bits that grows at its end. */
module Bitstream {
  import opened PowersOfTwo

  // ---- Numbers as bits, lowest first ----

  function Bits(v: nat, n: nat): (r: seq<bool>)
    ensures |r| == n
  {
    if n == 0 then [] else [v % 2 == 1] + Bits(v / 2, n - 1)
  }

  function Number(bits: seq<bool>): nat {
    if bits == [] then 0 else (if bits[0] then 1 else 0) + 2 * Number(bits[1..])
  }

  lemma {:induction false} NumberOfBits(v: nat, n: nat)
    requires v < Pow2(n)
    ensures Number(Bits(v, n)) == v
  {
    if n > 0 {
      assert Bits(v, n)[1..] == Bits(v / 2, n - 1);
      NumberOfBits(v / 2, n - 1);
    }
  }

  lemma {:induction false} BitsSplit(v: nat, k: nat, n: nat)
    ensures Bits(v, k + n) == Bits(v, k) + Bits(Shr(v, k), n)
  {
    if k > 0 {
      BitsSplit(v / 2, k - 1, n);
    }
  }

  lemma {:induction false} BitsJoin(hi: nat, lo: nat, k: nat, n: nat)
    requires lo < Pow2(k)
    ensures Bits(Shl(hi, k) + lo, k + n) == Bits(lo, k) + Bits(hi, n)
  {
    hide Shl, Shr, Pow2, LowBits;
    SplitUnique(hi, lo, k);
    BitsSplit(Shl(hi, k) + lo, k, n);
    BitsOfLow(Shl(hi, k) + lo, k);
  }

  lemma {:induction false} BitsOfLow(v: nat, k: nat)
    ensures Bits(LowBits(v, k), k) == Bits(v, k)
  {
    if k > 0 {
      BitsOfLow(v / 2, k - 1);
      assert LowBits(v, k) / 2 == LowBits(v / 2, k - 1) && LowBits(v, k) % 2 == v % 2;
    }
  }

  function Zeros(n: nat): (r: seq<bool>)
    ensures |r| == n
  {
    seq(n, i => false)
  }

  function ZeroBytes(n: nat): (r: seq<nat>)
    ensures |r| == n
  {
    seq(n, i => 0)
  }

  lemma {:induction false} BitsOfZero(n: nat)
    ensures Bits(0, n) == Zeros(n)
  {
    if n > 0 {
      BitsOfZero(n - 1);
      assert Zeros(n) == [false] + Zeros(n - 1);
    }
  }

  function WordBits(words: seq<nat>): (r: seq<bool>)
    ensures |r| == 32 * |words|
  {
    if words == [] then [] else WordBits(words[..|words| - 1]) + Bits(words[|words| - 1], 32)
  }

  lemma WordBitsOfOne(words: seq<nat>, w: nat)
    ensures WordBits(words + [w]) == WordBits(words) + Bits(w, 32)
  {
    assert (words + [w])[..|words|] == words;
  }

  lemma WordBitsOfTwo(words: seq<nat>, w: nat, w': nat)
    ensures WordBits(words + [w, w']) == WordBits(words) + (Bits(w, 32) + Bits(w', 32))
  {
    hide *;
    WordBitsOfOne(words, w);
    WordBitsOfOne(words + [w], w');
    assert words + [w] + [w'] == words + [w, w'];
    Associate(WordBits(words), Bits(w, 32), Bits(w', 32));
  }

  lemma Associate(a: seq<bool>, b: seq<bool>, c: seq<bool>)
    ensures (a + b) + c == a + (b + c)
  {
  }

  /** The two words of 64 bits. */
  lemma BitsOfWords(buf: nat)
    ensures Bits(LowBits(buf, 32), 32) + Bits(Shr(buf, 32), 32) == Bits(buf, 64)
  {
    hide LowBits, Shr;
    BitsOfLow(buf, 32);
    BitsSplit(buf, 32, 32);
  }

  // ---- Variable width integers ----

  /** Chunks of width - 1 bits, lowest first, each with a bit that says whether another follows. */
  function VbrBits(v: nat, width: nat): seq<bool>
    requires width > 1
  {
    var next := Shr(v, width - 1);
    if next == 0 then Bits(v, width)
    else
      ShrDecreases(v, width - 1);
      Bits(v, width - 1) + [true] + VbrBits(next, width)
  }

  lemma ShrDecreases(v: nat, k: nat)
    requires k > 0 && Shr(v, k) > 0
    ensures Shr(v, k) < v
  {
    assert Shr(v, k) == Shr(v / 2, k - 1);
  }

  datatype Option<T> = None | Some(value: T)

  /** The value at the start of a stream, and what follows it. None: the stream ends too early. */
  function DecodeVbr(bits: seq<bool>, width: nat): Option<(nat, seq<bool>)>
    requires width > 1
    decreases |bits|
  {
    if |bits| < width then None
    else
      var chunk, rest := Number(bits[..width - 1]), bits[width..];
      if !bits[width - 1] then Some((chunk, rest))
      else
        match DecodeVbr(rest, width)
        case None => None
        case Some((v, after)) => Some((Shl(v, width - 1) + chunk, after))
  }

  /** A value is read back whatever follows it. */
  lemma {:induction false} VbrRoundTrip(v: nat, width: nat, after: seq<bool>)
    requires width > 1
    ensures DecodeVbr(VbrBits(v, width) + after, width) == Some((v, after))
    decreases v
  {
    hide Shl, Shr, LowBits, Pow2, DecodeVbr;
    var k := width - 1;
    var next := Shr(v, k);
    BitsSplit(v, k, 1);
    BitsOfLow(v, k);
    NumberOfBits(LowBits(v, k), k);
    Split(v, k);
    var stream := VbrBits(v, width) + after;
    if next == 0 {
      TopBitIsClear(v, k);
      ShlZero(k);
      assert stream == Bits(v, k) + ([false] + after);
      DecodeLast(stream, width, v, after);
    } else {
      ShrDecreases(v, k);
      VbrRoundTrip(next, width, after);
      assert stream == Bits(v, k) + ([true] + (VbrBits(next, width) + after));
      DecodeMore(stream, width, LowBits(v, k), VbrBits(next, width) + after);
    }
  }

  lemma TopBitIsClear(v: nat, k: nat)
    requires Shr(v, k) == 0
    ensures Bits(Shr(v, k), 1) == [false]
  {
    assert Bits(0, 1) == [false] + Bits(0, 0);
  }

  lemma DecodeLast(stream: seq<bool>, width: nat, v: nat, after: seq<bool>)
    requires width > 1 && stream == Bits(v, width - 1) + ([false] + after) && Number(Bits(v, width - 1)) == v
    ensures DecodeVbr(stream, width) == Some((v, after))
  {
    assert stream[..width - 1] == Bits(v, width - 1) && stream[width..] == after;
  }

  lemma DecodeMore(stream: seq<bool>, width: nat, chunk: nat, rest: seq<bool>)
    requires width > 1 && stream == Bits(chunk, width - 1) + ([true] + rest)
    requires Number(Bits(chunk, width - 1)) == chunk
    ensures DecodeVbr(stream, width)
            == match DecodeVbr(rest, width)
               case None => None
               case Some((v, after)) => Some((Shl(v, width - 1) + chunk, after))
  {
    assert stream[..width - 1] == Bits(chunk, width - 1) && stream[width..] == rest;
  }

  // ---- The stream, as its users see it ----

  /** words: how many words are complete, so that they can be patched. */
  datatype Stream = Stream(bits: seq<bool>, words: nat)

  predicate ValidStream(s: Stream) { 32 * s.words <= |s.bits| < 32 * s.words + 64 }

  function PadBits(n: nat): nat { (32 - n % 32) % 32 }

  /** Zeros up to the next word boundary. */
  function Align(bits: seq<bool>): seq<bool> {
    bits + Zeros(PadBits(|bits|))
  }

  datatype Operation =
    | Fixed(v: nat, width: nat)
    | Vbr(v: nat, width: nat)
    | AlignToWord
    | AlignedWord(word: nat)
    | PatchWord(offset: nat, word: nat)
    | RawBlob(bytes: seq<nat>)

  predicate ValidOperation(op: Operation) {
    match op
    case Fixed(v, width) => width <= 32
    case Vbr(v, width) => 1 < width <= 32 && v < TWO_64
    case RawBlob(bytes) => forall i :: 0 <= i < |bytes| ==> bytes[i] < 256
    case _ => true
  }

  /** Another field. Words are completed two at a time. */
  function Append(s: Stream, field: seq<bool>): Stream {
    Stream(s.bits + field, if |s.bits| + |field| - 32 * s.words >= 64 then s.words + 2 else s.words)
  }

  function WithVbr(s: Stream, v: nat, width: nat): Stream
    requires width > 1
    decreases v
  {
    var next := Shr(v, width - 1);
    if next == 0 then Append(s, Bits(v, width))
    else
      ShrDecreases(v, width - 1);
      WithVbr(Append(s, Bits(v, width - 1) + [true]), next, width)
  }

  function AlignStream(s: Stream): Stream { Stream(Align(s.bits), |Align(s.bits)| / 32) }

  function ByteBits(bytes: seq<nat>): (r: seq<bool>)
    ensures |r| == 8 * |bytes|
  {
    if bytes == [] then [] else ByteBits(bytes[..|bytes| - 1]) + Bits(bytes[|bytes| - 1], 8)
  }

  /** None: an exception, and nothing has changed. */
  function Execute(s: Stream, op: Operation): Option<Stream>
    requires ValidOperation(op)
  {
    match op
    case Fixed(v, width) => if v < Pow2(width) then Some(Append(s, Bits(v, width))) else None
    case Vbr(v, width) => Some(WithVbr(s, v, width))
    case AlignToWord => Some(AlignStream(s))
    case AlignedWord(word) =>
      var a := AlignStream(s);
      Some(Stream(a.bits + Bits(word, 32), a.words + 1))
    case PatchWord(offset, word) =>
      if offset < s.words && 32 * s.words <= |s.bits| then
        Some(Stream(s.bits[..32 * offset] + Bits(word, 32) + s.bits[32 * offset + 32..], s.words))
      else None
    case RawBlob(bytes) => Some(AlignStream(Stream(Align(s.bits) + ByteBits(bytes), 0)))
  }

  lemma VbrExecutes(s: Stream, v: nat, width: nat)
    requires 1 < width <= 32
    ensures v < TWO_64 ==> Execute(s, Vbr(v, width)) == Some(WithVbr(s, v, width))
  {
  }

  /** What is on the stream after a variable width integer is that integer. */
  lemma {:induction false} VbrIsAppended(s: Stream, v: nat, width: nat)
    requires width > 1
    ensures WithVbr(s, v, width).bits == s.bits + VbrBits(v, width)
    decreases v
  {
    hide Shr, Bits;
    if Shr(v, width - 1) > 0 {
      ShrDecreases(v, width - 1);
      VbrIsAppended(Append(s, Bits(v, width - 1) + [true]), Shr(v, width - 1), width);
    }
  }

  // ---- Patching ----

  function ExecuteAll(s: Stream, ops: seq<Operation>): Stream
    requires forall i :: 0 <= i < |ops| ==> ValidOperation(ops[i])
  {
    if ops == [] then s
    else
      var before := ExecuteAll(s, ops[..|ops| - 1]);
      match Execute(before, ops[|ops| - 1])
      case None => before
      case Some(after) => after
  }

  /** Operations are executed one after the other; one that raises an exception changes nothing. */
  lemma {:induction false} ExecutedInOrder(s: Stream, first: seq<Operation>, op: Operation, rest: seq<Operation>)
    requires ValidOperation(op)
    requires forall i :: 0 <= i < |first| ==> ValidOperation(first[i])
    requires forall i :: 0 <= i < |rest| ==> ValidOperation(rest[i])
    ensures ExecuteAll(s, first + [op] + rest)
            == match Execute(ExecuteAll(s, first), op)
               case None => ExecuteAll(s, first + rest)
               case Some(t) => ExecuteAll(t, rest)
    ensures ExecuteAll(s, []) == s
  {
    hide Execute, ValidOperation;
    var all := first + [op] + rest;
    if rest == [] {
      assert all == first + [op] && all[..|all| - 1] == first && first + [] == first;
    } else {
      var last := |rest| - 1;
      ExecutedInOrder(s, first, op, rest[..last]);
      assert all[..|all| - 1] == first + [op] + rest[..last];
      assert (first + rest)[..|first + rest| - 1] == first + rest[..last];
    }
  }

  /** The streams are equal but for word `pos`, which has been completed. */
  predicate SameBut(s: Stream, t: Stream, pos: nat) {
    && ValidStream(s) && |t.bits| == |s.bits| && t.words == s.words && pos < s.words
    && s.bits[..32 * pos] == t.bits[..32 * pos]
    && s.bits[32 * pos + 32..] == t.bits[32 * pos + 32..]
  }

  predicate Patches(op: Operation, pos: nat) { op.PatchWord? && op.offset == pos }

  lemma AppendKeepsDifference(s: Stream, t: Stream, pos: nat, field: seq<bool>)
    requires SameBut(s, t, pos) && |field| <= 64
    ensures SameBut(Append(s, field), Append(t, field), pos)
  {
    var end := 32 * pos + 32;
    assert (s.bits + field)[..32 * pos] == s.bits[..32 * pos] && (t.bits + field)[..32 * pos] == t.bits[..32 * pos];
    assert (s.bits + field)[end..] == s.bits[end..] + field && (t.bits + field)[end..] == t.bits[end..] + field;
  }

  lemma {:induction false} VbrKeepsDifference(s: Stream, t: Stream, pos: nat, v: nat, width: nat)
    requires SameBut(s, t, pos) && 1 < width <= 32
    ensures SameBut(WithVbr(s, v, width), WithVbr(t, v, width), pos)
    decreases v
  {
    hide Bits, Append, SameBut, Shr;
    if Shr(v, width - 1) == 0 {
      AppendKeepsDifference(s, t, pos, Bits(v, width));
    } else {
      ShrDecreases(v, width - 1);
      var field := Bits(v, width - 1) + [true];
      AppendKeepsDifference(s, t, pos, field);
      VbrKeepsDifference(Append(s, field), Append(t, field), pos, Shr(v, width - 1), width);
    }
  }

  /** More bits and more complete words at the end. */
  lemma TailKeepsDifference(s: Stream, t: Stream, pos: nat, tail: seq<bool>, words: nat)
    requires SameBut(s, t, pos)
    requires words >= s.words && ValidStream(Stream(s.bits + tail, words))
    ensures SameBut(Stream(s.bits + tail, words), Stream(t.bits + tail, words), pos)
  {
    var end := 32 * pos + 32;
    assert (s.bits + tail)[..32 * pos] == s.bits[..32 * pos] && (t.bits + tail)[..32 * pos] == t.bits[..32 * pos];
    assert (s.bits + tail)[end..] == s.bits[end..] + tail && (t.bits + tail)[end..] == t.bits[end..] + tail;
  }

  lemma PadFills(n: nat)
    ensures PadBits(n) < 32 && (n + PadBits(n)) % 32 == 0
    ensures n <= 32 * ((n + PadBits(n)) / 32) == n + PadBits(n)
  {
  }

  lemma AlignKeepsDifference(s: Stream, t: Stream, pos: nat)
    requires SameBut(s, t, pos)
    ensures SameBut(AlignStream(s), AlignStream(t), pos)
  {
    PadFills(|s.bits|);
    TailKeepsDifference(s, t, pos, Zeros(PadBits(|s.bits|)), |Align(s.bits)| / 32);
  }

  lemma WordKeepsDifference(s: Stream, t: Stream, pos: nat, word: nat)
    requires SameBut(s, t, pos) && |s.bits| == 32 * s.words
    ensures SameBut(Stream(s.bits + Bits(word, 32), s.words + 1), Stream(t.bits + Bits(word, 32), t.words + 1), pos)
  {
    TailKeepsDifference(s, t, pos, Bits(word, 32), s.words + 1);
  }

  lemma BlobKeepsDifference(s: Stream, t: Stream, pos: nat, field: seq<bool>)
    requires SameBut(s, t, pos) && |s.bits| == 32 * s.words
    ensures SameBut(AlignStream(Stream(s.bits + field, 0)), AlignStream(Stream(t.bits + field, 0)), pos)
  {
    var n := |s.bits + field|;
    PadFills(n);
    var pad := Zeros(PadBits(n));
    TailKeepsDifference(s, t, pos, field + pad, (n + PadBits(n)) / 32);
    assert s.bits + field + pad == s.bits + (field + pad) && t.bits + field + pad == t.bits + (field + pad);
  }

  /** One window of a sequence is overwritten. */
  function Overwrite(bits: seq<bool>, start: nat, window: seq<bool>): (r: seq<bool>)
    requires start + |window| <= |bits|
    ensures |r| == |bits|
  {
    bits[..start] + window + bits[start + |window|..]
  }

  lemma OverwriteElsewhere(x: seq<bool>, y: seq<bool>, at: nat, start: nat, window: seq<bool>)
    requires |x| == |y| && at + 32 <= |x| && start + 32 <= |x| && |window| == 32
    requires start + 32 <= at || at + 32 <= start
    requires x[..at] == y[..at] && x[at + 32..] == y[at + 32..]
    ensures Overwrite(x, start, window)[..at] == Overwrite(y, start, window)[..at]
    ensures Overwrite(x, start, window)[at + 32..] == Overwrite(y, start, window)[at + 32..]
  {
    var p, q := Overwrite(x, start, window), Overwrite(y, start, window);
    forall i | 0 <= i < |x| && !(at <= i < at + 32) ensures p[i] == q[i] {
      if i < at {
        assert x[i] == x[..at][i] && y[i] == y[..at][i];
      } else {
        assert x[i] == x[at + 32..][i - at - 32] && y[i] == y[at + 32..][i - at - 32];
      }
    }
  }

  lemma PatchKeepsDifference(s: Stream, t: Stream, pos: nat, offset: nat, word: nat)
    requires SameBut(s, t, pos) && offset != pos && offset < s.words
    ensures SameBut(Stream(Overwrite(s.bits, 32 * offset, Bits(word, 32)), s.words),
                    Stream(Overwrite(t.bits, 32 * offset, Bits(word, 32)), t.words), pos)
  {
    OverwriteElsewhere(s.bits, t.bits, 32 * pos, 32 * offset, Bits(word, 32));
  }

  lemma ExecuteKeepsDifference(s: Stream, t: Stream, pos: nat, op: Operation)
    requires SameBut(s, t, pos) && ValidOperation(op) && !Patches(op, pos)
    ensures Execute(s, op).Some? <==> Execute(t, op).Some?
    ensures Execute(s, op).Some? ==> SameBut(Execute(s, op).value, Execute(t, op).value, pos)
  {
    hide Bits, ByteBits, Pow2, WithVbr;
    PadFills(|s.bits|);
    match op {
      case Fixed(v, width) => AppendKeepsDifference(s, t, pos, Bits(v, width));
      case Vbr(v, width) => VbrKeepsDifference(s, t, pos, v, width);
      case AlignToWord => AlignKeepsDifference(s, t, pos);
      case AlignedWord(word) =>
        AlignKeepsDifference(s, t, pos);
        WordKeepsDifference(AlignStream(s), AlignStream(t), pos, word);
      case PatchWord(offset, word) =>
        if offset < s.words {
          PatchKeepsDifference(s, t, pos, offset, word);
        }
      case RawBlob(bytes) =>
        AlignKeepsDifference(s, t, pos);
        BlobKeepsDifference(AlignStream(s), AlignStream(t), pos, ByteBits(bytes));
    }
  }

  lemma {:induction false} RunKeepsDifference(s: Stream, t: Stream, pos: nat, ops: seq<Operation>)
    requires SameBut(s, t, pos)
    requires forall i :: 0 <= i < |ops| ==> ValidOperation(ops[i]) && !Patches(ops[i], pos)
    ensures SameBut(ExecuteAll(s, ops), ExecuteAll(t, ops), pos)
  {
    hide SameBut, Execute;
    if ops != [] {
      var last := |ops| - 1;
      RunKeepsDifference(s, t, pos, ops[..last]);
      ExecuteKeepsDifference(ExecuteAll(s, ops[..last]), ExecuteAll(t, ops[..last]), pos, ops[last]);
    }
  }

  /** Reserving a word and patching it later is the same as having written it in the first place,
      as long as nothing in between patches that word. */
  lemma LatePatch(s: Stream, placeholder: nat, word: nat, ops: seq<Operation>)
    requires ValidStream(s)
    requires var pos := AlignStream(s).words;
             forall i :: 0 <= i < |ops| ==> ValidOperation(ops[i]) && !Patches(ops[i], pos)
    ensures var pos := AlignStream(s).words;
            Execute(ExecuteAll(Execute(s, AlignedWord(placeholder)).value, ops), PatchWord(pos, word))
            == Some(ExecuteAll(Execute(s, AlignedWord(word)).value, ops))
  {
    var pos := AlignStream(s).words;
    var a := Execute(s, AlignedWord(placeholder)).value;
    var b := Execute(s, AlignedWord(word)).value;
    WordIsReserved(s, placeholder, word);
    hide *;
    RunKeepsDifference(a, b, pos, ops);
    RunKeepsWord(b, pos, word, ops);
    PatchedAway(ExecuteAll(a, ops), ExecuteAll(b, ops), pos, word);
  }

  lemma WordIsReserved(s: Stream, placeholder: nat, word: nat)
    requires ValidStream(s)
    ensures var pos := AlignStream(s).words;
            && SameBut(Execute(s, AlignedWord(placeholder)).value, Execute(s, AlignedWord(word)).value, pos)
            && HasWord(Execute(s, AlignedWord(word)).value, pos, word)
  {
    var bits, pos := Align(s.bits), AlignStream(s).words;
    PadFills(|s.bits|);
    assert |bits| == 32 * pos;
    hide Align, Bits;
    WordAtEnd(bits, Bits(placeholder, 32), Bits(word, 32));
  }

  lemma WordAtEnd(bits: seq<bool>, x: seq<bool>, y: seq<bool>)
    requires |x| == |y| == 32
    ensures (bits + x)[..|bits|] == (bits + y)[..|bits|] && (bits + x)[|bits| + 32..] == (bits + y)[|bits| + 32..]
    ensures (bits + y)[|bits|..|bits| + 32] == y
  {
  }

  ghost predicate HasWord(s: Stream, pos: nat, word: nat) {
    ValidStream(s) && pos < s.words && s.bits[32 * pos..32 * pos + 32] == Bits(word, 32)
  }

  lemma PatchedAway(s: Stream, t: Stream, pos: nat, word: nat)
    requires SameBut(s, t, pos) && HasWord(t, pos, word)
    ensures Execute(s, PatchWord(pos, word)) == Some(t)
  {
    var k := 32 * pos;
    assert t.bits == t.bits[..k] + t.bits[k..k + 32] + t.bits[k + 32..];
  }

  lemma ExecuteKeepsWord(s: Stream, pos: nat, word: nat, op: Operation)
    requires HasWord(s, pos, word) && ValidOperation(op) && !Patches(op, pos) && Execute(s, op).Some?
    ensures HasWord(Execute(s, op).value, pos, word)
  {
    hide Bits, ByteBits, Pow2;
    PadFills(|s.bits|);
    var k := 32 * pos;
    match op {
      case Fixed(v, width) =>
      case Vbr(v, width) =>
        VbrIsValid(s, v, width);
        VbrIsAppended(s, v, width);
      case AlignToWord =>
      case AlignedWord(w) =>
      case PatchWord(offset, w) =>
        PatchKeepsWord(s, pos, word, offset, w);
      case RawBlob(bytes) =>
        PadFills(|Align(s.bits) + ByteBits(bytes)|);
    }
  }

  lemma PatchKeepsWord(s: Stream, pos: nat, word: nat, offset: nat, w: nat)
    requires HasWord(s, pos, word) && offset != pos && offset < s.words
    ensures Overwrite(s.bits, 32 * offset, Bits(w, 32))[32 * pos..32 * pos + 32] == Bits(word, 32)
  {
    hide Bits;
    var r := Overwrite(s.bits, 32 * offset, Bits(w, 32));
    forall i | 32 * pos <= i < 32 * pos + 32 ensures r[i] == s.bits[i] {
    }
    assert r[32 * pos..32 * pos + 32] == s.bits[32 * pos..32 * pos + 32];
  }

  lemma {:induction false} VbrIsValid(s: Stream, v: nat, width: nat)
    requires ValidStream(s) && 1 < width <= 32
    ensures ValidStream(WithVbr(s, v, width)) && WithVbr(s, v, width).words >= s.words
    decreases v
  {
    hide Bits, Shr;
    if Shr(v, width - 1) > 0 {
      ShrDecreases(v, width - 1);
      VbrIsValid(Append(s, Bits(v, width - 1) + [true]), Shr(v, width - 1), width);
    }
  }

  lemma {:induction false} RunKeepsWord(s: Stream, pos: nat, word: nat, ops: seq<Operation>)
    requires HasWord(s, pos, word)
    requires forall i :: 0 <= i < |ops| ==> ValidOperation(ops[i]) && !Patches(ops[i], pos)
    ensures HasWord(ExecuteAll(s, ops), pos, word)
  {
    hide HasWord, Execute;
    if ops != [] {
      var last := |ops| - 1;
      RunKeepsWord(s, pos, word, ops[..last]);
      if Execute(ExecuteAll(s, ops[..last]), ops[last]).Some? {
        ExecuteKeepsWord(ExecuteAll(s, ops[..last]), pos, word, ops[last]);
      }
    }
  }

  // ---- The code ----

  lemma Buffered(buf: nat, size: nat, bits: nat, width: nat)
    requires buf < Pow2(size) && size <= 63 && bits < Pow2(width) && size + width <= 63
    ensures BitOr(buf, Shl64(bits, size)) < Pow2(size + width)
    ensures Bits(BitOr(buf, Shl64(bits, size)), size + width) == Bits(buf, size) + Bits(bits, width)
  {
    hide Pow2, Shl, Shr, LowBits, Bits, Shl64, BitOr;
    FitsWord(bits, width, size);
    OrIsSum(bits, size, buf);
    BitsJoin(bits, buf, size, width);
    ShlBelow(bits, width, size);
  }

  lemma FitsWord(bits: nat, width: nat, size: nat)
    requires bits < Pow2(width) && size + width <= 63
    ensures Shl64(bits, size) == Shl(bits, size)
  {
    hide Pow2, Shl;
    Pow2Of63And64();
    Pow2Monotone(size + width, 63);
    ShlBelow(bits, width, size);
    Shl64Exact(bits, size);
  }

  lemma ShlBelow(bits: nat, width: nat, size: nat)
    requires bits < Pow2(width)
    ensures Shl(bits, size) + Pow2(size) <= Pow2(size + width)
  {
    hide Pow2, Shl;
    ShlSum(bits, 1, size);
    Pow2IsShl(size);
    ShlMonotone(bits + 1, Pow2(width), size);
    ShlOfPow2(width, size);
  }

  lemma {:induction false} OrCommutes(a: nat, b: nat)
    ensures BitOr(a, b) == BitOr(b, a)
    decreases a + b
  {
    if a > 0 && b > 0 {
      OrCommutes(a / 2, b / 2);
    }
  }

  lemma OrIsSum(hi: nat, k: nat, lo: nat)
    requires lo < Pow2(k)
    ensures BitOr(lo, Shl(hi, k)) == Shl(hi, k) + lo
  {
    OrCommutes(lo, Shl(hi, k));
    BitOrDisjoint(hi, k, lo);
  }

  /** The 64 bits that are complete, and those that are left. */
  lemma Overflowing(buf: nat, size: nat, bits: nat, width: nat)
    requires buf < Pow2(size) && size <= 63 && bits < Pow2(width) && size + width >= 64 && width <= 32
    ensures var left := size + width - 64;
            && Shr(bits, width - left) < Pow2(left)
            && Bits(BitOr(buf, Shl64(bits, size)), 64) + Bits(Shr(bits, width - left), left)
               == Bits(buf, size) + Bits(bits, width)
  {
    Pow2Of63And64();
    hide Pow2, Shl, Shr, LowBits, Bits, BitOr;
    var left, k := size + width - 64, 64 - size;
    var low := LowBits(bits, k);
    DroppedBits(bits, size);
    OrIsSum(low, size, buf);
    BitsJoin(low, buf, size, k);
    BitsOfLow(bits, k);
    BitsSplit(bits, k, left);
    ShrBound(bits, k, left);
    Associate(Bits(buf, size), Bits(bits, k), Bits(Shr(bits, k), left));
  }

  /** Two more words, and what is left of the field. */
  lemma FieldOverflows(words: seq<nat>, buf: nat, size: nat, bits: nat, width: nat)
    requires buf < Pow2(size) && size <= 63 && bits < Pow2(width) && size + width >= 64 && width <= 32
    ensures var x, left := BitOr(buf, Shl64(bits, size)), size + width - 64;
            && Shr(bits, width - left) < Pow2(left)
            && StreamOf(words + [LowBits(x, 32)] + [Shr(x, 32)], Shr(bits, width - left), left)
               == Append(StreamOf(words, buf, size), Bits(bits, width))
  {
    var x, left := BitOr(buf, Shl64(bits, size)), size + width - 64;
    hide WordBits, Bits, BitOr, Shl64, LowBits, Shr, Pow2;
    Overflowing(buf, size, bits, width);
    WordBitsOfTwo(words, LowBits(x, 32), Shr(x, 32));
    BitsOfWords(x);
    assert words + [LowBits(x, 32)] + [Shr(x, 32)] == words + [LowBits(x, 32), Shr(x, 32)];
    Associate(WordBits(words), Bits(x, 64), Bits(Shr(bits, width - left), left));
    Associate(WordBits(words), Bits(buf, size), Bits(bits, width));
  }

  lemma FieldFits(words: seq<nat>, buf: nat, size: nat, bits: nat, width: nat)
    requires buf < Pow2(size) && bits < Pow2(width) && size + width <= 63
    ensures var x := BitOr(buf, Shl64(bits, size));
            && x < Pow2(size + width)
            && StreamOf(words, x, size + width) == Append(StreamOf(words, buf, size), Bits(bits, width))
  {
    hide WordBits, Bits, BitOr, Shl64, LowBits, Shr, Pow2;
    Buffered(buf, size, bits, width);
    Associate(WordBits(words), Bits(buf, size), Bits(bits, width));
  }

  /** The buffer becomes one or two words. */
  lemma BufferIsAligned(words: seq<nat>, buf: nat, size: nat)
    requires buf < Pow2(size) && 0 < size <= 63
    ensures var one := words + [LowBits(buf, 32)];
            AlignStream(StreamOf(words, buf, size)) == StreamOf(if size > 32 then one + [Shr(buf, 32)] else one, 0, 0)
  {
    NoBits();
    hide WordBits, Bits, LowBits, Shr, Pow2, Align;
    var one := words + [LowBits(buf, 32)];
    AlignedBuffer(WordBits(words), |words|, buf, size);
    OneOrTwoWords(buf, size);
    WordBitsOfOne(words, LowBits(buf, 32));
    WordBitsOfTwo(words, LowBits(buf, 32), Shr(buf, 32));
    assert one + [Shr(buf, 32)] == words + [LowBits(buf, 32), Shr(buf, 32)];
    EmptyTail(WordBits(one));
    EmptyTail(WordBits(one + [Shr(buf, 32)]));
  }

  /** What the writer's fields stand for. */
  function StreamOf(words: seq<nat>, buf: nat, size: nat): Stream {
    Stream(WordBits(words) + Bits(buf, size), |words|)
  }

  lemma DroppedBits(bits: nat, size: nat)
    requires size <= 63
    ensures Shl64(bits, size) == Shl(LowBits(bits, 64 - size), size)
  {
    Pow2Of63And64();
    hide Pow2, Shl, Shr, LowBits;
    var k := 64 - size;
    var hi, lo := Shr(bits, k), LowBits(bits, k);
    Split(bits, k);
    ShlSum(Shl(hi, k), lo, size);
    ShlShl(hi, k, size);
    ShlIsProduct(hi, 64);
    ShlOrder(lo, Pow2(k), size);
    ShlOfPow2(k, size);
    Remainder(hi, Shl(lo, size));
  }

  lemma Remainder(hi: nat, lo: nat)
    requires lo < TWO_64
    ensures (hi * TWO_64 + lo) % TWO_64 == lo
  {
  }

  /** Bits above the highest one are zeros. */
  lemma BitsAndZeros(v: nat, n: nat, m: nat)
    requires v < Pow2(n)
    ensures Bits(v, n + m) == Bits(v, n) + Zeros(m)
  {
    assert Pow2(0) == 1;
    hide Shr, Pow2;
    ShrBound(v, n, 0);
    BitsSplit(v, n, m);
    BitsOfZero(m);
  }

  /** A chunk of a variable width integer that is not the last one. */
  lemma ContinuedChunk(v: nat, k: nat)
    ensures BitOr(LowBits(v, k), Pow2(k)) < Pow2(k + 1)
    ensures Bits(BitOr(LowBits(v, k), Pow2(k)), k + 1) == Bits(v, k) + [true]
  {
    Pow2Next(k);
    assert Bits(1, 1) == [true] + Bits(0, 0);
    hide Pow2, Shl, LowBits, BitOr, Bits;
    Pow2IsShl(k);
    OrIsSum(1, k, LowBits(v, k));
    BitsJoin(1, LowBits(v, k), k, 1);
    BitsOfLow(v, k);
  }

  lemma WidthFits(v: nat, width: nat)
    ensures Shr(v, width) == 0 <==> v < Pow2(width)
  {
    assert Pow2(0) == 1;
    hide Pow2, Shr;
    ShrBound(v, width, 0);
  }

  lemma ChunkFits(v: nat, width: nat)
    requires width > 0 && Shr(v, width - 1) == 0
    ensures v < Pow2(width)
  {
    WidthFits(v, width - 1);
    Pow2Next(width - 1);
  }

  /** What align32 pushes is the buffer and the padding. */
  lemma AlignedBuffer(prefix: seq<bool>, n: nat, buf: nat, size: nat)
    requires |prefix| == 32 * n && buf < Pow2(size) && 0 < size <= 63
    ensures Align(prefix + Bits(buf, size)) == prefix + Bits(buf, if size > 32 then 64 else 32)
  {
    hide Bits, Pow2;
    var m := if size > 32 then 64 - size else 32 - size;
    BitsAndZeros(buf, size, m);
    assert PadBits(|prefix + Bits(buf, size)|) == m;
    Associate(prefix, Bits(buf, size), Zeros(m));
  }

  lemma AlignedAlready(bits: seq<bool>)
    requires |bits| % 32 == 0
    ensures Align(bits) == bits
  {
    assert PadBits(|bits|) == 0;
  }

  lemma {:induction false} WordBitsOfPatched(words: seq<nat>, i: nat, w: nat)
    requires i < |words|
    ensures WordBits(words[i := w]) == Overwrite(WordBits(words), 32 * i, Bits(w, 32))
  {
    hide Bits;
    var last := |words| - 1;
    assert WordBits(words) == WordBits(words[..last]) + Bits(words[last], 32);
    assert WordBits(words[i := w]) == WordBits(words[i := w][..last]) + Bits(words[i := w][last], 32);
    if i < last {
      WordBitsOfPatched(words[..last], i, w);
      assert words[i := w][..last] == words[..last][i := w];
    } else {
      assert words[i := w][..last] == words[..last];
    }
  }

  lemma OverwriteIsLocal(bits: seq<bool>, start: nat, window: seq<bool>, tail: seq<bool>)
    requires start + |window| <= |bits|
    ensures Overwrite(bits, start, window) + tail == Overwrite(bits + tail, start, window)
  {
  }

  // ---- Bytes of little-endian words ----

  function WordOfBytes(b: nat, b1: nat, b2: nat, b3: nat): nat { b + 256 * (b1 + 256 * (b2 + 256 * b3)) }

  function ByteAt(bytes: seq<nat>, i: nat): nat { if i < |bytes| then bytes[i] else 0 }

  /** Words of zeros that the bytes have been copied into. */
  function WordsOfBytes(bytes: seq<nat>): (words: seq<nat>)
    ensures |words| == (|bytes| + 3) / 4
  {
    seq((|bytes| + 3) / 4, k requires k >= 0 =>
      WordOfBytes(ByteAt(bytes, 4 * k), ByteAt(bytes, 4 * k + 1), ByteAt(bytes, 4 * k + 2), ByteAt(bytes, 4 * k + 3)))
  }

  function BytesOfWord(w: nat): seq<nat> {
    [LowBits(w, 8), LowBits(Shr(w, 8), 8), LowBits(Shr(Shr(w, 8), 8), 8), LowBits(Shr(Shr(Shr(w, 8), 8), 8), 8)]
  }

  function BytesOfWords(words: seq<nat>): seq<nat> {
    if words == [] then [] else BytesOfWords(words[..|words| - 1]) + BytesOfWord(words[|words| - 1])
  }

  lemma {:induction false} ByteBitsConcat(a: seq<nat>, b: seq<nat>)
    ensures ByteBits(a + b) == ByteBits(a) + ByteBits(b)
  {
    hide Bits;
    if b == [] {
      assert a + b == a;
    } else {
      var last := |b| - 1;
      ByteBitsConcat(a, b[..last]);
      assert (a + b)[..|a + b| - 1] == a + b[..last];
      Associate(ByteBits(a), ByteBits(b[..last]), Bits(b[last], 8));
    }
  }

  lemma ByteBitsOfOne(b: nat)
    ensures ByteBits([b]) == Bits(b, 8)
  {
    assert ByteBits([b]) == ByteBits([b][..0]) + Bits(b, 8);
  }

  lemma ByteBitsOfFour(b: nat, b1: nat, b2: nat, b3: nat)
    ensures ByteBits([b, b1, b2, b3]) == Bits(b, 8) + (Bits(b1, 8) + (Bits(b2, 8) + Bits(b3, 8)))
  {
    hide Bits, ByteBits;
    ByteBitsConcat([b], [b1, b2, b3]);
    ByteBitsConcat([b1], [b2, b3]);
    ByteBitsConcat([b2], [b3]);
    ByteBitsOfOne(b);
    ByteBitsOfOne(b1);
    ByteBitsOfOne(b2);
    ByteBitsOfOne(b3);
    assert [b] + [b1, b2, b3] == [b, b1, b2, b3] && [b1] + [b2, b3] == [b1, b2, b3] && [b2] + [b3] == [b2, b3];
  }

  lemma BitsOfBytes(w: nat)
    ensures ByteBits(BytesOfWord(w)) == Bits(w, 32)
  {
    hide Bits, ByteBits, LowBits, Shr;
    var w1 := Shr(w, 8);
    var w2 := Shr(w1, 8);
    var w3 := Shr(w2, 8);
    ByteBitsOfFour(LowBits(w, 8), LowBits(w1, 8), LowBits(w2, 8), LowBits(w3, 8));
    BitsOfLow(w, 8);
    BitsOfLow(w1, 8);
    BitsOfLow(w2, 8);
    BitsOfLow(w3, 8);
    BitsSplit(w, 8, 24);
    BitsSplit(w1, 8, 16);
    BitsSplit(w2, 8, 8);
  }

  lemma {:induction false} BytesHaveTheBits(words: seq<nat>)
    ensures ByteBits(BytesOfWords(words)) == WordBits(words)
  {
    hide Bits, ByteBits, BytesOfWord;
    if words == [] {
      assert ByteBits([]) == [] by { ByteBitsConcat([], []); }
    } else {
      var last := |words| - 1;
      BytesHaveTheBits(words[..last]);
      BitsOfBytes(words[last]);
      ByteBitsConcat(BytesOfWords(words[..last]), BytesOfWord(words[last]));
    }
  }

  lemma Pow2Of8()
    ensures Pow2(8) == 256
  {
    assert Pow2(4) == 16;
  }

  lemma JoinByte(hi: nat, b: nat, n: nat)
    requires b < 256
    ensures Bits(b + 256 * hi, 8 + n) == Bits(b, 8) + Bits(hi, n)
  {
    Pow2Of8();
    hide Pow2, Shl, Bits;
    ShlIsProduct(hi, 8);
    BitsJoin(hi, b, 8, n);
  }

  lemma BitsOfJoined(b: nat, b1: nat, b2: nat, b3: nat)
    requires b < 256 && b1 < 256 && b2 < 256
    ensures Bits(WordOfBytes(b, b1, b2, b3), 32) == ByteBits([b, b1, b2, b3])
  {
    hide Bits, ByteBits;
    JoinByte(b3, b2, 8);
    JoinByte(b2 + 256 * b3, b1, 16);
    JoinByte(b1 + 256 * (b2 + 256 * b3), b, 24);
    ByteBitsOfFour(b, b1, b2, b3);
  }

  predicate AreBytes(bytes: seq<nat>) { forall i :: 0 <= i < |bytes| ==> bytes[i] < 256 }

  /** Four bytes at a time. */
  lemma {:induction false} WordsHaveTheBits(bytes: seq<nat>)
    requires AreBytes(bytes) && |bytes| % 4 == 0
    ensures WordBits(WordsOfBytes(bytes)) == ByteBits(bytes)
  {
    hide Bits, WordOfBytes;
    if bytes != [] {
      var n := |bytes| - 4;
      var words := WordsOfBytes(bytes);
      var last := |words| - 1;
      WordsHaveTheBits(bytes[..n]);
      assert words[..last] == WordsOfBytes(bytes[..n]);
      assert words[last] == WordOfBytes(bytes[n], bytes[n + 1], bytes[n + 2], bytes[n + 3]);
      BitsOfJoined(bytes[n], bytes[n + 1], bytes[n + 2], bytes[n + 3]);
      assert bytes == bytes[..n] + [bytes[n], bytes[n + 1], bytes[n + 2], bytes[n + 3]];
      ByteBitsConcat(bytes[..n], [bytes[n], bytes[n + 1], bytes[n + 2], bytes[n + 3]]);
    }
  }

  lemma {:induction false} BitsOfZeroBytes(n: nat)
    ensures ByteBits(ZeroBytes(n)) == Zeros(8 * n)
  {
    if n > 0 {
      BitsOfZeroBytes(n - 1);
      BitsOfZero(8);
      assert ZeroBytes(n)[..n - 1] == ZeroBytes(n - 1);
    }
  }

  /** The blob's last word is filled up with zeros. */
  lemma BlobBits(prefix: seq<bool>, bytes: seq<nat>)
    requires AreBytes(bytes) && |prefix| % 32 == 0
    ensures Align(prefix + ByteBits(bytes)) == prefix + WordBits(WordsOfBytes(bytes))
  {
    var m := (4 - |bytes| % 4) % 4;
    PaddedBlob(bytes, m);
    BlobSize(|prefix|, |bytes|, m);
    hide *;
    assert |prefix + ByteBits(bytes)| == |prefix| + 8 * |bytes|;
    AlignIs(prefix + ByteBits(bytes), 8 * m);
    Associate(prefix, ByteBits(bytes), Zeros(8 * m));
  }

  lemma BlobAfterWords(s: Stream, words: seq<nat>, bytes: seq<nat>)
    requires AreBytes(bytes) && AlignStream(s) == Stream(WordBits(words), |words|)
    ensures ValidOperation(RawBlob(bytes))
    ensures Execute(s, RawBlob(bytes))
            == Some(Stream(WordBits(words + WordsOfBytes(bytes)), |words + WordsOfBytes(bytes)|))
  {
    BlobBits(WordBits(words), bytes);
    WordBitsConcat(words, WordsOfBytes(bytes));
    hide WordBits, WordsOfBytes, ByteBits, Align;
  }

  lemma BlobSize(p: nat, n: nat, m: nat)
    requires p % 32 == 0 && m == (4 - n % 4) % 4
    ensures 8 * m < 32 && (p + 8 * n + 8 * m) % 32 == 0
  {
    var r := n % 4;
    var k := p / 32 + n / 4 + (if r == 0 then 0 else 1);
    assert p + 8 * n + 8 * m == 32 * k by {
      assert n == 4 * (n / 4) + r;
      assert r == 0 || r == 1 || r == 2 || r == 3;
    }
  }

  lemma AlignIs(bits: seq<bool>, m: nat)
    requires m < 32 && (|bits| + m) % 32 == 0
    ensures Align(bits) == bits + Zeros(m)
  {
    assert PadBits(|bits|) == m;
  }

  lemma PaddedBlob(bytes: seq<nat>, m: nat)
    requires AreBytes(bytes) && m == (4 - |bytes| % 4) % 4
    ensures WordBits(WordsOfBytes(bytes)) == ByteBits(bytes) + Zeros(8 * m)
  {
    var padded := bytes + ZeroBytes(m);
    PaddedSize(bytes, m);
    SameWords(bytes, m);
    hide *;
    WordsHaveTheBits(padded);
    ByteBitsConcat(bytes, ZeroBytes(m));
    BitsOfZeroBytes(m);
  }

  lemma PaddedSize(bytes: seq<nat>, m: nat)
    requires AreBytes(bytes) && m == (4 - |bytes| % 4) % 4
    ensures AreBytes(bytes + ZeroBytes(m)) && |bytes + ZeroBytes(m)| % 4 == 0
  {
  }

  lemma SameWords(bytes: seq<nat>, m: nat)
    requires m == (4 - |bytes| % 4) % 4
    ensures WordsOfBytes(bytes + ZeroBytes(m)) == WordsOfBytes(bytes)
  {
    var padded := bytes + ZeroBytes(m);
    assert forall i: nat :: ByteAt(padded, i) == ByteAt(bytes, i);
    hide WordOfBytes;
  }

  lemma {:induction false} WordBitsConcat(a: seq<nat>, b: seq<nat>)
    ensures WordBits(a + b) == WordBits(a) + WordBits(b)
  {
    hide Bits;
    if b == [] {
      assert a + b == a;
    } else {
      var last := |b| - 1;
      WordBitsConcat(a, b[..last]);
      assert (a + b)[..|a + b| - 1] == a + b[..last];
      Associate(WordBits(a), WordBits(b[..last]), Bits(b[last], 32));
    }
  }

  lemma VbrUnfolds(s: Stream, v: nat, width: nat)
    requires width > 1
    ensures WithVbr(s, v, width)
            == if Shr(v, width - 1) == 0 then Append(s, Bits(v, width))
               else WithVbr(Append(s, Bits(v, width - 1) + [true]), Shr(v, width - 1), width)
  {
  }

  lemma EmptyTail(bits: seq<bool>)
    ensures bits + [] == bits
  {
  }

  lemma NoBits()
    ensures Bits(0, 0) == [] && Pow2(0) == 1
    ensures forall v: nat :: Bits(v, 0) == []
  {
  }

  lemma OneOrTwoWords(buf: nat, size: nat)
    requires buf < Pow2(size) && size <= 63
    ensures Bits(LowBits(buf, 32), 32) == Bits(buf, 32)
    ensures Bits(LowBits(buf, 32), 32) + Bits(Shr(buf, 32), 32) == Bits(buf, 64)
  {
    BitsOfWords(buf);
    BitsOfLow(buf, 32);
  }

  /** The buffer after i words of it have been taken off, and those words. */
  function ShrWords(buf: nat, i: nat): nat {
    if i == 0 then buf else Shr(ShrWords(buf, i - 1), 32)
  }

  function PaddingWords(buf: nat, i: nat): (words: seq<nat>)
    ensures |words| == i
  {
    if i == 0 then [] else PaddingWords(buf, i - 1) + [LowBits(ShrWords(buf, i - 1), 32)]
  }

  lemma NextPaddingWord(buf: nat, i: nat)
    ensures PaddingWords(buf, i + 1) == PaddingWords(buf, i) + [LowBits(ShrWords(buf, i), 32)]
    ensures ShrWords(buf, i + 1) == Shr(ShrWords(buf, i), 32)
  {
  }

  lemma NoPadding(words: seq<nat>, buf: nat)
    ensures words + PaddingWords(buf, 0) == words && ShrWords(buf, 0) == buf
  {
  }

  lemma LastIsPopped(a: seq<nat>, b: seq<nat>, w: nat)
    ensures (a + (b + [w]))[..|a| + |b|] == a + b && |a + (b + [w])| == |a| + |b| + 1
  {
  }

  lemma Associate2(a: seq<nat>, b: seq<nat>, c: seq<nat>)
    ensures (a + b) + c == a + (b + c)
  {
  }

  lemma PaddedWords(words: seq<nat>, buf: nat, size: nat)
    requires buf < Pow2(size) && size <= 63
    ensures WordBits(words + PaddingWords(buf, (size + 31) / 32)) == Align(WordBits(words) + Bits(buf, size))
  {
    hide *;
    FewPaddingWords(buf);
    if size == 0 {
      NoBits();
      EmptyTail(WordBits(words));
      EmptyTail2(words);
      AlignedAlready(WordBits(words));
    } else {
      AlignedBuffer(WordBits(words), |words|, buf, size);
      OneOrTwoWords(buf, size);
      if size <= 32 {
        WordBitsOfOne(words, LowBits(buf, 32));
      } else {
        BitsOfLow(Shr(buf, 32), 32);
        WordBitsOfTwo(words, LowBits(buf, 32), LowBits(Shr(buf, 32), 32));
      }
    }
  }

  lemma EmptyTail2(words: seq<nat>)
    ensures words + [] == words
  {
  }

  lemma FewPaddingWords(buf: nat)
    ensures PaddingWords(buf, 0) == []
    ensures PaddingWords(buf, 1) == [LowBits(buf, 32)]
    ensures PaddingWords(buf, 2) == [LowBits(buf, 32), LowBits(Shr(buf, 32), 32)]
  {
    hide LowBits, Shr;
    assert ShrWords(buf, 1) == Shr(ShrWords(buf, 0), 32);
    assert PaddingWords(buf, 1) == PaddingWords(buf, 0) + [LowBits(buf, 32)];
  }

  class BitstreamWriter {
    var words: seq<nat>
    var buf: nat
    var bufSize: nat

    constructor ()
      ensures Valid() && Contents() == Stream([], 0)
    {
      words, buf, bufSize := [], 0, 0;
    }

    predicate Valid()
      reads this
    {
      bufSize <= 63 && buf < Pow2(bufSize)
    }

    function Contents(): (s: Stream)
      requires Valid()
      reads this
      ensures ValidStream(s)
    {
      StreamOf(words, buf, bufSize)
    }

    method PushBack(word: nat)
      modifies this`words
      ensures words == old(words) + [word]
    {
      words := words + [word];
    }

    method AppendFixed(bits: nat, width: nat)
      requires Valid() && width <= 32 && bits < Pow2(width)
      modifies this
      ensures Valid() && Contents() == Append(old(Contents()), Bits(bits, width))
    {
      hide StreamOf, Append, Bits, BitOr, Shl, Shl64, LowBits, Shr, Pow2;
      var size := bufSize;
      var newBuf := BitOr(buf, Shl64(bits, size));
      size := size + width;
      if size >= 64 {
        FieldOverflows(words, buf, bufSize, bits, width);
      } else {
        FieldFits(words, buf, bufSize, bits, width);
      }
      if size >= 64 {
        PushBack(LowBits(newBuf, 32));
        PushBack(Shr(newBuf, 32));
        size := size - 64;
        newBuf := Shr(bits, width - size);
      }
      buf := newBuf;
      bufSize := size;
    }

    method AppendVbr(v: nat, width: nat)
      requires Valid() && 1 < width <= 32
      modifies this
      ensures Valid() && Contents() == WithVbr(old(Contents()), v, width)
      ensures v < TWO_64 ==> Some(Contents()) == Execute(old(Contents()), Vbr(v, width))
    {
      hide *;
      VbrExecutes(Contents(), v, width);
      var bits := v;
      while true
        invariant Valid() && WithVbr(Contents(), bits, width) == WithVbr(old(Contents()), v, width)
        decreases bits
      {
        var next := Shr(bits, width - 1);
        VbrUnfolds(Contents(), bits, width);
        if next == 0 {
          break;
        }
        ShrDecreases(bits, width - 1);
        ContinuedChunk(bits, width - 1);
        AppendFixed(BitOr(LowBits(bits, width - 1), Pow2(width - 1)), width);
        bits := next;
      }
      ChunkFits(bits, width);
      AppendFixed(bits, width);
    }

    /** fixed1 to fixed32: false is an OverflowError. */
    method PyAppendFixed(bits: nat, width: nat) returns (ok: bool)
      requires Valid() && width <= 32
      modifies this
      ensures Valid()
      ensures var r := Execute(old(Contents()), Fixed(bits, width));
              if r.Some? then ok && Contents() == r.value else !ok && Contents() == old(Contents())
    {
      WidthFits(bits, width);
      if Shr(bits, width) != 0 {
        return false;
      }
      AppendFixed(bits, width);
      return true;
    }

    method Align32()
      requires Valid()
      modifies this
      ensures Valid() && bufSize == 0 && Contents() == AlignStream(old(Contents()))
    {
      NoBits();
      if bufSize != 0 {
        BufferIsAligned(words, buf, bufSize);
        hide StreamOf, AlignStream, LowBits, Shr;
        PushBack(LowBits(buf, 32));
        if bufSize > 32 {
          PushBack(Shr(buf, 32));
        }
        bufSize := 0;
        buf := 0;
      } else {
        AlignedAlready(Contents().bits);
      }
    }

    method AlignToWord() returns (pos: nat)
      requires Valid()
      modifies this
      ensures Valid() && Some(Contents()) == Execute(old(Contents()), Operation.AlignToWord) && pos == Contents().words
    {
      Align32();
      return |words|;
    }

    method AlignedWord(value: nat) returns (pos: nat)
      requires Valid()
      modifies this
      ensures Valid() && Some(Contents()) == Execute(old(Contents()), Operation.AlignedWord(value))
      ensures pos == AlignStream(old(Contents())).words
    {
      hide WordBits, Bits, AlignStream, Pow2;
      Align32();
      pos := |words|;
      NoBits();
      WordBitsOfOne(words, value);
      EmptyTail(WordBits(words));
      EmptyTail(WordBits(words + [value]));
      PushBack(value);
    }

    /** False is an IndexError. */
    method PatchWord(offset: nat, word: nat) returns (ok: bool)
      requires Valid()
      modifies this
      ensures Valid()
      ensures var r := Execute(old(Contents()), Operation.PatchWord(offset, word));
              if r.Some? then ok && Contents() == r.value else !ok && Contents() == old(Contents())
    {
      if offset >= |words| {
        return false;
      }
      WordBitsOfPatched(words, offset, word);
      OverwriteIsLocal(WordBits(words), 32 * offset, Bits(word, 32), Bits(buf, bufSize));
      hide WordBits, Bits;
      words := words[offset := word];
      return true;
    }

    method RawBlob(blob: seq<nat>)
      requires Valid() && AreBytes(blob)
      modifies this
      ensures Valid() && Some(Contents()) == Execute(old(Contents()), Operation.RawBlob(blob))
    {
      Align32();
      NoBits();
      EmptyTail(WordBits(words));
      EmptyTail(WordBits(words + WordsOfBytes(blob)));
      BlobAfterWords(old(Contents()), words, blob);
      hide WordBits, Bits, WordsOfBytes, AlignStream, Execute, AreBytes, Pow2;
      words := words + WordsOfBytes(blob);
    }

    /** The stream itself is left as it was. */
    method ToBytes() returns (bytes: seq<nat>)
      requires Valid()
      modifies this
      ensures Valid() && Contents() == old(Contents())
      ensures ByteBits(bytes) == Align(Contents().bits)
    {
      var extraWords := (bufSize + 31) / 32;
      var rest := buf;
      ghost var before := words;
      PaddedWords(words, buf, bufSize);
      NoPadding(before, buf);
      hide WordBits, Bits, LowBits, Shr, Pow2, PaddingWords, ShrWords, BytesOfWords, Align, ByteBits;
      for i := 0 to extraWords
        invariant words == before + PaddingWords(buf, i) && rest == ShrWords(buf, i)
        invariant buf == old(buf) && bufSize == old(bufSize)
      {
        NextPaddingWord(buf, i);
        Associate2(before, PaddingWords(buf, i), [LowBits(rest, 32)]);
        PushBack(LowBits(rest, 32));
        rest := Shr(rest, 32);
      }
      bytes := BytesOfWords(words);
      BytesHaveTheBits(words);
      for i := extraWords downto 0
        invariant words == before + PaddingWords(buf, i)
        invariant buf == old(buf) && bufSize == old(bufSize)
      {
        NextPaddingWord(buf, i);
        LastIsPopped(before, PaddingWords(buf, i), LowBits(ShrWords(buf, i), 32));
        words := words[..|words| - 1];
      }
    }
  }
}
