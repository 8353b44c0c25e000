/** The block-index swizzles of the block-scaled matrix multiplication. */
module Swizzles {
  import opened Shapes
  import opened Tensors

  function CeilDiv(a: int, b: int): int
    requires b > 0
  {
    (a + b - 1) / b
  }

  function Min(a: int, b: int): int { if a < b then a else b }

  /** The tile that a block works on. Blocks are numbered in groups of rows of tiles. */
  function Swizzle2D(numBidM: int, numBidN: int, group: int, bid: int): (int, int)
    requires numBidM > 0 && numBidN > 0 && group > 0 && 0 <= bid < numBidM * numBidN
  {
    GroupOfBlock(numBidM, numBidN, group, bid);
    var numBidInGroup := group * numBidN;
    var groupId := bid / numBidInGroup;
    var firstBidM := groupId * group;
    var groupSizeM := Min(numBidM - firstBidM, group);
    (firstBidM + bid % groupSizeM, (bid % numBidInGroup) / groupSizeM)
  }

  // ---- Quotients and remainders ----

  lemma Divide(a: int, b: int)
    requires b > 0
    ensures a == b * (a / b) + a % b && 0 <= a % b < b
  {
  }

  lemma Distribute(b: int, p: int, q: int)
    ensures b * (p - q) == b * p - b * q && b * (p + q) == b * p + b * q
  {
  }

  lemma DivideUnique(a: int, b: int, q: int, r: int)
    requires b > 0 && a == b * q + r && 0 <= r < b
    ensures a / b == q && a % b == r
  {
    Divide(a, b);
    Distribute(b, q, a / b);
    if q != a / b {
      MultipleIsAway(b, q - a / b);
    }
  }

  lemma MultipleIsAway(b: int, d: int)
    requires b > 0 && d != 0
    ensures b * d >= b || b * d <= -b
  {
    if d >= 1 {
      assert b * d >= b * 1;
    } else {
      assert b * d <= b * (-1);
    }
  }

  lemma AtMostTimes(a: int, b: int, c: int)
    requires a <= b && c >= 0
    ensures a * c <= b * c && c * a <= c * b
  {
  }

  lemma BelowTimes(a: int, b: int, c: int)
    requires a * c < b * c && c > 0
    ensures a < b
  {
    if a >= b {
      AtMostTimes(b, a, c);
    }
  }

  lemma Reassociate(a: int, b: int, c: int)
    ensures (a * b) * c == a * (b * c) && a * (b * c) == (a * c) * b
  {
  }

  // ---- Groups ----

  /** Block bid is in a group that has at least one row, at place r of it. */
  lemma GroupOfBlock(numBidM: int, numBidN: int, group: int, bid: int)
    requires numBidM > 0 && numBidN > 0 && group > 0 && 0 <= bid < numBidM * numBidN
    ensures group * numBidN > 0
    ensures var g := bid / (group * numBidN);
            var rows := Min(numBidM - g * group, group);
            && g >= 0 && 0 <= g * group < numBidM && rows > 0
            && 0 <= bid % (group * numBidN) < rows * numBidN
            && bid == (g * group) * numBidN + bid % (group * numBidN)
  {
    AtMostTimes(1, group, numBidN);
    var size := group * numBidN;
    Divide(bid, size);
    var g, r := bid / size, bid % size;
    if g < 0 {
      AtMostTimes(g, -1, size);
    }
    Reassociate(g, group, numBidN);
    assert size * g == g * size;
    var first := g * group;
    AtMostTimes(0, g, group);
    BelowTimes(first, numBidM, numBidN);
    var rows := Min(numBidM - first, group);
    if rows == numBidM - first {
      Distribute(numBidN, numBidM, first);
      assert numBidN * numBidM == numBidM * numBidN && numBidN * first == first * numBidN;
      assert numBidN * rows == rows * numBidN;
    }
  }

  /** Every block gets a tile of the grid. */
  lemma SwizzleInGrid(numBidM: int, numBidN: int, group: int, bid: int)
    requires numBidM > 0 && numBidN > 0 && group > 0 && 0 <= bid < numBidM * numBidN
    ensures var (m, n) := Swizzle2D(numBidM, numBidN, group, bid);
            0 <= m < numBidM && 0 <= n < numBidN
  {
    GroupOfBlock(numBidM, numBidN, group, bid);
    var g := bid / (group * numBidN);
    var r := bid % (group * numBidN);
    var rows := Min(numBidM - g * group, group);
    QuotientInRange(r, rows, numBidN);
  }

  lemma QuotientInRange(r: int, rows: int, n: int)
    requires rows > 0 && 0 <= r < rows * n
    ensures 0 <= r / rows < n
  {
    Divide(r, rows);
    var q := r / rows;
    if q >= n {
      AtMostTimes(n, q, rows);
    } else if q < 0 {
      AtMostTimes(q, -1, rows);
    }
  }

  /** The block of a tile. In a group of fewer rows, the rows are rotated. */
  function BlockOf(numBidM: int, numBidN: int, group: int, m: int, n: int): int
    requires numBidM > 0 && numBidN > 0 && group > 0 && 0 <= m < numBidM && 0 <= n < numBidN
  {
    var first := (m / group) * group;
    RowsOfTile(numBidM, group, m);
    var rows := Min(numBidM - first, group);
    first * numBidN + rows * n + (m - first - first * numBidN) % rows
  }

  lemma RowsOfTile(numBidM: int, group: int, m: int)
    requires group > 0 && 0 <= m < numBidM
    ensures var first := (m / group) * group; 0 <= first <= m < first + group && Min(numBidM - first, group) > m - first
  {
    Divide(m, group);
    var g := m / group;
    if g < 0 {
      AtMostTimes(g, -1, group);
    }
    AtMostTimes(0, g, group);
  }

  /** The block that BlockOf gives exists, and it gets that tile. */
  lemma SwizzleOfBlock(numBidM: int, numBidN: int, group: int, m: int, n: int)
    requires numBidM > 0 && numBidN > 0 && group > 0 && 0 <= m < numBidM && 0 <= n < numBidN
    ensures 0 <= BlockOf(numBidM, numBidN, group, m, n) < numBidM * numBidN
    ensures Swizzle2D(numBidM, numBidN, group, BlockOf(numBidM, numBidN, group, m, n)) == (m, n)
  {
    RowsOfTile(numBidM, group, m);
    var g := m / group;
    var first := g * group;
    var rows := Min(numBidM - first, group);
    var s := (m - first - first * numBidN) % rows;
    Divide(m - first - first * numBidN, rows);
    var bid := BlockOf(numBidM, numBidN, group, m, n);
    var r := rows * n + s;
    PlaceInGroup(numBidM, numBidN, group, first, rows, n, s);
    Reassociate(g, group, numBidN);
    assert (group * numBidN) * g == g * (group * numBidN);
    DivideUnique(bid, group * numBidN, g, r);
    DivideUnique(r, rows, n, s);
    RotatedRow(first * numBidN, rows, n, m - first, s);
  }

  lemma PlaceInGroup(numBidM: int, numBidN: int, group: int, first: int, rows: int, n: int, s: int)
    requires 0 <= first && 0 <= n < numBidN && group > 0 && 0 < rows <= group && first + rows <= numBidM && 0 <= s < rows
    ensures 0 <= rows * n + s < group * numBidN
    ensures 0 <= first * numBidN + rows * n + s < numBidM * numBidN
  {
    AtMostTimes(0, n, rows);
    AtMostTimes(n, numBidN - 1, rows);
    Distribute(rows, numBidN, 1);
    AtMostTimes(rows, group, numBidN);
    AtMostTimes(0, first, numBidN);
    AtMostTimes(first + rows, numBidM, numBidN);
    Distribute(numBidN, first, rows);
    assert numBidN * (first + rows) == (first + rows) * numBidN;
    assert numBidN * first == first * numBidN && numBidN * rows == rows * numBidN;
  }

  /** c + rows * n + s is in row `row`, when s is that row minus c, modulo the number of rows. */
  lemma RotatedRow(c: int, rows: int, n: int, row: int, s: int)
    requires rows > 0 && 0 <= row < rows && s == (row - c) % rows
    ensures (c + rows * n + s) % rows == row
  {
    Divide(row - c, rows);
    var q := (row - c) / rows;
    Distribute(rows, n, q);
    DivideUnique(c + rows * n + s, rows, n - q, row);
  }

  /** No two blocks get the same tile. */
  lemma BlockOfSwizzle(numBidM: int, numBidN: int, group: int, bid: int)
    requires numBidM > 0 && numBidN > 0 && group > 0 && 0 <= bid < numBidM * numBidN
    ensures var (m, n) := Swizzle2D(numBidM, numBidN, group, bid);
            && 0 <= m < numBidM && 0 <= n < numBidN
            && BlockOf(numBidM, numBidN, group, m, n) == bid
  {
    hide BlockOf;
    SwizzleInGrid(numBidM, numBidN, group, bid);
    GroupOfBlock(numBidM, numBidN, group, bid);
    var g := bid / (group * numBidN);
    var r := bid % (group * numBidN);
    var first := g * group;
    var rows := Min(numBidM - first, group);
    var row := bid % rows;
    Divide(bid, rows);
    SameGroup(group, g, row);
    Divide(r, rows);
    UnrotatedRow(first * numBidN, rows, r, row);
    BlockAt(numBidM, numBidN, group, g, row, r / rows);
  }

  /** The rows of a group are those with its number. */
  lemma SameGroup(group: int, g: int, row: int)
    requires group > 0 && 0 <= row < group
    ensures (g * group + row) / group == g
  {
    assert group * g == g * group;
    DivideUnique(g * group + row, group, g, row);
  }

  lemma BlockAt(numBidM: int, numBidN: int, group: int, g: int, row: int, n: int)
    requires numBidM > 0 && numBidN > 0 && group > 0 && 0 <= n < numBidN
    requires 0 <= g * group + row < numBidM && (g * group + row) / group == g
    requires Min(numBidM - g * group, group) > 0
    ensures var first, rows := g * group, Min(numBidM - g * group, group);
            BlockOf(numBidM, numBidN, group, first + row, n)
            == first * numBidN + rows * n + (row - first * numBidN) % rows
  {
  }

  lemma UnrotatedRow(c: int, rows: int, r: int, row: int)
    requires rows > 0 && row == (c + r) % rows
    ensures (row - c) % rows == r % rows
  {
    Divide(c + r, rows);
    Divide(r, rows);
    var p, q := (c + r) / rows, r / rows;
    Distribute(rows, q, p);
    DivideUnique(row - c, rows, q - p, r % rows);
  }

  /** swizzle_2d_from_bid: the tile of block bid of a matrix of M x N elements in tiles of tm x tn. */
  function Swizzle2DFromBid(M: int, N: int, tm: int, tn: int, groupSizeM: int, bid: int): (int, int)
    requires M > 0 && N > 0 && tm > 0 && tn > 0 && groupSizeM > 0
    requires 0 <= bid < CeilDiv(M, tm) * CeilDiv(N, tn)
  {
    CeilDivPositive(M, tm);
    CeilDivPositive(N, tn);
    Swizzle2D(CeilDiv(M, tm), CeilDiv(N, tn), groupSizeM, bid)
  }

  /** The tiles cover all rows, and each of them has a row. */
  lemma TilesCoverRows(rows: int, tile: int, row: int, k: int)
    requires rows > 0 && tile > 0
    ensures 0 <= row < rows ==> 0 <= row / tile < CeilDiv(rows, tile)
    ensures 0 <= k < CeilDiv(rows, tile) ==> 0 <= k * tile < rows
  {
    var n := CeilDiv(rows, tile);
    Divide(rows + tile - 1, tile);
    if 0 <= row < rows {
      Divide(row, tile);
      if row / tile < 0 {
        AtMostTimes(row / tile, -1, tile);
      } else if row / tile >= n {
        AtMostTimes(n, row / tile, tile);
      }
    }
    if 0 <= k < n {
      AtMostTimes(0, k, tile);
      AtMostTimes(k, n - 1, tile);
      Distribute(tile, n, 1);
    }
  }

  lemma CeilDivPositive(a: int, b: int)
    requires a > 0 && b > 0
    ensures CeilDiv(a, b) > 0
  {
    Divide(a + b - 1, b);
    if CeilDiv(a, b) <= 0 {
      AtMostTimes(CeilDiv(a, b), 0, b);
    }
  }

  /** For every matrix, tile and group size, the blocks and the tiles of the grid correspond one to
      one: each tile is the tile of exactly one block. */
  lemma SwizzleIsBijective(M: int, N: int, tm: int, tn: int, groupSizeM: int, m: int, n: int, bid: int)
    requires M > 0 && N > 0 && tm > 0 && tn > 0 && groupSizeM > 0
    requires 0 <= m < CeilDiv(M, tm) && 0 <= n < CeilDiv(N, tn)
    requires 0 <= bid < CeilDiv(M, tm) * CeilDiv(N, tn)
    ensures 0 <= Swizzle2DFromBid(M, N, tm, tn, groupSizeM, bid).0 < CeilDiv(M, tm)
    ensures 0 <= Swizzle2DFromBid(M, N, tm, tn, groupSizeM, bid).1 < CeilDiv(N, tn)
    ensures Swizzle2DFromBid(M, N, tm, tn, groupSizeM, bid) == (m, n)
            <==> bid == BlockOf(CeilDiv(M, tm), CeilDiv(N, tn), groupSizeM, m, n)
  {
    hide CeilDiv, Swizzle2D, BlockOf;
    CeilDivPositive(M, tm);
    CeilDivPositive(N, tn);
    SwizzleInGrid(CeilDiv(M, tm), CeilDiv(N, tn), groupSizeM, bid);
    SwizzleOfBlock(CeilDiv(M, tm), CeilDiv(N, tn), groupSizeM, m, n);
    BlockOfSwizzle(CeilDiv(M, tm), CeilDiv(N, tn), groupSizeM, bid);
  }

  // ---- Scale factors ----

  /** permute((0, 3, 2, 1, 4)) of a shape or of a multi-index. */
  function Permute<T>(v: seq<T>): (r: seq<T>)
    requires |v| == 5
    ensures |r| == 5
  {
    [v[0], v[3], v[2], v[1], v[4]]
  }

  /** The elements, in row-major order, of a tensor of this shape after it has been permuted. */
  function PermuteElements<T>(x: seq<T>, shape: Dims): (y: seq<T>)
    requires |shape| == 5 && Positive(shape) && |x| == Numel(shape)
    ensures |y| == |x|
  {
    PermutedShape(shape);
    seq(|x|, n requires 0 <= n < |x| => x[SourceOf(n, shape)])
  }

  /** Which element comes to position n. */
  function SourceOf(n: int, shape: Dims): (r: int)
    requires |shape| == 5 && Positive(shape) && 0 <= n < Numel(shape)
    ensures 0 <= r < Numel(shape)
  {
    PermutedShape(shape);
    var index := Permute(Unravel(n, Permute(shape)));
    RavelInRange(index, shape);
    Ravel(index, shape)
  }

  lemma NumelOfFive(a: int, b: int, c: int, d: int, e: int)
    ensures Numel([a, b, c, d, e]) == a * (b * (c * (d * e)))
  {
    assert [a, b, c, d, e][1..] == [b, c, d, e] && [b, c, d, e][1..] == [c, d, e];
    assert [c, d, e][1..] == [d, e] && [d, e][1..] == [e] && [e][1..] == [];
    assert Numel([e]) == e * 1 == e;
    assert Numel([d, e]) == d * e;
    assert Numel([c, d, e]) == c * Numel([d, e]);
    assert Numel([b, c, d, e]) == b * Numel([c, d, e]);
  }

  lemma Swap(b: int, c: int, d: int, e: int)
    ensures b * (c * (d * e)) == d * (c * (b * e))
  {
    var p := c * (d * e);
    assert c * (d * e) == d * (c * e);
    assert b * (d * (c * e)) == d * (b * (c * e));
    assert b * (c * e) == c * (b * e);
  }

  lemma PermutedShape(shape: Dims)
    requires |shape| == 5 && Positive(shape)
    ensures Positive(Permute(shape)) && Numel(Permute(shape)) == Numel(shape) && Permute(Permute(shape)) == shape
  {
    assert shape == [shape[0], shape[1], shape[2], shape[3], shape[4]];
    NumelOfFive(shape[0], shape[1], shape[2], shape[3], shape[4]);
    NumelOfFive(shape[0], shape[3], shape[2], shape[1], shape[4]);
    Swap(shape[1], shape[2], shape[3], shape[4]);
  }

  /** The source of the position of a permuted index is the position of the index. */
  lemma SourceOfRavel(index: Index, shape: Dims)
    requires |shape| == 5 && Positive(shape) && InShape(index, shape)
    ensures InShape(Permute(index), Permute(shape))
    ensures 0 <= Ravel(Permute(index), Permute(shape)) < Numel(shape)
    ensures SourceOf(Ravel(Permute(index), Permute(shape)), shape) == Ravel(index, shape)
  {
    PermutedShape(shape);
    hide Ravel, Numel;
    var n := Ravel(Permute(index), Permute(shape));
    RavelInRange(Permute(index), Permute(shape));
    RavelIsInjective(Unravel(n, Permute(shape)), Permute(index), Permute(shape));
    assert Permute(Permute(index)) == index;
  }

  /** The permutation undoes itself. */
  lemma PermuteTwice<T>(x: seq<T>, shape: Dims)
    requires |shape| == 5 && Positive(shape) && |x| == Numel(shape)
    ensures Positive(Permute(shape)) && Numel(Permute(shape)) == Numel(shape)
    ensures PermuteElements(PermuteElements(x, shape), Permute(shape)) == x
  {
    PermutedShape(shape);
    var y, back := PermuteElements(x, shape), Permute(shape);
    hide Ravel, Numel;
    forall n | 0 <= n < |x| ensures PermuteElements(y, back)[n] == x[n] {
      var index := Unravel(n, shape);
      assert SourceOf(n, back) == Ravel(Permute(index), back);
      SourceOfRavel(index, shape);
    }
  }

  function ScaleShape(m: int, k: int): Dims { [m / 128, 4, 32, k / 4, 4] }

  lemma ScaleSize(m: int, k: int)
    requires m > 0 && k > 0 && m % 128 == 0 && k % 4 == 0
    ensures Positive(ScaleShape(m, k)) && Numel(ScaleShape(m, k)) == m * k
  {
    var a, d := m / 128, k / 4;
    NumelOfFive(a, 4, 32, d, 4);
    assert a * (4 * (32 * (d * 4))) == (a * 128) * (d * 4);
  }

  /** swizzle_32_4_4: reshapes only regroup dimensions. */
  function Swizzle32x4x4<T>(scale: seq<T>, m: int, k: int): (r: seq<T>)
    requires m > 0 && k > 0 && m % 128 == 0 && k % 4 == 0 && |scale| == m * k
  {
    ScaleSize(m, k);
    PermuteElements(scale, ScaleShape(m, k))
  }

  function Unswizzle32x4x4<T>(swizzled: seq<T>, m0: int, k0: int): (r: seq<T>)
    requires m0 > 0 && k0 > 0 && |swizzled| == m0 * k0 * 512
  {
    SwizzledSize(m0, k0);
    PermuteElements(swizzled, [m0, k0, 32, 4, 4])
  }

  lemma SwizzledSize(m0: int, k0: int)
    requires m0 > 0 && k0 > 0
    ensures Positive([m0, k0, 32, 4, 4]) && Numel([m0, k0, 32, 4, 4]) == m0 * k0 * 512
  {
    NumelOfFive(m0, k0, 32, 4, 4);
    assert m0 * (k0 * 512) == m0 * k0 * 512;
  }

  lemma SizesAgree(m: int, k: int)
    requires m > 0 && k > 0 && m % 128 == 0 && k % 4 == 0
    ensures m * k == (m / 128) * (k / 4) * 512
  {
    var a, d := m / 128, k / 4;
    assert (128 * a) * (4 * d) == a * d * 512;
  }

  lemma UnswizzleInvertsSwizzle<T>(scale: seq<T>, m: int, k: int)
    requires m > 0 && k > 0 && m % 128 == 0 && k % 4 == 0 && |scale| == m * k
    ensures |Swizzle32x4x4(scale, m, k)| == (m / 128) * (k / 4) * 512
    ensures Unswizzle32x4x4(Swizzle32x4x4(scale, m, k), m / 128, k / 4) == scale
  {
    ScaleSize(m, k);
    SizesAgree(m, k);
    SwizzledSize(m / 128, k / 4);
    PermuteTwice(scale, ScaleShape(m, k));
  }

  /** Element (r, c) of the scale comes to [r / 128, c / 4, r % 32, j] of the tensor of shape
      [m / 128, k / 4, 32, 16], where j is 4 times the row's quarter of its 128 rows, plus c % 4. */
  lemma SwizzledElement<T>(scale: seq<T>, m: int, k: int, r: int, c: int)
    requires m > 0 && k > 0 && m % 128 == 0 && k % 4 == 0 && |scale| == m * k
    requires 0 <= r < m && 0 <= c < k
    ensures 0 <= r * k + c < |scale|
    ensures var n := (((r / 128) * (k / 4) + c / 4) * 32 + r % 32) * 16 + ((r % 128) / 32) * 4 + c % 4;
            0 <= n < |Swizzle32x4x4(scale, m, k)| && Swizzle32x4x4(scale, m, k)[n] == scale[r * k + c]
  {
    var shape := ScaleShape(m, k);
    var index := [r / 128, (r % 128) / 32, r % 32, c / 4, c % 4];
    ScaleSize(m, k);
    ScaleIndex(m, k, r, c);
    SourceOfRavel(index, shape);
    RavelInRange(index, shape);
    RavelOfFive(index, shape);
    RavelOfFive(Permute(index), Permute(shape));
    RowMajor(r, c, k);
    SwizzledRowMajor(r / 128, k / 4, c / 4, r % 32, (r % 128) / 32, c % 4);
  }

  lemma ScaleIndex(m: int, k: int, r: int, c: int)
    requires m % 128 == 0 && k % 4 == 0 && 0 <= r < m && 0 <= c < k
    ensures InShape([r / 128, (r % 128) / 32, r % 32, c / 4, c % 4], ScaleShape(m, k))
  {
  }

  lemma RavelOfFive(i: Index, s: Dims)
    requires |i| == 5 && |s| == 5
    ensures Ravel(i, s) == i[0] * (s[1] * (s[2] * (s[3] * s[4]))) + i[1] * (s[2] * (s[3] * s[4]))
                           + i[2] * (s[3] * s[4]) + i[3] * s[4] + i[4]
  {
    var s1, s2, s3, s4 := s[1..], s[2..], s[3..], s[4..];
    var i1, i2, i3, i4 := i[1..], i[2..], i[3..], i[4..];
    assert s1[1..] == s2 && s2[1..] == s3 && s3[1..] == s4 && s4[1..] == [];
    assert i1[1..] == i2 && i2[1..] == i3 && i3[1..] == i4 && i4[1..] == [];
    assert Numel(s4) == s[4] * 1 == s[4];
    assert Numel(s3) == s[3] * s[4];
    assert Numel(s2) == s[2] * (s[3] * s[4]);
    assert Numel(s1) == s[1] * (s[2] * (s[3] * s[4]));
    assert Ravel(i4, s4) == i[4] * 1 + 0 == i[4];
    assert Ravel(i3, s3) == i[3] * s[4] + i[4];
    assert Ravel(i2, s2) == i[2] * (s[3] * s[4]) + Ravel(i3, s3);
    assert Ravel(i1, s1) == i[1] * (s[2] * (s[3] * s[4])) + Ravel(i2, s2);
  }

  lemma RowMajor(r: int, c: int, k: int)
    requires r >= 0 && c >= 0 && k > 0 && k % 4 == 0
    ensures (r / 128) * (4 * (32 * ((k / 4) * 4))) + ((r % 128) / 32) * (32 * ((k / 4) * 4))
            + (r % 32) * ((k / 4) * 4) + (c / 4) * 4 + c % 4 == r * k + c
  {
    SplitRow(r);
    assert (k / 4) * 4 == k && (c / 4) * 4 + c % 4 == c;
    RowTimes(r / 128, (r % 128) / 32, r % 32, k);
  }

  lemma SplitRow(r: int)
    requires r >= 0
    ensures r == 128 * (r / 128) + 32 * ((r % 128) / 32) + r % 32
  {
    var x := r % 128;
    Divide(r, 128);
    Divide(x, 32);
    DivideUnique(r, 32, 4 * (r / 128) + x / 32, x % 32);
  }

  lemma RowTimes(a: int, b: int, d: int, k: int)
    ensures a * (4 * (32 * k)) + b * (32 * k) + d * k == (128 * a + 32 * b + d) * k
  {
    Distribute(k, 128 * a + 32 * b, d);
    Distribute(k, 128 * a, 32 * b);
  }

  lemma SwizzledRowMajor(a: int, k0: int, d: int, i2: int, b: int, e: int)
    ensures a * (k0 * (32 * (4 * 4))) + d * (32 * (4 * 4)) + i2 * (4 * 4) + b * 4 + e
            == ((a * k0 + d) * 32 + i2) * 16 + b * 4 + e
  {
    assert a * (k0 * 512) == (a * k0) * 512;
  }
}
