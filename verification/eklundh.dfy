/** Eklundh's in-place transpose (`EklundhTransposeInner`) and the blockwise
    driver `EklundhTranspose` of project/utils/utils.go.

    At level s (s = 1, 2, 4, ...) the algorithm visits each aligned block of
    size 2s on the diagonal and swaps its top-right s x s quadrant with its
    bottom-left one entry by entry, (a, b) with (b, a). After level s every
    entry whose coordinates share their aligned 2s-block is transposed, so
    after the last level the whole matrix is. */
module Eklundh {
  import opened Errors
  import opened Bytes
  import opened ModArith
  import opened Matrices

  // ---------------------------------------------------------------------------
  // Aligned blocks

  /** a and b lie in the same aligned block of size s. */
  predicate SameBlock(a: nat, b: nat, s: nat)
    requires s > 0
  {
    a / s == b / s
  }

  lemma BlockOf(x: int, s: int, k: int)
    requires s > 0 && k * s <= x < k * s + s
    ensures x / s == k
  {
    DivModUnique(x, s, k, x - k * s);
  }

  /** The 2s-block of x is the s-block of x halved. */
  lemma HalfBlock(x: nat, s: nat)
    requires s > 0
    ensures x / (2 * s) == (x / s) / 2
  {
    NestedBlock(x, s, 2);
    assert s * 2 == 2 * s;
  }

  lemma DivMonotone(a: nat, b: nat, s: nat)
    requires s > 0 && a <= b
    ensures a / s <= b / s
  {
    var qa, qb := a / s, b / s;
    assert a == qa * s + a % s;
    assert b == qb * s + b % s;
    if qa > qb {
      MulAtLeast(qa - qb, s);
    }
  }

  /** A pair that shares its 2s-block but not its s-block straddles the
      middle of that 2s-block. */
  lemma SplitPair(a: nat, b: nat, s: nat) returns (k: nat)
    requires s > 0 && a < b && SameBlock(a, b, 2 * s) && !SameBlock(a, b, s)
    ensures k * (2 * s) <= a < k * (2 * s) + s <= b < k * (2 * s) + 2 * s
  {
    k := a / (2 * s);
    HalfBlock(a, s);
    HalfBlock(b, s);
    DivMonotone(a, b, s);
    var qa, qb := a / s, b / s;
    assert qa == 2 * k && qb == 2 * k + 1;
    assert a == qa * s + a % s;
    assert b == qb * s + b % s;
    assert qa * s == k * (2 * s);
    assert qb * s == k * (2 * s) + s;
  }

  lemma SameBlockRange(a: nat, b: nat, s: nat, k: int)
    requires s > 0 && k * s <= a < k * s + s && k * s <= b < k * s + s
    ensures SameBlock(a, b, s)
  {
    BlockOf(a, s, k);
    BlockOf(b, s, k);
  }

  /** The pair (i + j, i + s + l) of the block at i = t * 2s straddles it. */
  lemma PairAtLevel(i: nat, t: nat, s: nat, j: nat, l: nat)
    requires s > 0 && i == t * (2 * s) && j < s && l < s
    ensures SameBlock(i + j, i + s + l, 2 * s) && !SameBlock(i + j, i + s + l, s)
  {
    BlockOf(i + j, 2 * s, t);
    BlockOf(i + s + l, 2 * s, t);
    assert i == (2 * t) * s;
    BlockOf(i + j, s, 2 * t);
    BlockOf(i + s + l, s, 2 * t + 1);
  }

  // ---------------------------------------------------------------------------
  // The loop invariant

  /** At level s, with the cursor at block i, row i + j, column i + s + l:
      has the pair (a, b) been swapped yet at this level? */
  predicate Swapped(a: nat, b: nat, s: nat, i: nat, j: nat, l: nat)
    requires s > 0
  {
    var top := if a < b then a else b;
    var bot := if a < b then b else a;
    SameBlock(a, b, 2 * s) && !SameBlock(a, b, s) &&
    (top < i + j || (top == i + j && bot < i + s + l))
  }

  /** `cur` is `m` with exactly the entries of the same s-block, and the pairs
      already swapped at this level, transposed. */
  predicate Phase(cur: Matrix, m: Matrix, n: nat, s: nat, i: nat, j: nat, l: nat)
    requires s > 0
  {
    Rectangular(cur, n, n) && Rectangular(m, n, n) &&
    forall a, b :: 0 <= a < n && 0 <= b < n ==>
      cur[a][b] == if SameBlock(a, b, s) || Swapped(a, b, s, i, j, l) then m[b][a] else m[a][b]
  }

  /** Go's `x[a][b], x[b][a] = x[b][a], x[a][b]`. */
  function SwapEntries(cur: Matrix, a: nat, b: nat): (r: Matrix)
    requires a < |cur| && b < |cur| && a != b && b < |cur[a]| && a < |cur[b]|
    ensures |r| == |cur| && forall x :: 0 <= x < |r| ==> |r[x]| == |cur[x]|
    ensures r[a][b] == cur[b][a] && r[b][a] == cur[a][b]
    ensures forall x, y :: 0 <= x < |r| && 0 <= y < |r[x]| && !(x == a && y == b) && !(x == b && y == a) ==>
      r[x][y] == cur[x][y]
  {
    var rowA := cur[a][b := cur[b][a]];
    var rowB := cur[b][a := cur[a][b]];
    cur[a := rowA][b := rowB]
  }

  lemma SwapStep(cur: Matrix, m: Matrix, n: nat, s: nat, i: nat, t: nat, j: nat, l: nat)
    requires s > 0 && i == t * (2 * s) && i + 2 * s <= n && j < s && l < s
    requires Phase(cur, m, n, s, i, j, l)
    ensures Phase(SwapEntries(cur, i + j, i + s + l), m, n, s, i, j, l + 1)
  {
    var a0, b0 := i + j, i + s + l;
    PairAtLevel(i, t, s, j, l);
    var next := SwapEntries(cur, a0, b0);
    forall a, b | 0 <= a < n && 0 <= b < n
      ensures next[a][b] == if SameBlock(a, b, s) || Swapped(a, b, s, i, j, l + 1) then m[b][a] else m[a][b]
    {
      if (a == a0 && b == b0) || (a == b0 && b == a0) {
        assert !Swapped(a, b, s, i, j, l) && Swapped(a, b, s, i, j, l + 1);
      } else {
        assert Swapped(a, b, s, i, j, l) == Swapped(a, b, s, i, j, l + 1);
      }
    }
  }

  /** x lies in one aligned block of width w. */
  lemma BlockIndexUnique(x: nat, w: nat, k: int, t: int)
    requires w > 0 && k * w <= x < k * w + w && t * w <= x < t * w + w
    ensures k == t
  {
    BlockOf(x, w, k);
    BlockOf(x, w, t);
  }

  lemma RowDonePair(a: nat, b: nat, s: nat, i: nat, t: nat, j: nat)
    requires s > 0 && i == t * (2 * s) && j < s
    ensures Swapped(a, b, s, i, j, s) == Swapped(a, b, s, i, j + 1, 0)
  {
    if a != b && SameBlock(a, b, 2 * s) && !SameBlock(a, b, s) {
      var top := if a < b then a else b;
      var bot := if a < b then b else a;
      var w := 2 * s;
      var k := SplitPair(top, bot, s);
      if top == i + j || top == i + j + 1 {
        assert t * w <= top < t * w + w;
        BlockIndexUnique(top, w, k, t);
      }
    }
  }

  lemma RowDone(cur: Matrix, m: Matrix, n: nat, s: nat, i: nat, t: nat, j: nat)
    requires s > 0 && i == t * (2 * s) && j < s
    requires Phase(cur, m, n, s, i, j, s)
    ensures Phase(cur, m, n, s, i, j + 1, 0)
  {
    forall a, b | 0 <= a < n && 0 <= b < n
      ensures Swapped(a, b, s, i, j, s) == Swapped(a, b, s, i, j + 1, 0)
    {
      RowDonePair(a, b, s, i, t, j);
    }
  }

  lemma BlockDonePair(a: nat, b: nat, s: nat, i: nat, t: nat)
    requires s > 0 && i == t * (2 * s)
    ensures Swapped(a, b, s, i, s, 0) == Swapped(a, b, s, i + 2 * s, 0, 0)
  {
    if a != b && SameBlock(a, b, 2 * s) && !SameBlock(a, b, s) {
      var top := if a < b then a else b;
      var bot := if a < b then b else a;
      var w := 2 * s;
      var k := SplitPair(top, bot, s);
      if i + s <= top < i + w {
        assert t * w <= top < t * w + w;
        BlockIndexUnique(top, w, k, t);
      } else if top == i + w {
        assert (t + 1) * w == i + w;
        BlockIndexUnique(top, w, k, t + 1);
      }
    }
  }

  lemma BlockDone(cur: Matrix, m: Matrix, n: nat, s: nat, i: nat, t: nat)
    requires s > 0 && i == t * (2 * s)
    requires Phase(cur, m, n, s, i, s, 0)
    ensures Phase(cur, m, n, s, i + 2 * s, 0, 0)
  {
    forall a, b | 0 <= a < n && 0 <= b < n
      ensures Swapped(a, b, s, i, s, 0) == Swapped(a, b, s, i + 2 * s, 0, 0)
    {
      BlockDonePair(a, b, s, i, t);
    }
  }

  lemma LevelDone(cur: Matrix, m: Matrix, n: nat, s: nat, i: nat)
    requires s > 0 && i >= n
    requires Phase(cur, m, n, s, i, 0, 0)
    ensures Phase(cur, m, n, 2 * s, 0, 0, 0)
  {
    forall a, b | 0 <= a < n && 0 <= b < n
      ensures (SameBlock(a, b, s) || Swapped(a, b, s, i, 0, 0)) == (SameBlock(a, b, 2 * s) || Swapped(a, b, 2 * s, 0, 0, 0))
    {
      HalfBlock(a, s);
      HalfBlock(b, s);
      if a == 0 && b < 2 * s {
        SameBlockRange(a, b, 2 * s, 0);
      }
      if b == 0 && a < 2 * s {
        SameBlockRange(a, b, 2 * s, 0);
      }
    }
  }

  lemma LevelStart(m: Matrix, n: nat)
    requires Rectangular(m, n, n)
    ensures Phase(m, m, n, 1, 0, 0, 0)
  {
  }

  lemma LevelsComplete(cur: Matrix, m: Matrix, n: nat, s: nat)
    requires 0 < n <= s && Phase(cur, m, n, s, 0, 0, 0)
    ensures IsTransposeOf(cur, m, n, n)
  {
    forall a, b | 0 <= a < n && 0 <= b < n
      ensures cur[a][b] == m[b][a]
    {
      SameBlockRange(a, b, s, 0);
    }
  }

  // ---------------------------------------------------------------------------
  // Powers of two

  /** For powers of two s < n: 2s is a power of two dividing n. */
  lemma {:induction false} Pow2Step(s: nat, n: nat) returns (u: nat)
    requires IsPow2(s) && IsPow2(n) && s < n
    ensures IsPow2(2 * s) && n == u * (2 * s) && u >= 1
    decreases s
  {
    assert n > 1 && n % 2 == 0 && IsPow2(n / 2);
    if s == 1 {
      u := n / 2;
    } else {
      assert s % 2 == 0 && IsPow2(s / 2);
      var u' := Pow2Step(s / 2, n / 2);
      u := u';
      assert n / 2 == u * s;
    }
    assert (2 * s) / 2 == s;
  }

  lemma NextBlockFits(t: nat, u: nat, w: nat)
    requires w > 0 && t * w < u * w
    ensures (t + 1) * w <= u * w
  {
    if t >= u {
      MulNonneg(t - u, w);
    }
  }

  // ---------------------------------------------------------------------------
  // The algorithm

  /** `EklundhTransposeInner` on an n x n matrix, n a power of two (or the
      nil matrix, for which the level loop does not run). Any other n makes
      the Go code index past the matrix. */
  method EklundhTransposeInner(matrix: Matrix) returns (r: Matrix)
    requires |matrix| == 0 || IsPow2(|matrix|)
    requires Rectangular(matrix, |matrix|, |matrix|)
    ensures IsTransposeOf(r, matrix, |matrix|, |matrix|)
  {
    var dimension := |matrix|;
    if dimension == 1 {
      return matrix;
    }
    var cur := matrix;
    var swapDimension := 1;
    LevelStart(matrix, dimension);
    while swapDimension < dimension
      invariant swapDimension > 0 && (dimension == 0 || IsPow2(swapDimension))
      invariant dimension == 0 || swapDimension <= dimension
      invariant Phase(cur, matrix, dimension, swapDimension, 0, 0, 0)
      decreases dimension - swapDimension
    {
      var s := swapDimension;
      var u := Pow2Step(s, dimension);
      var i := 0;
      ghost var t := 0;
      while i < dimension
        invariant i == t * (2 * s) && i <= dimension
        invariant Phase(cur, matrix, dimension, s, i, 0, 0)
        decreases dimension - i
      {
        NextBlockFits(t, u, 2 * s);
        var j := 0;
        while j < s
          invariant 0 <= j <= s
          invariant Phase(cur, matrix, dimension, s, i, j, 0)
        {
          var l := 0;
          while l < s
            invariant 0 <= l <= s
            invariant Phase(cur, matrix, dimension, s, i, j, l)
          {
            SwapStep(cur, matrix, dimension, s, i, t, j, l);
            cur := SwapEntries(cur, i + j, i + s + l);
            l := l + 1;
          }
          RowDone(cur, matrix, dimension, s, i, t, j);
          j := j + 1;
        }
        BlockDone(cur, matrix, dimension, s, i, t);
        i := i + 2 * s;
        t := t + 1;
      }
      LevelDone(cur, matrix, dimension, s, i);
      swapDimension := swapDimension * 2;
    }
    if dimension > 0 {
      LevelsComplete(cur, matrix, dimension, swapDimension);
    }
    return cur;
  }

  // ---------------------------------------------------------------------------
  // Each off-diagonal pair is swapped at exactly one level

  /** a and b are swapped at level s: they share their 2s-block but not
      their s-block, i.e. s is the highest power of two where they differ. */
  predicate SwappedAtLevel(a: nat, b: nat, s: nat)
    requires s > 0
  {
    SameBlock(a, b, 2 * s) && !SameBlock(a, b, s)
  }

  lemma NestedBlock(x: nat, w: nat, u: nat)
    requires w > 0 && u > 0
    ensures x / (w * u) == (x / w) / u
  {
    var q, r := x / w, x % w;
    var h, e := q / u, q % u;
    assert x == q * w + r;
    assert q == h * u + e;
    assert q * w == h * (w * u) + e * w;
    assert e * w + r < w * u by {
      MulNonneg(u - 1 - e, w);
      assert (u - 1 - e) * w == u * w - w - e * w;
    }
    MulNonneg(e, w);
    DivModUnique(x, w * u, h, e * w + r);
  }

  /** Sharing an aligned block is inherited by every larger aligned block. */
  lemma SameBlockGrows(a: nat, b: nat, w: nat, u: nat)
    requires w > 0 && u > 0 && SameBlock(a, b, w)
    ensures SameBlock(a, b, w * u)
  {
    NestedBlock(a, w, u);
    NestedBlock(b, w, u);
  }

  /** A pair swapped at level s is not swapped at any larger level. */
  lemma SwappedOnlyOnce(a: nat, b: nat, s: nat, t: nat)
    requires IsPow2(s) && IsPow2(t) && s < t
    requires SwappedAtLevel(a, b, s)
    ensures !SwappedAtLevel(a, b, t)
  {
    var u := Pow2Step(s, t);
    var w := 2 * s;
    assert t == w * u;
    SameBlockGrows(a, b, w, u);
    assert SameBlock(a, b, t);
  }

  lemma SwapLevelUnique(a: nat, b: nat, s1: nat, s2: nat)
    requires IsPow2(s1) && IsPow2(s2)
    requires SwappedAtLevel(a, b, s1) && SwappedAtLevel(a, b, s2)
    ensures s1 == s2
  {
    if s1 < s2 {
      SwappedOnlyOnce(a, b, s1, s2);
    } else if s2 < s1 {
      SwappedOnlyOnce(a, b, s2, s1);
    }
  }

  lemma {:induction false} SwapLevelFrom(a: nat, b: nat, s: nat, n: nat) returns (level: nat)
    requires IsPow2(s) && IsPow2(n) && s <= n
    requires !SameBlock(a, b, s) && SameBlock(a, b, n)
    ensures IsPow2(level) && s <= level < n && SwappedAtLevel(a, b, level)
    decreases n - s
  {
    if s == n {
      assert false;
    }
    var u := Pow2Step(s, n);
    if SameBlock(a, b, 2 * s) {
      level := s;
    } else {
      assert u * (2 * s) >= 2 * s by { MulAtLeast(u, 2 * s); }
      level := SwapLevelFrom(a, b, 2 * s, n);
    }
  }

  /** In an n x n matrix every pair a != b is swapped at exactly one level
      s < n, the power of two of the highest bit where a and b differ. */
  lemma SwapLevelExistsUnique(a: nat, b: nat, n: nat) returns (level: nat)
    requires IsPow2(n) && a < n && b < n && a != b
    ensures IsPow2(level) && level < n && SwappedAtLevel(a, b, level)
    ensures forall s :: IsPow2(s) && SwappedAtLevel(a, b, s) ==> s == level
  {
    SameBlockRange(a, b, n, 0);
    level := SwapLevelFrom(a, b, 1, n);
    forall s | IsPow2(s) && SwappedAtLevel(a, b, s)
      ensures s == level
    {
      SwapLevelUnique(a, b, s, level);
    }
  }

  // ---------------------------------------------------------------------------
  // The blockwise driver

  /** Row a of the transposed block b is column b * rows + a of the matrix. */
  lemma TransposedBlockRow(m: Matrix, rows: nat, cols: nat, b: nat, tb: Matrix, a: nat)
    requires Rectangular(m, rows, cols) && rows > 0 && b * rows + rows <= cols && a < rows
    requires IsTransposeOf(tb, ColumnBlock(m, b * rows, rows), rows, rows)
    ensures tb[a] == TransposeMatrix(m)[b * rows + a]
  {
    var tm := TransposeMatrix(m);
    var cb := ColumnBlock(m, b * rows, rows);
    assert |tb[a]| == |tm[b * rows + a]|;
    forall j | 0 <= j < rows
      ensures tb[a][j] == tm[b * rows + a][j]
    {
      assert tb[a][j] == cb[j][a];
    }
  }

  /** The sequential loop of `EklundhTranspose`: every block, nil or
      n x n with n a power of two, is transposed in place. */
  method TransposeBlocks(blocks: seq<Matrix>, n: nat) returns (r: seq<Matrix>)
    requires IsPow2(n)
    requires forall x :: 0 <= x < |blocks| ==> blocks[x] == [] || Rectangular(blocks[x], n, n)
    ensures |r| == |blocks|
    ensures forall x :: 0 <= x < |blocks| && blocks[x] == [] ==> r[x] == []
    ensures forall x :: 0 <= x < |blocks| && blocks[x] != [] ==> IsTransposeOf(r[x], blocks[x], n, n)
  {
    r := blocks;
    var idx := 0;
    while idx < |r|
      invariant 0 <= idx <= |r| == |blocks|
      invariant forall x :: idx <= x < |r| ==> r[x] == blocks[x]
      invariant forall x :: 0 <= x < idx && blocks[x] == [] ==> r[x] == []
      invariant forall x :: 0 <= x < idx && blocks[x] != [] ==> IsTransposeOf(r[x], blocks[x], n, n)
    {
      var transposedBlock := EklundhTransposeInner(r[idx]);
      r := r[idx := transposedBlock];
      idx := idx + 1;
    }
  }

  /** The stacking loop of `EklundhTranspose` after the nil prefix: the
      transposed blocks' rows, in order, are the rows of the transpose. */
  method StackBlocks(m: Matrix, rows: nat, cols: nat, transposedBlocks: seq<Matrix>) returns (r: Matrix)
    requires Rectangular(m, rows, cols) && rows > 0 && cols % rows == 0
    requires |transposedBlocks| == NumBaseBlocks(rows, cols)
    requires forall b :: 0 <= b < |transposedBlocks| ==>
               IsTransposeOf(transposedBlocks[b], BaseBlocks(m, rows, cols)[b], rows, rows)
    ensures r == TransposeMatrix(m)
  {
    r := seq(cols, _ => Zeros(rows));
    ghost var tm := TransposeMatrix(m);
    ghost var base := BaseBlocks(m, rows, cols);
    assert |transposedBlocks| * rows == cols by {
      assert cols == (cols / rows) * rows + cols % rows;
    }
    var currentRow := 0;
    var b := 0;
    while b < |transposedBlocks|
      invariant 0 <= b <= |transposedBlocks|
      invariant |r| == cols
      invariant currentRow == b * rows && currentRow <= cols
      invariant forall x :: 0 <= x < currentRow ==> r[x] == tm[x]
    {
      var mat := transposedBlocks[b];
      assert b * rows + rows <= cols && base[b] == ColumnBlock(m, b * rows, rows);
      var a := 0;
      while a < |mat|
        invariant 0 <= a <= |mat| == rows
        invariant |r| == cols
        invariant currentRow == b * rows + a
        invariant forall x :: 0 <= x < currentRow ==> r[x] == tm[x]
      {
        TransposedBlockRow(m, rows, cols, b, mat, a);
        r := r[currentRow := mat[a]];
        currentRow := currentRow + 1;
        a := a + 1;
      }
      assert currentRow == (b + 1) * rows;
      b := b + 1;
    }
  }

  /** `EklundhTranspose(matrix, false)`, the sequential branch: divide the
      rows x cols matrix into rows x rows blocks, transpose each in place and
      stack the results. More rows than columns is refused by the division
      before anything else happens. Otherwise the in-place transpose indexes
      out of range unless the rows are a power of two and divide the columns
      (the padded block starts with nil rows), so those two are required on
      that path. The division also yields a prefix of nil blocks, which
      contribute no rows, and the early exit at `iterations` rows is never
      reached because `iterations` is computed from the first (nil) block and
      is zero. */
  method EklundhTranspose(matrix: Matrix) returns (r: Result<Matrix>)
    requires |matrix| > 0 && Rectangular(matrix, |matrix|, |matrix[0]|)
    requires |matrix| > |matrix[0]| || (IsPow2(|matrix|) && |matrix[0]| % |matrix| == 0)
    ensures r.Err? <==> |matrix| > |matrix[0]|
    ensures r.Ok? ==> r.value == TransposeMatrix(matrix)
  {
    var rows := |matrix|;
    var cols := |matrix[0]|;
    var divided := DivideMatrix(matrix, rows, cols);
    if divided.Err? {
      return Err(divided.reason);
    }
    var stacked := TransposeDivided(matrix, rows, cols, divided.value);
    return Ok(stacked);
  }

  /** The path of `EklundhTranspose` after a successful division of a matrix
      whose row count is a power of two dividing its column count. */
  method TransposeDivided(matrix: Matrix, rows: nat, cols: nat, divided: seq<Matrix>) returns (r: Matrix)
    requires Rectangular(matrix, rows, cols) && 0 < rows <= cols
    requires IsPow2(rows) && cols % rows == 0
    requires DivideMatrix(matrix, rows, cols) == Ok(divided)
    ensures r == TransposeMatrix(matrix)
  {
    var nM := NumBlocks(rows, cols);
    DividedBlocks(matrix, rows, cols);
    var matrices := TransposeBlocks(divided, rows);
    TransposedTail(divided, matrices, BaseBlocks(matrix, rows, cols), nM, rows);
    r := StackBlocks(matrix, rows, cols, matrices[nM..]);
  }

  /** The blocks of an evenly divisible matrix: a nil prefix of `cols / rows`
      blocks, then the square column blocks in order. */
  lemma DividedBlocks(m: Matrix, rows: nat, cols: nat)
    requires Rectangular(m, rows, cols) && 0 < rows <= cols && cols % rows == 0
    ensures var d := DivideMatrix(m, rows, cols);
      && d.Ok? && |d.value| == 2 * NumBlocks(rows, cols) && NumBlocks(rows, cols) == |BaseBlocks(m, rows, cols)|
      && (forall x :: 0 <= x < |d.value| ==> d.value[x] == [] || Rectangular(d.value[x], rows, rows))
      && (forall b :: 0 <= b < NumBlocks(rows, cols) ==> d.value[NumBlocks(rows, cols) + b] == BaseBlocks(m, rows, cols)[b])
  {
    var d, nM, base := DivideMatrix(m, rows, cols).value, NumBlocks(rows, cols), BaseBlocks(m, rows, cols);
    forall x | 0 <= x < |d|
      ensures d[x] == [] || Rectangular(d[x], rows, rows)
    {
      if x >= nM {
        assert d[x] == base[x - nM];
      }
    }
  }

  /** After the in-place transposes, the blocks past the nil prefix are the
      transposes of the column blocks. */
  lemma TransposedTail(divided: seq<Matrix>, matrices: seq<Matrix>, base: seq<Matrix>, nM: nat, rows: nat)
    requires |divided| == |matrices| == 2 * nM && |base| == nM && rows > 0
    requires forall b :: 0 <= b < nM ==> divided[nM + b] == base[b] && Rectangular(base[b], rows, rows)
    requires forall x :: 0 <= x < |divided| && divided[x] != [] ==>
      Rectangular(divided[x], rows, rows) && IsTransposeOf(matrices[x], divided[x], rows, rows)
    ensures forall b :: 0 <= b < nM ==> IsTransposeOf(matrices[nM..][b], base[b], rows, rows)
  {
    forall b | 0 <= b < nM
      ensures IsTransposeOf(matrices[nM..][b], base[b], rows, rows)
    {
      assert divided[nM + b] == base[b] && base[b] != [];
    }
  }
}
