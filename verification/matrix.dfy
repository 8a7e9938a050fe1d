/** The bit-matrix helpers of project/utils/utils.go, on value-semantics
    matrices: a matrix is a sequence of rows, and Go's nil slice is the empty
    sequence. Slices that share storage in Go are copies here. */
module Matrices {
  import opened Errors
  import opened Bytes
  import ModArith

  /** The panic message for `divideMatrix` on a matrix with more rows than columns. */
  const TooManyRows: string := "divideMatrix: cols must be greater than or equal to rows"

  type Matrix = seq<seq<byte>>

  /** Every row has exactly `cols` entries and there are `rows` rows. */
  predicate Rectangular(m: Matrix, rows: nat, cols: nat) {
    |m| == rows && forall j :: 0 <= j < |m| ==> |m[j]| == cols
  }

  /** `r` is the transpose of the rows x cols matrix `m`. */
  predicate IsTransposeOf(r: Matrix, m: Matrix, rows: nat, cols: nat)
    requires Rectangular(m, rows, cols)
  {
    Rectangular(r, cols, rows) && forall i, j :: 0 <= i < cols && 0 <= j < rows ==> r[i][j] == m[j][i]
  }

  /** `TransposeMatrix`: the reference transpose. It reads `matrix[0]`, so the
      matrix must have a row, and row j must reach column len(matrix[0]) - 1. */
  function TransposeMatrix(m: Matrix): (r: Matrix)
    requires |m| > 0 && forall j :: 0 <= j < |m| ==> |m[j]| >= |m[0]|
    ensures |r| == |m[0]|
    ensures forall i :: 0 <= i < |r| ==> |r[i]| == |m|
    ensures forall i, j :: 0 <= i < |r| && 0 <= j < |m| ==> r[i][j] == m[j][i]
  {
    seq(|m[0]|, i requires 0 <= i < |m[0]| => seq(|m|, j requires 0 <= j < |m| => m[j][i]))
  }

  /** On a non-empty rectangular matrix with at least one column, transposing
      twice gives the matrix back. */
  lemma TransposeInvolution(m: Matrix, rows: nat, cols: nat)
    requires Rectangular(m, rows, cols) && rows > 0 && cols > 0
    ensures IsTransposeOf(TransposeMatrix(m), m, rows, cols)
    ensures TransposeMatrix(TransposeMatrix(m)) == m
  {
    var t := TransposeMatrix(m);
    var tt := TransposeMatrix(t);
    assert |tt| == |m|;
    forall j | 0 <= j < |m|
      ensures tt[j] == m[j]
    {
      assert |tt[j]| == |m[j]|;
    }
  }

  /** `padMatrix(matrix, size)`: a size x size zero matrix with row i of the
      input copied over its prefix (Go's `copy` stops at the shorter slice). */
  function PadMatrix(m: Matrix, size: nat): (r: Matrix)
    ensures Rectangular(r, size, size)
    ensures forall i, j :: 0 <= i < size && 0 <= j < size ==>
      r[i][j] == if i < |m| && j < |m[i]| then m[i][j] else 0
  {
    seq(size, i requires 0 <= i < size =>
      seq(size, j requires 0 <= j < size => if i < |m| && j < |m[i]| then m[i][j] else 0))
  }

  /** `unpadMatrix(matrix, rows, cols)`: the top-left rows x cols corner. */
  function UnpadMatrix(m: Matrix, rows: nat, cols: nat): (r: Matrix)
    requires rows <= |m| && forall i :: 0 <= i < rows ==> cols <= |m[i]|
    ensures Rectangular(r, rows, cols)
    ensures forall i :: 0 <= i < rows ==> r[i] == m[i][..cols]
  {
    seq(rows, i requires 0 <= i < rows => m[i][..cols])
  }

  /** Padding to any size covering the matrix and cutting back restores it. */
  lemma UnpadPad(m: Matrix, rows: nat, cols: nat, size: nat)
    requires Rectangular(m, rows, cols) && rows <= size && cols <= size
    ensures UnpadMatrix(PadMatrix(m, size), rows, cols) == m
  {
    var r := UnpadMatrix(PadMatrix(m, size), rows, cols);
    forall i | 0 <= i < rows
      ensures r[i] == m[i]
    {
      assert |r[i]| == |m[i]|;
    }
  }

  /** `DeepCopyMatrix`: nil for an empty matrix, otherwise fresh rows of
      len(matrix[0]) entries each holding a copy of the row's prefix. */
  function DeepCopyMatrix(m: Matrix): (r: Matrix)
    ensures |r| == |m|
    ensures |m| > 0 ==> forall i :: 0 <= i < |m| ==> |r[i]| == |m[0]|
    ensures |m| > 0 ==> forall i, j :: 0 <= i < |m| && 0 <= j < |m[0]| ==>
      r[i][j] == if j < |m[i]| then m[i][j] else 0
  {
    if |m| == 0 then []
    else
      var cols := |m[0]|;
      seq(|m|, i requires 0 <= i < |m| =>
        seq(cols, j requires 0 <= j < cols => if j < |m[i]| then m[i][j] else 0))
  }

  /** A rectangular matrix is copied exactly. */
  lemma DeepCopyRectangular(m: Matrix, rows: nat, cols: nat)
    requires Rectangular(m, rows, cols)
    ensures DeepCopyMatrix(m) == m
  {
    var r := DeepCopyMatrix(m);
    forall i | 0 <= i < rows
      ensures r[i] == m[i]
    {
    }
  }

  /** `makeSubMatrix(matrix, rowStart, rowEnd, colStart, colEnd)`. */
  function MakeSubMatrix(m: Matrix, rowStart: nat, rowEnd: nat, colStart: nat, colEnd: nat): (r: Matrix)
    requires rowStart <= rowEnd <= |m| && colStart <= colEnd
    requires forall i :: rowStart <= i < rowEnd ==> colEnd <= |m[i]|
    ensures Rectangular(r, rowEnd - rowStart, colEnd - colStart)
    ensures forall i, j :: 0 <= i < rowEnd - rowStart && 0 <= j < colEnd - colStart ==>
      r[i][j] == m[rowStart + i][colStart + j]
  {
    seq(rowEnd - rowStart, i requires 0 <= i < rowEnd - rowStart => m[rowStart + i][colStart..colEnd])
  }

  /** The index demands `mergeSubMatrices` makes of its four quadrants. */
  predicate MergeableQuadrants(a: Matrix, b: Matrix, c: Matrix, d: Matrix) {
    |a| > 0 && |b| > 0 &&
    (forall i :: 0 <= i < |a| ==> |a[i]| >= |a[0]|) &&
    |c| >= |a| && (forall i :: 0 <= i < |a| ==> |c[i]| >= |b[0]|) &&
    |b| >= |c| && (forall i :: 0 <= i < |c| ==> |b[i]| >= |a[0]|) &&
    |d| >= |c| && (forall i :: 0 <= i < |c| ==> |d[i]| >= |b[0]|)
  }

  /** `mergeSubMatrices(A, B, C, D)`: A top-left, C top-right, B bottom-left,
      D bottom-right, so that merging transposed quadrants transposes. */
  function MergeSubMatrices(a: Matrix, b: Matrix, c: Matrix, d: Matrix): (r: Matrix)
    requires MergeableQuadrants(a, b, c, d)
    ensures Rectangular(r, |a| + |c|, |a[0]| + |b[0]|)
    ensures forall i, j :: 0 <= i < |a| && 0 <= j < |a[0]| ==> r[i][j] == a[i][j]
    ensures forall i, j :: 0 <= i < |a| && |a[0]| <= j < |a[0]| + |b[0]| ==> r[i][j] == c[i][j - |a[0]|]
    ensures forall i, j :: |a| <= i < |a| + |c| && 0 <= j < |a[0]| ==> r[i][j] == b[i - |a|][j]
    ensures forall i, j :: |a| <= i < |a| + |c| && |a[0]| <= j < |a[0]| + |b[0]| ==>
      r[i][j] == d[i - |a|][j - |a[0]|]
  {
    var top, left := |a|, |a[0]|;
    var rows, cols := |a| + |c|, |a[0]| + |b[0]|;
    seq(rows, i requires 0 <= i < rows =>
      seq(cols, j requires 0 <= j < cols =>
        if i < top && j < left then a[i][j]
        else if i < top then c[i][j - left]
        else if j < left then b[i - top][j]
        else d[i - top][j - left]))
  }

  /** A power of two. */
  predicate IsPow2(n: nat) {
    n == 1 || (n > 1 && n % 2 == 0 && IsPow2(n / 2))
  }

  /** `eklundhTransposeMatrixRecursiveInner` on a square matrix whose side is
      a power of two: split into quadrants, transpose each, merge crosswise. */
  function RecursiveTranspose(m: Matrix): (r: Matrix)
    requires IsPow2(|m|) && Rectangular(m, |m|, |m|)
    ensures IsTransposeOf(r, m, |m|, |m|)
    decreases |m|
  {
    var n := |m|;
    if n == 1 then m
    else
      var mid := n / 2;
      assert IsPow2(mid) && n == 2 * mid;
      var sa, sb := MakeSubMatrix(m, 0, mid, 0, mid), MakeSubMatrix(m, 0, mid, mid, n);
      var sc, sd := MakeSubMatrix(m, mid, n, 0, mid), MakeSubMatrix(m, mid, n, mid, n);
      assert Rectangular(sa, mid, mid) && Rectangular(sb, mid, mid);
      assert Rectangular(sc, mid, mid) && Rectangular(sd, mid, mid);
      var a, b := RecursiveTranspose(sa), RecursiveTranspose(sb);
      var c, d := RecursiveTranspose(sc), RecursiveTranspose(sd);
      assert TransposedQuadrants(m, mid, a, b, c, d);
      MergeTransposedQuadrants(m, mid, a, b, c, d);
      MergeSubMatrices(a, b, c, d)
  }

  /** The four quadrants of `m`, transposed, are `a`, `b`, `c`, `d`. */
  predicate TransposedQuadrants(m: Matrix, mid: nat, a: Matrix, b: Matrix, c: Matrix, d: Matrix) {
    mid > 0 && Rectangular(m, 2 * mid, 2 * mid) &&
    IsTransposeOf(a, MakeSubMatrix(m, 0, mid, 0, mid), mid, mid) &&
    IsTransposeOf(b, MakeSubMatrix(m, 0, mid, mid, 2 * mid), mid, mid) &&
    IsTransposeOf(c, MakeSubMatrix(m, mid, 2 * mid, 0, mid), mid, mid) &&
    IsTransposeOf(d, MakeSubMatrix(m, mid, 2 * mid, mid, 2 * mid), mid, mid)
  }

  /** Merging the transposed quadrants crosswise transposes the whole. */
  lemma MergeTransposedQuadrants(m: Matrix, mid: nat, a: Matrix, b: Matrix, c: Matrix, d: Matrix)
    requires TransposedQuadrants(m, mid, a, b, c, d)
    ensures MergeableQuadrants(a, b, c, d)
    ensures IsTransposeOf(MergeSubMatrices(a, b, c, d), m, 2 * mid, 2 * mid)
  {
    assert |a[0]| == mid && |b[0]| == mid;
    MergeTopHalf(m, mid, a, b, c, d);
    MergeBottomHalf(m, mid, a, b, c, d);
  }

  /** Rows [0, mid) of the merge: quadrants `a` and `c`. */
  lemma MergeTopHalf(m: Matrix, mid: nat, a: Matrix, b: Matrix, c: Matrix, d: Matrix)
    requires TransposedQuadrants(m, mid, a, b, c, d)
    ensures MergeableQuadrants(a, b, c, d)
    ensures var r := MergeSubMatrices(a, b, c, d);
      forall i, j :: 0 <= i < mid && 0 <= j < 2 * mid ==> r[i][j] == m[j][i]
  {
    var n := 2 * mid;
    assert |a[0]| == mid && |b[0]| == mid;
    var r := MergeSubMatrices(a, b, c, d);
    forall i, j | 0 <= i < mid && 0 <= j < mid
      ensures r[i][j] == m[j][i]
    {
      QuadrantEntry(m, a, 0, mid, 0, mid, j, i);
    }
    forall i, j | 0 <= i < mid && mid <= j < n
      ensures r[i][j] == m[j][i]
    {
      QuadrantEntry(m, c, mid, n, 0, mid, j, i);
    }
  }

  /** Rows [mid, 2 mid) of the merge: quadrants `b` and `d`. */
  lemma MergeBottomHalf(m: Matrix, mid: nat, a: Matrix, b: Matrix, c: Matrix, d: Matrix)
    requires TransposedQuadrants(m, mid, a, b, c, d)
    ensures MergeableQuadrants(a, b, c, d)
    ensures var r := MergeSubMatrices(a, b, c, d);
      forall i, j :: mid <= i < 2 * mid && 0 <= j < 2 * mid ==> r[i][j] == m[j][i]
  {
    var n := 2 * mid;
    assert |a[0]| == mid && |b[0]| == mid;
    var r := MergeSubMatrices(a, b, c, d);
    forall i, j | mid <= i < n && 0 <= j < mid
      ensures r[i][j] == m[j][i]
    {
      QuadrantEntry(m, b, 0, mid, mid, n, j, i);
    }
    forall i, j | mid <= i < n && mid <= j < n
      ensures r[i][j] == m[j][i]
    {
      QuadrantEntry(m, d, mid, n, mid, n, j, i);
    }
  }

  /** Entry (row, col) of the matrix, seen through the transpose of the
      quadrant that holds it. */
  lemma QuadrantEntry(m: Matrix, t: Matrix, rowStart: nat, rowEnd: nat, colStart: nat, colEnd: nat, row: nat, col: nat)
    requires rowStart <= rowEnd <= |m| && colStart <= colEnd
    requires forall k :: rowStart <= k < rowEnd ==> colEnd <= |m[k]|
    requires IsTransposeOf(t, MakeSubMatrix(m, rowStart, rowEnd, colStart, colEnd), rowEnd - rowStart, colEnd - colStart)
    requires rowStart <= row < rowEnd && colStart <= col < colEnd
    ensures t[col - colStart][row - rowStart] == m[row][col]
  {
    var sub := MakeSubMatrix(m, rowStart, rowEnd, colStart, colEnd);
    assert t[col - colStart][row - rowStart] == sub[row - rowStart][col - colStart];
  }

  /** A matrix has one transpose. */
  lemma TransposeUnique(r1: Matrix, r2: Matrix, m: Matrix, rows: nat, cols: nat)
    requires Rectangular(m, rows, cols)
    requires IsTransposeOf(r1, m, rows, cols) && IsTransposeOf(r2, m, rows, cols)
    ensures r1 == r2
  {
    forall i | 0 <= i < cols
      ensures r1[i] == r2[i]
    {
      forall j | 0 <= j < rows
        ensures r1[i][j] == r2[i][j]
      {
        assert r1[i][j] == m[j][i];
      }
    }
  }

  /** The recursive variant agrees with the reference transpose. */
  lemma RecursiveTransposeIsTranspose(m: Matrix)
    requires IsPow2(|m|) && Rectangular(m, |m|, |m|)
    ensures RecursiveTranspose(m) == TransposeMatrix(m)
  {
    TransposeInvolution(m, |m|, |m|);
    TransposeUnique(RecursiveTranspose(m), TransposeMatrix(m), m, |m|, |m|);
  }

  /** The number of base blocks, rows x rows, that `divideMatrix` cuts. */
  function NumBaseBlocks(rows: nat, cols: nat): nat
    requires rows > 0
  {
    cols / rows
  }

  /** The number of blocks including the zero-padded last one, which is
      also the length of the nil prefix. */
  function NumBlocks(rows: nat, cols: nat): nat
    requires rows > 0
  {
    cols / rows + (if cols % rows != 0 then 1 else 0)
  }

  lemma BlockFits(b: nat, rows: nat, cols: nat)
    requires rows > 0 && b < cols / rows
    ensures b * rows + rows <= cols
  {
    var q := cols / rows;
    assert cols == q * rows + cols % rows;
    ModArith.MulNonneg(q - b - 1, rows);
    assert q * rows - (b * rows + rows) == (q - b - 1) * rows;
  }

  /** Columns [start, start + width) of every row. */
  function ColumnBlock(m: Matrix, start: nat, width: nat): (r: Matrix)
    requires forall j :: 0 <= j < |m| ==> |m[j]| >= start + width
    ensures Rectangular(r, |m|, width)
    ensures forall j, c :: 0 <= j < |m| && 0 <= c < width ==> r[j][c] == m[j][start + c]
  {
    seq(|m|, j requires 0 <= j < |m| => m[j][start..start + width])
  }

  lemma AllBlocksFit(rows: nat, cols: nat)
    requires rows > 0
    ensures forall b :: 0 <= b < cols / rows ==> b * rows + rows <= cols
  {
    forall b | 0 <= b < cols / rows
      ensures b * rows + rows <= cols
    {
      BlockFits(b, rows, cols);
    }
  }

  /** The base blocks of `divideMatrix`: block b holds columns
      [b * rows, b * rows + rows) of every row. */
  function BaseBlocks(m: Matrix, rows: nat, cols: nat): (r: seq<Matrix>)
    requires 0 < rows && forall j :: 0 <= j < |m| ==> |m[j]| >= cols
    ensures |r| == NumBaseBlocks(rows, cols)
    ensures forall b :: 0 <= b < |r| ==> b * rows + rows <= cols && r[b] == ColumnBlock(m, b * rows, rows)
  {
    AllBlocksFit(rows, cols);
    seq(cols / rows, b requires 0 <= b < cols / rows => ColumnBlock(m, b * rows, rows))
  }

  /** Columns [start, cols) of a row, zero-padded to `width` entries as
      `copy` into a fresh `make([]byte, width)` leaves them. */
  function PaddedRow(row: seq<byte>, start: nat, cols: nat, width: nat): (r: seq<byte>)
    requires start <= cols <= |row| && cols - start <= width
    ensures |r| == width
    ensures forall c :: 0 <= c < width ==> r[c] == if start + c < cols then row[start + c] else 0
  {
    row[start..cols] + Zeros(width - (cols - start))
  }

  /** The last block of `divideMatrix` when rows does not divide cols:
      len(matrix) nil rows, then each row's remaining columns padded with
      zeros to `rows` entries. */
  function PaddedBlock(m: Matrix, rows: nat, cols: nat): (blk: Matrix)
    requires 0 < rows && forall j :: 0 <= j < |m| ==> |m[j]| >= cols
    ensures |blk| == 2 * |m|
    ensures forall j :: 0 <= j < |m| ==> blk[j] == []
    ensures forall j :: |m| <= j < 2 * |m| ==>
      blk[j] == PaddedRow(m[j - |m|], NumBaseBlocks(rows, cols) * rows, cols, rows)
  {
    var start := NumBaseBlocks(rows, cols) * rows;
    assert start + cols % rows == cols;
    var lower := seq(|m|, j requires 0 <= j < |m| => PaddedRow(m[j], start, cols, rows));
    var blk := seq(|m|, _ => []) + lower;
    assert forall j :: |m| <= j < 2 * |m| ==> blk[j] == lower[j - |m|];
    blk
  }

  /** `divideMatrix(matrix, rows, cols)`: cuts the columns into consecutive
      rows x rows blocks, the last one zero-padded on the right. It panics
      when rows > cols, and divides by zero when rows = 0. Because the result
      is allocated with `make(.., numMatrices)` and then appended to, it
      starts with numMatrices nil entries; the padded block likewise starts
      with len(matrix) nil rows before its padded rows. */
  function DivideMatrix(m: Matrix, rows: nat, cols: nat): (r: Result<seq<Matrix>>)
    requires forall j :: 0 <= j < |m| ==> |m[j]| >= cols
    ensures r.Err? <==> rows > cols || rows == 0
    ensures r.Ok? ==> |r.value| == 2 * NumBlocks(rows, cols)
    ensures r.Ok? ==> forall t :: 0 <= t < NumBlocks(rows, cols) ==> r.value[t] == []
    ensures r.Ok? ==> forall b :: 0 <= b < NumBaseBlocks(rows, cols) ==>
      r.value[NumBlocks(rows, cols) + b] == BaseBlocks(m, rows, cols)[b]
    ensures r.Ok? && cols % rows != 0 ==> r.value[|r.value| - 1] == PaddedBlock(m, rows, cols)
  {
    if rows > cols then Err(TooManyRows)
    else if rows == 0 then Err("integer divide by zero")
    else
      var numMatrices := NumBlocks(rows, cols);
      var prefix: seq<Matrix> := seq(numMatrices, _ => []);
      var padded: seq<Matrix> := if cols % rows != 0 then [PaddedBlock(m, rows, cols)] else [];
      Ok(prefix + BaseBlocks(m, rows, cols) + padded)
  }
}
