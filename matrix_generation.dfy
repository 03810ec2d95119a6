/**
 * Builders of mixing matrices (src/mixing_matrixes/matrixes_generation.py):
 * the matrix of the modified multidimensional linear register and the
 * one-round and r-round matrices of Speck. Entry (x, y) of a mixing matrix
 * says whether input bit x reaches output bit y.
 */
module MatrixGeneration {
  import opened Bits
  import opened Wrappers
  import opened MatrixUtils

  datatype MatrixError =
    | CellSizeMismatch     // the modifying matrix is not r x r
    | UnsupportedBlockSize // the Speck block size is not 32, 48, 64, 96 or 128
    | PowerBelowOne        // a Speck power below 1 was requested

  /** Block b of width r holds exactly the positions b*r .. b*r + r - 1. */
  lemma BlockOf(v: nat, b: nat, r: nat)
    requires r > 0
    ensures b * r <= v < b * r + r <==> v / r == b
    ensures v / r == b ==> v % r == v - b * r
  {
    if b * r <= v < b * r + r {
      DivModUnique(v, r, b, v - b * r);
    }
  }

  /** Same offset in consecutive blocks means a distance of exactly r. */
  lemma NextBlock(x: nat, y: nat, r: nat)
    requires r > 0
    ensures (x / r == y / r + 1 && x % r == y % r) <==> x == y + r
  {
    if x == y + r {
      DivModAddMultiple(y, 1, r);
    }
  }

  // ---------------------------------------------------------------------
  // construct_matrix_MMLR

  /**
   * The entry of the shift part once the identity blocks of cells 1..k have
   * been written: the diagonal r places below the main one, in the first k
   * columns of blocks.
   */
  function ShiftEntry(r: nat, k: nat, x: nat, y: nat): int
  {
    if y < k * r && x == y + r then 1 else 0
  }

  /** The entry once the blocks of the taps in ps have been written over the shift part. */
  function TapEntry(r: nat, n: nat, ps: seq<nat>, mt: Matrix, x: nat, y: nat): int
    requires r > 0 && IsMatrix(mt, r, r)
  {
    if n == 0 then 0
    else if (n - 1) * r <= y < (n - 1) * r + r && x / r in ps then mt[x % r][y - (n - 1) * r]
    else ShiftEntry(r, n - 1, x, y)
  }

  /** The mixing matrix of the register with n cells of r bits, taps pp and modifying matrix mt. */
  function MmlrMatrix(r: nat, n: nat, pp: seq<nat>, mt: Matrix): (m: Matrix)
    requires IsMatrix(mt, r, r)
    ensures IsMatrix(m, n * r, n * r)
  {
    if r == 0 then Zeros(0, 0)
    else seq(n * r, x requires 0 <= x < n * r => seq(n * r, y requires 0 <= y < n * r => TapEntry(r, n, pp, mt, x, y)))
  }

  /** `np.eye(r)` */
  method Eye(r: nat) returns (e: array2<int>)
    ensures fresh(e) && e.Length0 == r && e.Length1 == r
    ensures forall u, v :: 0 <= u < r && 0 <= v < r ==> e[u, v] == if u == v then 1 else 0
  {
    e := new int[r, r]((_, _) => 0);
    var i := 0;
    while i < r
      invariant 0 <= i <= r
      invariant forall u, v :: 0 <= u < r && 0 <= v < r ==> e[u, v] == if u == v && u < i then 1 else 0
    {
      e[i, i] := 1;
      i := i + 1;
    }
  }

  /** Writing the identity block of cell i + 1 extends the shift part by one block. */
  lemma ShiftStep(r: nat, i: nat, x: nat, y: nat, posX: nat, posY: nat)
    requires r > 0 && posX == (i + 1) * r && posY == i * r
    ensures ShiftEntry(r, i + 1, x, y) ==
      if posX <= x < posX + r && posY <= y < posY + r
      then (if x - posX == y - posY then 1 else 0)
      else ShiftEntry(r, i, x, y)
  {
  }

  /** Writing the block of tap p over the matrix of the taps ps gives the matrix of the taps ps + [p]. */
  lemma TapStep(r: nat, n: nat, ps: seq<nat>, p: nat, mt: Matrix, x: nat, y: nat)
    requires r > 0 && n >= 1 && IsMatrix(mt, r, r)
    ensures TapEntry(r, n, ps + [p], mt, x, y) ==
      if p * r <= x < p * r + r && (n - 1) * r <= y < (n - 1) * r + r
      then mt[x - p * r][y - (n - 1) * r]
      else TapEntry(r, n, ps, mt, x, y)
  {
    BlockOf(x, p, r);
    assert x / r in ps + [p] <==> x / r in ps || x / r == p;
  }

  /** The loop over the cells 0..n-2 writing identity blocks into a zero matrix. */
  method WriteShiftBlocks(matrix: array2<int>, r: nat, n: nat)
    requires r > 0 && n >= 1 && matrix.Length0 == n * r && matrix.Length1 == n * r
    requires forall x, y :: 0 <= x < n * r && 0 <= y < n * r ==> matrix[x, y] == 0
    modifies matrix
    ensures forall x, y :: 0 <= x < n * r && 0 <= y < n * r ==> matrix[x, y] == ShiftEntry(r, n - 1, x, y)
  {
    var size := n * r;
    var shiftMatrix := Eye(r);
    var i := 0;
    while i < n - 1
      invariant 0 <= i <= n - 1
      invariant forall x, y :: 0 <= x < size && 0 <= y < size ==> matrix[x, y] == ShiftEntry(r, i, x, y)
      invariant forall u, v :: 0 <= u < r && 0 <= v < r ==> shiftMatrix[u, v] == if u == v then 1 else 0
    {
      var posX, posY := i * r + r, i * r;
      assert posX == (i + 1) * r;
      assert posX + r <= size by { MulLe(i + 2, n, r); }
      CopyBlock(matrix, posX, posY, shiftMatrix);
      forall x, y | 0 <= x < size && 0 <= y < size ensures matrix[x, y] == ShiftEntry(r, i + 1, x, y) {
        ShiftStep(r, i, x, y, posX, posY);
      }
      i := i + 1;
    }
  }

  /** The loop over the taps writing mt into the last column of blocks. */
  method WriteTapBlocks(matrix: array2<int>, r: nat, n: nat, pickupPoints: seq<nat>, mt: array2<int>)
    requires r > 0 && n >= 1 && matrix.Length0 == n * r && matrix.Length1 == n * r
    requires mt.Length0 == r && mt.Length1 == r && matrix != mt
    requires forall k :: 0 <= k < |pickupPoints| ==> pickupPoints[k] < n
    requires forall x, y :: 0 <= x < n * r && 0 <= y < n * r ==> matrix[x, y] == ShiftEntry(r, n - 1, x, y)
    modifies matrix
    ensures forall x, y :: 0 <= x < n * r && 0 <= y < n * r ==>
      matrix[x, y] == TapEntry(r, n, pickupPoints, Snapshot(mt), x, y)
  {
    var size := n * r;
    ghost var m := Snapshot(mt);
    var posY := (n - 1) * r;
    assert posY + r == size;
    var t := 0;
    while t < |pickupPoints|
      invariant 0 <= t <= |pickupPoints|
      invariant forall x, y :: 0 <= x < size && 0 <= y < size ==> matrix[x, y] == TapEntry(r, n, pickupPoints[..t], m, x, y)
    {
      var point := pickupPoints[t];
      var posX := point * r;
      assert posX + r <= size by {
        MulLe(point + 1, n, r);
      }
      CopyBlock(matrix, posX, posY, mt);
      forall x, y | 0 <= x < size && 0 <= y < size
        ensures matrix[x, y] == TapEntry(r, n, pickupPoints[..t + 1], m, x, y)
      {
        assert pickupPoints[..t + 1] == pickupPoints[..t] + [point];
        TapStep(r, n, pickupPoints[..t], point, m, x, y);
      }
      t := t + 1;
    }
    assert pickupPoints[..|pickupPoints|] == pickupPoints;
  }

  /**
   * `construct_matrix_MMLR`: fails unless mt is r x r; otherwise writes an
   * identity block below the diagonal for each of the cells 1..n-1 and the
   * block mt into the last column of blocks for every tap.
   */
  method ConstructMatrixMmlr(r: int, n: nat, pickupPoints: seq<nat>, mt: array2<int>)
    returns (res: Result<array2<int>, MatrixError>)
    requires forall k :: 0 <= k < |pickupPoints| ==> pickupPoints[k] < n
    ensures res.Failure? <==> r != mt.Length0 || r != mt.Length1
    ensures res.Success? ==> fresh(res.value) && Snapshot(res.value) == MmlrMatrix(r, n, pickupPoints, Snapshot(mt))
  {
    if r != mt.Length0 || r != mt.Length1 {
      return Failure(CellSizeMismatch);
    }
    var size := n * r;
    var matrix := NewZeros(size, size);
    if r == 0 || n == 0 {
      return Success(matrix);
    }
    WriteShiftBlocks(matrix, r, n);
    WriteTapBlocks(matrix, r, n, pickupPoints, mt);
    MatrixEq(Snapshot(matrix), MmlrMatrix(r, n, pickupPoints, Snapshot(mt)), size, size);
    return Success(matrix);
  }

  /** For each cell i + 1 with i < n - 1, its block in column of blocks i is the r x r identity. */
  lemma MmlrShiftBlock(r: nat, n: nat, pp: seq<nat>, mt: Matrix, i: nat, u: nat, v: nat)
    requires IsMatrix(mt, r, r) && i + 1 < n && u < r && v < r
    ensures (i + 1) * r + u < n * r && i * r + v < n * r
    ensures MmlrMatrix(r, n, pp, mt)[(i + 1) * r + u][i * r + v] == if u == v then 1 else 0
  {
    MulLe(i + 2, n, r);
    MulLe(i + 1, n - 1, r);
  }

  /** For each tap p, the block in row of blocks p and the last column of blocks is mt. */
  lemma MmlrTapBlock(r: nat, n: nat, pp: seq<nat>, mt: Matrix, p: nat, u: nat, v: nat)
    requires IsMatrix(mt, r, r) && p in pp && p < n && u < r && v < r
    ensures p * r + u < n * r && (n - 1) * r + v < n * r
    ensures MmlrMatrix(r, n, pp, mt)[p * r + u][(n - 1) * r + v] == mt[u][v]
  {
    var x, y := p * r + u, (n - 1) * r + v;
    assert (p + 1) * r == p * r + r && (n - 1) * r + r == n * r;
    assert x < n * r by { MulLe(p + 1, n, r); }
    assert x / r == p && x % r == u by { BlockOf(x, p, r); }
    assert MmlrMatrix(r, n, pp, mt)[x][y] == TapEntry(r, n, pp, mt, x, y);
  }

  /**
   * Every other entry is zero: a nonzero entry lies in an identity block
   * (row of blocks one below its column of blocks, which is not the last)
   * or in the block of a tap (last column of blocks).
   */
  lemma MmlrZeroElsewhere(r: nat, n: nat, pp: seq<nat>, mt: Matrix, x: nat, y: nat)
    requires IsMatrix(mt, r, r) && x < n * r && y < n * r
    requires MmlrMatrix(r, n, pp, mt)[x][y] != 0
    ensures r > 0
    ensures (y / r + 1 < n && x / r == y / r + 1) || (y / r == n - 1 && x / r in pp)
  {
    assert r > 0 && n > 0;
    var e := MmlrMatrix(r, n, pp, mt)[x][y];
    assert e == TapEntry(r, n, pp, mt, x, y);
    if (n - 1) * r <= y < (n - 1) * r + r && x / r in pp {
      BlockOf(y, n - 1, r);
    } else {
      assert y < (n - 1) * r && x == y + r;
      NextBlock(x, y, r);
      DivBelow(y, r, n - 1);
    }
  }

  /** A single cell tapped at 0: the mixing matrix is the modifying matrix itself. */
  lemma MmlrSingleCell(r: nat, mt: Matrix)
    requires IsMatrix(mt, r, r)
    ensures MmlrMatrix(r, 1, [0], mt) == mt
  {
    if r > 0 {
      forall x, y | 0 <= x < r && 0 <= y < r ensures MmlrMatrix(r, 1, [0], mt)[x][y] == mt[x][y] {
        BlockOf(x, 0, r);
      }
      MatrixEq(MmlrMatrix(r, 1, [0], mt), mt, r, r);
    }
  }

  // ---------------------------------------------------------------------
  // construct_matrix_SPECK: the blocks

  /** The Speck block sizes construct_matrix_SPECK accepts. */
  const SpeckSizes: seq<int> := [32, 48, 64, 96, 128]

  predicate IsSpeckSize(size: int)
  {
    size in SpeckSizes
  }

  /** The sizes for which the one-round layout has two non-empty halves. */
  predicate EvenSize(size: int)
  {
    size >= 2 && size % 2 == 0
  }

  /** The rotation amounts: 7 and 2 for the 32-bit block, 8 and 3 otherwise. */
  function Alpha(size: int): nat
  {
    if size == 32 then 7 else 8
  }

  function Beta(size: int): nat
  {
    if size == 32 then 2 else 3
  }

  /** The column of the 1 in row i of the left beta-shift block. */
  function BetaColumn(h: nat, beta: nat, i: nat): (c: nat)
    requires h > 0
    ensures c < h
  {
    (-(i + 1) - beta + h) % h
  }

  /** The column of the 1 in row i of the right alpha-shift block. */
  function AlphaColumn(h: nat, alpha: nat, i: nat): (c: nat)
    requires h > 0
    ensures c < h
  {
    (-(i + 1) + alpha + h) % h
  }

  /** The h x h matrix with a single 1 in each row i, at column col(i). */
  function ShiftBlock(h: nat, col: nat -> nat): (m: Matrix)
    ensures IsMatrix(m, h, h)
  {
    seq(h, i requires 0 <= i < h => seq(h, j requires 0 <= j < h => if j == col(i) then 1 else 0))
  }

  function LeftBetaShift(h: nat, beta: nat): (m: Matrix)
    requires h > 0
    ensures IsMatrix(m, h, h)
  {
    ShiftBlock(h, i => BetaColumn(h, beta, i))
  }

  function RightAlphaShift(h: nat, alpha: nat): (m: Matrix)
    requires h > 0
    ensures IsMatrix(m, h, h)
  {
    ShiftBlock(h, i => AlphaColumn(h, alpha, i))
  }

  /** Row i holds ones in its first h - i columns. */
  function Triangular(h: nat): (m: Matrix)
    ensures IsMatrix(m, h, h)
  {
    seq(h, i requires 0 <= i < h => seq(h, j requires 0 <= j < h => if j < h - i then 1 else 0))
  }

  /** The triangular block is one exactly above the anti-diagonal. */
  lemma TriangularEntry(h: nat, i: nat, j: nat)
    requires i < h && j < h
    ensures Triangular(h)[i][j] == 1 <==> i + j < h
    ensures Triangular(h)[i][j] == 0 <==> i + j >= h
  {
  }

  /** The number of entries equal to 1 in a row. */
  function Ones(row: seq<int>): nat
  {
    if |row| == 0 then 0 else Ones(row[..|row| - 1]) + (if row[|row| - 1] == 1 then 1 else 0)
  }

  lemma {:induction false} OnesOneHot(row: seq<int>, c: nat)
    requires forall j :: 0 <= j < |row| ==> row[j] == if j == c then 1 else 0
    ensures Ones(row) == if c < |row| then 1 else 0
  {
    if |row| > 0 {
      OnesOneHot(row[..|row| - 1], c);
    }
  }

  /** (d - i) mod h differs for different i in [0, h). */
  lemma ColumnsDistinct(h: nat, d: int, i1: nat, i2: nat)
    requires h > 0 && i1 < h && i2 < h && i1 != i2
    ensures (d - i1) % h != (d - i2) % h
  {
    var a, b := d - i1, d - i2;
    if a % h == b % h {
      var q := a / h - b / h;
      assert b - a == i1 - i2;
      assert a - b == q * h;
      if q >= 1 {
        MulLe(1, q, h);
      } else if q <= -1 {
        MulLe(q, -1, h);
      }
    }
  }

  /**
   * Each shift block has exactly one 1 in each row, zeros elsewhere, and its
   * ones sit in distinct columns: it is a permutation matrix.
   */
  lemma ShiftBlocksArePermutations(size: int, i: nat, i': nat)
    requires IsSpeckSize(size) && i < size / 2 && i' < size / 2
    ensures var h := size / 2;
      Ones(LeftBetaShift(h, Beta(size))[i]) == 1 && Ones(RightAlphaShift(h, Alpha(size))[i]) == 1
    ensures var h := size / 2;
      i != i' ==> BetaColumn(h, Beta(size), i) != BetaColumn(h, Beta(size), i') &&
                  AlphaColumn(h, Alpha(size), i) != AlphaColumn(h, Alpha(size), i')
  {
    SpeckSizeHalves(size);
    ShiftRowsOneHot(size / 2, Alpha(size), Beta(size), i, i');
  }

  lemma ShiftRowsOneHot(h: nat, alpha: nat, beta: nat, i: nat, i': nat)
    requires h > 0 && i < h && i' < h
    ensures Ones(LeftBetaShift(h, beta)[i]) == 1 && Ones(RightAlphaShift(h, alpha)[i]) == 1
    ensures i != i' ==> BetaColumn(h, beta, i) != BetaColumn(h, beta, i') &&
                        AlphaColumn(h, alpha, i) != AlphaColumn(h, alpha, i')
  {
    OnesOneHot(LeftBetaShift(h, beta)[i], BetaColumn(h, beta, i));
    OnesOneHot(RightAlphaShift(h, alpha)[i], AlphaColumn(h, alpha, i));
    if i != i' {
      ColumnsDistinct(h, h - 1 - beta, i, i');
      ColumnsDistinct(h, h - 1 + alpha, i, i');
    }
  }

  /** `change_column_order(change_column_order(right_alpha_shift) @ change_column_order(triangular))` */
  function SpeckBottom(h: nat, alpha: nat): (m: Matrix)
    requires h > 0
    ensures IsMatrix(m, h, h)
  {
    ColumnReversed(Product(ColumnReversed(RightAlphaShift(h, alpha), h), ColumnReversed(Triangular(h), h), h), h)
  }

  /** Row i of the bottom blocks is one exactly in the columns up to the alpha-shift column of row i. */
  lemma SpeckBottomEntry(h: nat, alpha: nat, i: nat, j: nat)
    requires h > 0 && i < h && j < h
    ensures SpeckBottom(h, alpha)[i][j] == if j <= AlphaColumn(h, alpha, i) then 1 else 0
  {
    var c := AlphaColumn(h, alpha, i);
    BottomPicksRow(h, alpha, i, j);
    assert Triangular(h)[h - 1 - c][j] == if j <= c then 1 else 0 by { TriangularEntry(h, h - 1 - c, j); }
  }

  /** Entry (i, j) of the bottom block is entry (h - 1 - col(i), j) of the triangular block. */
  lemma BottomPicksRow(h: nat, alpha: nat, i: nat, j: nat)
    requires h > 0 && i < h && j < h
    ensures SpeckBottom(h, alpha)[i][j] == Triangular(h)[h - 1 - AlphaColumn(h, alpha, i)][j]
  {
    var ras, tri := ColumnReversed(RightAlphaShift(h, alpha), h), ColumnReversed(Triangular(h), h);
    var c := AlphaColumn(h, alpha, i);
    var k := h - 1 - j;
    assert SpeckBottom(h, alpha)[i][j] == Product(ras, tri, h)[i][k];
    assert Product(ras, tri, h)[i][k] == tri[h - 1 - c][k] by {
      ReversedShiftRow(h, alpha, i);
      DotSingle(ras[i], tri, k, h, h - 1 - c);
    }
  }

  /** Row i of the column-reversed right alpha shift is one only in column h - 1 - col(i). */
  lemma ReversedShiftRow(h: nat, alpha: nat, i: nat)
    requires h > 0 && i < h
    ensures var row, c := ColumnReversed(RightAlphaShift(h, alpha), h)[i], h - 1 - AlphaColumn(h, alpha, i);
      |row| == h && row[c] == 1 && forall t :: 0 <= t < h && t != c ==> row[t] == 0
  {
  }

  /** The 2h x 2h matrix [[topLeft, topRight], [bottom, bottom]]. */
  function Assembled(h: nat, topLeft: Matrix, topRight: Matrix, bottom: Matrix): (m: Matrix)
    requires IsMatrix(topLeft, h, h) && IsMatrix(topRight, h, h) && IsMatrix(bottom, h, h)
    ensures IsMatrix(m, 2 * h, 2 * h)
  {
    seq(2 * h, x requires 0 <= x < 2 * h => seq(2 * h, y requires 0 <= y < 2 * h =>
      if x < h then (if y < h then topLeft[x][y] else topRight[x][y - h])
      else (if y < h then bottom[x - h][y] else bottom[x - h][y - h])))
  }

  /** The one-round Speck matrix given the block written at the top right. */
  function SpeckMatrixWith(size: int, topRight: Matrix): (m: Matrix)
    requires EvenSize(size) && IsMatrix(topRight, size / 2, size / 2)
    ensures IsMatrix(m, size, size)
  {
    Layout(size / 2, topRight, SpeckBottom(size / 2, Alpha(size)))
  }

  /** The column-reversed [[triangular, topRight], [bottom, bottom]] of half-size h. */
  function Layout(h: nat, topRight: Matrix, bottom: Matrix): (m: Matrix)
    requires IsMatrix(topRight, h, h) && IsMatrix(bottom, h, h)
    ensures IsMatrix(m, 2 * h, 2 * h)
  {
    ColumnReversed(Assembled(h, Triangular(h), topRight, bottom), 2 * h)
  }

  /** The matrix `construct_matrix_SPECK` returns: its top-right block is what the cast returned, zeros. */
  function SpeckMatrix(size: int): (m: Matrix)
    requires EvenSize(size)
    ensures IsMatrix(m, size, size)
  {
    SpeckMatrixWith(size, Zeros(size / 2, size / 2))
  }

  /** The matrix the builder evidently means: the top-right block is the saturated sum. */
  function IntendedSpeckMatrix(size: int): (m: Matrix)
    requires EvenSize(size)
    ensures IsMatrix(m, size, size)
  {
    var h := size / 2;
    SpeckMatrixWith(size, Saturate(Sum(LeftBetaShift(h, Beta(size)), Triangular(h), h)))
  }

  /** Entry (x, y) of the column-reversed assembled matrix, block by block. */
  lemma ReversedAssembledEntry(h: nat, tl: Matrix, tr: Matrix, b: Matrix, x: nat, y: nat)
    requires IsMatrix(tl, h, h) && IsMatrix(tr, h, h) && IsMatrix(b, h, h) && x < 2 * h && y < 2 * h
    ensures ColumnReversed(Assembled(h, tl, tr, b), 2 * h)[x][y] ==
      if x < h then (if y < h then tr[x][h - 1 - y] else tl[x][2 * h - 1 - y])
      else (if y < h then b[x - h][h - 1 - y] else b[x - h][2 * h - 1 - y])
  {
  }

  /**
   * The entries of the one-round Speck matrix as built: the top rows have
   * ones only from column x + h on (the reversed triangular block) and a zero
   * left half; bottom row h + a holds the reversed bottom block in both halves,
   * a one where the reversed column index is at most the alpha-shift column of row a.
   */
  lemma SpeckMatrixEntry(size: int, x: nat, y: nat)
    requires EvenSize(size) && x < size && y < size
    ensures var h := size / 2;
      SpeckMatrix(size)[x][y] ==
        if x < h then (if y >= x + h then 1 else 0)
        else if y < h then (if h - 1 - y <= AlphaColumn(h, Alpha(size), x - h) then 1 else 0)
        else (if 2 * h - 1 - y <= AlphaColumn(h, Alpha(size), x - h) then 1 else 0)
  {
    SpeckMatrixIsLayout(size);
    LayoutEntry(SpeckMatrix(size), size / 2, Alpha(size), x, y);
  }

  /** Entry (x, y) of a matrix laid out with a zero top-right block and the bottom block for alpha. */
  lemma LayoutEntry(m: Matrix, h: nat, alpha: nat, x: nat, y: nat)
    requires h > 0 && x < 2 * h && y < 2 * h && m == Layout(h, Zeros(h, h), SpeckBottom(h, alpha))
    ensures m[x][y] ==
        if x < h then (if y >= x + h then 1 else 0)
        else if y < h then (if h - 1 - y <= AlphaColumn(h, alpha, x - h) then 1 else 0)
        else (if 2 * h - 1 - y <= AlphaColumn(h, alpha, x - h) then 1 else 0)
  {
    BuiltEntry(h, alpha, x, y);
  }

  /** Every supported block size is even. */
  lemma SpeckSizeHalves(size: int)
    requires IsSpeckSize(size)
    ensures EvenSize(size) && 2 * (size / 2) == size && size / 2 > 0
  {
  }

  lemma SpeckMatrixIsLayout(size: int)
    requires EvenSize(size)
    ensures SpeckMatrix(size) == Layout(size / 2, Zeros(size / 2, size / 2), SpeckBottom(size / 2, Alpha(size)))
  {
  }

  lemma BuiltEntry(h: nat, alpha: nat, x: nat, y: nat)
    requires h > 0 && x < 2 * h && y < 2 * h
    ensures Layout(h, Zeros(h, h), SpeckBottom(h, alpha))[x][y] ==
        if x < h then (if y >= x + h then 1 else 0)
        else if y < h then (if h - 1 - y <= AlphaColumn(h, alpha, x - h) then 1 else 0)
        else (if 2 * h - 1 - y <= AlphaColumn(h, alpha, x - h) then 1 else 0)
  {
    var bottom := SpeckBottom(h, alpha);
    if x < h {
      BuiltTopEntry(h, bottom, x, y);
    } else {
      var j := if y < h then h - 1 - y else 2 * h - 1 - y;
      BuiltBottomEntry(h, bottom, x, y);
      SpeckBottomEntry(h, alpha, x - h, j);
    }
  }

  lemma BuiltTopEntry(h: nat, bottom: Matrix, x: nat, y: nat)
    requires IsMatrix(bottom, h, h) && x < h && y < 2 * h
    ensures Layout(h, Zeros(h, h), bottom)[x][y] == if y >= x + h then 1 else 0
  {
    ReversedAssembledEntry(h, Triangular(h), Zeros(h, h), bottom, x, y);
    if y >= h {
      TriangularEntry(h, x, 2 * h - 1 - y);
    }
  }

  lemma BuiltBottomEntry(h: nat, bottom: Matrix, x: nat, y: nat)
    requires IsMatrix(bottom, h, h) && h <= x < 2 * h && y < 2 * h
    ensures Layout(h, Zeros(h, h), bottom)[x][y] == bottom[x - h][if y < h then h - 1 - y else 2 * h - 1 - y]
  {
    ReversedAssembledEntry(h, Triangular(h), Zeros(h, h), bottom, x, y);
  }

  /** As built, the top-left h x h region of the one-round matrix is all zero. */
  lemma SpeckTopLeftZero(size: int, x: nat, y: nat)
    requires EvenSize(size) && x < size / 2 && y < size / 2
    ensures SpeckMatrix(size)[x][y] == 0
  {
    SpeckMatrixEntry(size, x, y);
  }

  /** The saturated sum of the beta shift and the triangular block is one where either has a one. */
  lemma IntendedTopRightEntry(h: nat, beta: nat, x: nat, z: nat)
    requires h > 0 && x < h && z < h
    ensures Saturate(Sum(LeftBetaShift(h, beta), Triangular(h), h))[x][z] ==
      if z == BetaColumn(h, beta, x) || x + z < h then 1 else 0
  {
    SaturateEntries(Sum(LeftBetaShift(h, beta), Triangular(h), h), x, z);
  }

  /**
   * In the evidently intended matrix, the same region holds the reversed
   * saturated sum: a one where the beta shift or the triangular block has one.
   */
  lemma IntendedSpeckTopLeft(size: int, x: nat, y: nat)
    requires EvenSize(size) && x < size / 2 && y < size / 2
    ensures var h := size / 2;
      IntendedSpeckMatrix(size)[x][y] ==
        if h - 1 - y == BetaColumn(h, Beta(size), x) || x + (h - 1 - y) < h then 1 else 0
  {
    var h := size / 2;
    assert IntendedSpeckMatrix(size) ==
      Layout(h, Saturate(Sum(LeftBetaShift(h, Beta(size)), Triangular(h), h)), SpeckBottom(h, Alpha(size)));
    IntendedTopLeftOf(h, Beta(size), SpeckBottom(h, Alpha(size)), x, y);
  }

  lemma IntendedTopLeftOf(h: nat, beta: nat, bottom: Matrix, x: nat, y: nat)
    requires h > 0 && IsMatrix(bottom, h, h) && x < h && y < h
    ensures Layout(h, Saturate(Sum(LeftBetaShift(h, beta), Triangular(h), h)), bottom)[x][y] ==
      if h - 1 - y == BetaColumn(h, beta, x) || x + (h - 1 - y) < h then 1 else 0
  {
    var sat := Saturate(Sum(LeftBetaShift(h, beta), Triangular(h), h));
    assert Layout(h, sat, bottom)[x][y] == sat[x][h - 1 - y] by {
      ReversedAssembledEntry(h, Triangular(h), sat, bottom, x, y);
    }
    IntendedTopRightEntry(h, beta, x, h - 1 - y);
  }

  // ---------------------------------------------------------------------
  // construct_matrix_SPECK: the builder

  /** `left_betta_shift`: a one at column (-(i + 1) - beta + h) % h of each row i. */
  method NewLeftBetaShift(h: nat, beta: nat) returns (a: array2<int>)
    requires h > 0
    ensures fresh(a) && a.Length0 == h && a.Length1 == h
    ensures Snapshot(a) == LeftBetaShift(h, beta)
  {
    a := NewZeros(h, h);
    var i := 0;
    while i < h
      invariant 0 <= i <= h
      invariant forall x, y :: 0 <= x < h && 0 <= y < h ==>
        a[x, y] == if x < i && y == BetaColumn(h, beta, x) then 1 else 0
    {
      var c := (-(i + 1) - beta + h) % h;
      assert c == BetaColumn(h, beta, i);
      a[i, c] := 1;
      i := i + 1;
    }
    LeftBetaShiftFromEntries(Snapshot(a), h, beta);
  }

  lemma LeftBetaShiftFromEntries(m: Matrix, h: nat, beta: nat)
    requires h > 0 && IsMatrix(m, h, h)
    requires forall x, y :: 0 <= x < h && 0 <= y < h ==> m[x][y] == if y == BetaColumn(h, beta, x) then 1 else 0
    ensures m == LeftBetaShift(h, beta)
  {
    MatrixEq(m, LeftBetaShift(h, beta), h, h);
  }

  /** `right_alpha_shift`: a one at column (-(i + 1) + alpha + h) % h of each row i. */
  method NewRightAlphaShift(h: nat, alpha: nat) returns (a: array2<int>)
    requires h > 0
    ensures fresh(a) && a.Length0 == h && a.Length1 == h
    ensures Snapshot(a) == RightAlphaShift(h, alpha)
  {
    a := NewZeros(h, h);
    var i := 0;
    while i < h
      invariant 0 <= i <= h
      invariant forall x, y :: 0 <= x < h && 0 <= y < h ==>
        a[x, y] == if x < i && y == AlphaColumn(h, alpha, x) then 1 else 0
    {
      var c := (-(i + 1) + alpha + h) % h;
      assert c == AlphaColumn(h, alpha, i);
      a[i, c] := 1;
      i := i + 1;
    }
    RightAlphaShiftFromEntries(Snapshot(a), h, alpha);
  }

  lemma RightAlphaShiftFromEntries(m: Matrix, h: nat, alpha: nat)
    requires h > 0 && IsMatrix(m, h, h)
    requires forall x, y :: 0 <= x < h && 0 <= y < h ==> m[x][y] == if y == AlphaColumn(h, alpha, x) then 1 else 0
    ensures m == RightAlphaShift(h, alpha)
  {
    MatrixEq(m, RightAlphaShift(h, alpha), h, h);
  }

  /** `triangular`: ones in the first h - i columns of each row i. */
  method NewTriangular(h: nat) returns (a: array2<int>)
    ensures fresh(a) && a.Length0 == h && a.Length1 == h
    ensures Snapshot(a) == Triangular(h)
  {
    a := NewZeros(h, h);
    var i := 0;
    while i < h
      invariant 0 <= i <= h
      invariant forall x, y :: 0 <= x < h && 0 <= y < h ==>
        a[x, y] == if x < i && y < h - x then 1 else 0
    {
      var j := 0;
      while j < h - i
        invariant 0 <= j <= h - i
        invariant forall x, y :: 0 <= x < h && 0 <= y < h ==>
          a[x, y] == if (x < i && y < h - x) || (x == i && y < j) then 1 else 0
      {
        a[i, j] := 1;
        j := j + 1;
      }
      i := i + 1;
    }
    MatrixEq(Snapshot(a), Triangular(h), h, h);
  }

  /** `matrix_SPECK`: the four blocks written into a zero 2h x 2h matrix. */
  method Assemble(h: nat, topLeft: array2<int>, topRight: array2<int>, bottom: array2<int>) returns (m: array2<int>)
    requires topLeft.Length0 == h && topLeft.Length1 == h && topRight.Length0 == h && topRight.Length1 == h
    requires bottom.Length0 == h && bottom.Length1 == h
    ensures fresh(m) && m.Length0 == 2 * h && m.Length1 == 2 * h
    ensures Snapshot(m) == Assembled(h, Snapshot(topLeft), Snapshot(topRight), Snapshot(bottom))
  {
    m := NewZeros(h * 2, h * 2);
    CopyBlock(m, 0, 0, topLeft);
    assert forall x, y :: 0 <= x < 2 * h && 0 <= y < 2 * h ==>
      m[x, y] == if x < h && y < h then topLeft[x, y] else 0;
    CopyBlock(m, 0, h, topRight);
    assert forall x, y :: 0 <= x < 2 * h && 0 <= y < 2 * h ==>
      m[x, y] == if x < h then (if y < h then topLeft[x, y] else topRight[x, y - h]) else 0;
    CopyBlock(m, h, 0, bottom);
    assert forall x, y :: 0 <= x < 2 * h && 0 <= y < 2 * h ==>
      m[x, y] == if x < h then (if y < h then topLeft[x, y] else topRight[x, y - h])
                 else if y < h then bottom[x - h, y] else 0;
    CopyBlock(m, h, h, bottom);
    assert forall x, y :: 0 <= x < 2 * h && 0 <= y < 2 * h ==>
      m[x, y] == if x < h then (if y < h then topLeft[x, y] else topRight[x, y - h])
                 else if y < h then bottom[x - h, y] else bottom[x - h, y - h];
    AssembledFromEntries(Snapshot(m), h, Snapshot(topLeft), Snapshot(topRight), Snapshot(bottom));
  }

  /** A 2h x 2h matrix whose entries are those of the four blocks is the assembled matrix. */
  lemma AssembledFromEntries(m: Matrix, h: nat, tl: Matrix, tr: Matrix, b: Matrix)
    requires IsMatrix(m, 2 * h, 2 * h) && IsMatrix(tl, h, h) && IsMatrix(tr, h, h) && IsMatrix(b, h, h)
    requires forall x, y :: 0 <= x < 2 * h && 0 <= y < 2 * h ==>
      m[x][y] == if x < h then (if y < h then tl[x][y] else tr[x][y - h])
                 else if y < h then b[x - h][y] else b[x - h][y - h]
    ensures m == Assembled(h, tl, tr, b)
  {
    MatrixEq(m, Assembled(h, tl, tr, b), 2 * h, 2 * h);
  }

  /**
   * `construct_matrix_SPECK`: fails for an unsupported block size; otherwise
   * builds the blocks, writes them into a 2h x 2h matrix and returns its
   * column reversal. The top-right block is what the cast returns.
   */
  method ConstructMatrixSpeck(size: int) returns (res: Result<array2<int>, MatrixError>)
    ensures res.Failure? <==> !IsSpeckSize(size)
    ensures res.Failure? ==> res.error == UnsupportedBlockSize
    ensures res.Success? ==> fresh(res.value) && res.value.Length0 == size && res.value.Length1 == size
    ensures res.Success? ==> Snapshot(res.value) == SpeckMatrix(size)
  {
    if !IsSpeckSize(size) {
      return Failure(UnsupportedBlockSize);
    }
    var halfSize: nat := size / 2;
    SpeckSizeHalves(size);
    var alpha, betta := 8, 3;
    if size == 32 {
      alpha, betta := 7, 2;
    }
    assert alpha == Alpha(size) && betta == Beta(size);
    var result := BuildSpeckMatrix(halfSize, alpha, betta);
    SpeckMatrixIsLayout(size);
    return Success(result);
  }

  /** The body of construct_matrix_SPECK once the half size and the rotation amounts are fixed. */
  method BuildSpeckMatrix(halfSize: nat, alpha: nat, betta: nat) returns (result: array2<int>)
    requires halfSize > 0
    ensures fresh(result) && result.Length0 == 2 * halfSize && result.Length1 == 2 * halfSize
    ensures Snapshot(result) == Layout(halfSize, Zeros(halfSize, halfSize), SpeckBottom(halfSize, alpha))
  {
    var leftBettaShift := NewLeftBetaShift(halfSize, betta);
    var triangular := NewTriangular(halfSize);
    var topLeft := triangular;
    var sum := Add(leftBettaShift, triangular);
    var topRight := CastMatrixToIdentityFormat(sum);
    var rightAlphaShift := NewRightAlphaShift(halfSize, alpha);
    var reversedShift := ChangeColumnOrder(rightAlphaShift);
    var reversedTriangular := ChangeColumnOrder(triangular);
    var product := MatMul(reversedShift, reversedTriangular);
    var bottom := ChangeColumnOrder(product);
    assert Snapshot(bottom) == SpeckBottom(halfSize, alpha);
    var matrixSpeck := Assemble(halfSize, topLeft, topRight, bottom);
    assert Snapshot(matrixSpeck) == Assembled(halfSize, Triangular(halfSize), Zeros(halfSize, halfSize), SpeckBottom(halfSize, alpha));
    result := ChangeColumnOrder(matrixSpeck);
  }

  // ---------------------------------------------------------------------
  // construct_mixing_matrix_pow_SPECK

  /**
   * The loop of `construct_mixing_matrix_pow_SPECK` with a given cast: the
   * first power is m, each further one the cast of the previous one times m.
   */
  function CastPower(m: Matrix, size: nat, k: nat, cast: Matrix -> Matrix): (p: Matrix)
    requires k >= 1 && IsMatrix(m, size, size) && KeepsShape(cast, size)
    ensures IsMatrix(p, size, size)
    decreases k
  {
    if k == 1 then m else cast(Product(CastPower(m, size, k - 1, cast), m, size))
  }

  /** With the cast as written, every power from the second on is all zero. */
  lemma CastPowerAsWritten(m: Matrix, size: nat, k: nat)
    requires k >= 2 && IsMatrix(m, size, size)
    ensures CastPower(m, size, k, CastAsWritten) == Zeros(size, size)
  {
    CastsKeepShape(size);
    var p := CastPower(m, size, k - 1, CastAsWritten);
    assert CastPower(m, size, k, CastAsWritten) == CastAsWritten(Product(p, m, size));
  }

  /** Every entry is 0 or 1. */
  predicate IsBoolean(m: Matrix)
  {
    forall i, j :: 0 <= i < |m| && 0 <= j < |m[i]| ==> m[i][j] == 0 || m[i][j] == 1
  }

  predicate IsNonNegative(m: Matrix)
  {
    forall i, j :: 0 <= i < |m| && 0 <= j < |m[i]| ==> m[i][j] >= 0
  }

  lemma {:induction false} DotNonNegative(row: seq<int>, b: Matrix, j: nat, k: nat)
    requires k <= |row| && k <= |b| && forall t :: 0 <= t < k ==> j < |b[t]|
    requires forall t :: 0 <= t < k ==> row[t] >= 0 && b[t][j] >= 0
    ensures Dot(row, b, j, k) >= 0
  {
    if k > 0 {
      DotNonNegative(row, b, j, k - 1);
      MulLe(0, row[k - 1], b[k - 1][j]);
    }
  }

  /** The product of non-negative matrices is non-negative. */
  lemma ProductNonNegative(a: Matrix, b: Matrix, cols: nat)
    requires IsMatrix(a, |a|, |b|) && IsMatrix(b, |b|, cols) && IsNonNegative(a) && IsNonNegative(b)
    ensures IsNonNegative(Product(a, b, cols))
  {
    forall i, j | 0 <= i < |a| && 0 <= j < cols ensures Product(a, b, cols)[i][j] >= 0 {
      DotNonNegative(a[i], b, j, |b|);
    }
  }

  /** With the evidently intended cast, every power of a 0/1 matrix is a 0/1 matrix. */
  lemma {:induction false} CastPowerIntendedIsBoolean(m: Matrix, size: nat, k: nat)
    requires k >= 1 && IsMatrix(m, size, size) && IsBoolean(m)
    ensures IsBoolean(CastPower(m, size, k, Saturate))
  {
    CastsKeepShape(size);
    if k > 1 {
      var p := CastPower(m, size, k - 1, Saturate);
      CastPowerIntendedIsBoolean(m, size, k - 1);
      ProductNonNegative(p, m, size);
      var q := Product(p, m, size);
      forall i, j | 0 <= i < size && 0 <= j < size ensures Saturate(q)[i][j] == 0 || Saturate(q)[i][j] == 1 {
        SaturateEntries(q, i, j);
      }
    }
  }

  /**
   * `construct_mixing_matrix_pow_SPECK`: fails for pow < 1 (checked first)
   * and for an unsupported size; otherwise multiplies by the one-round matrix
   * pow - 1 times, casting after each product.
   */
  method ConstructMixingMatrixPowSpeck(pow: int, size: int) returns (res: Result<array2<int>, MatrixError>)
    ensures pow < 1 ==> res == Failure(PowerBelowOne)
    ensures pow >= 1 && !IsSpeckSize(size) ==> res == Failure(UnsupportedBlockSize)
    ensures pow >= 1 && IsSpeckSize(size) ==> res.Success? && fresh(res.value)
    ensures pow >= 1 && IsSpeckSize(size) ==> Snapshot(res.value) == CastPower(SpeckMatrix(size), size, pow, CastAsWritten)
  {
    if pow < 1 {
      return Failure(PowerBelowOne);
    }
    var oneRound := ConstructMatrixSpeck(size);
    var powedRes := ConstructMatrixSpeck(size);
    if oneRound.Failure? || powedRes.Failure? {
      return Failure(UnsupportedBlockSize);
    }
    var powed := CastPowers(oneRound.value, powedRes.value, size, pow, SpeckMatrix(size));
    return Success(powed);
  }

  /**
   * The loop of construct_mixing_matrix_pow_SPECK: pow - 1 times, the
   * running matrix is multiplied by the one-round matrix and cast.
   */
  method CastPowers(oneRound: array2<int>, start: array2<int>, size: nat, pow: nat, ghost m: Matrix)
    returns (powed: array2<int>)
    requires pow >= 1 && IsMatrix(m, size, size)
    requires Snapshot(oneRound) == m && Snapshot(start) == m && oneRound.Length0 == size && oneRound.Length1 == size
    requires start.Length0 == size && start.Length1 == size
    ensures (powed == start && pow == 1) || fresh(powed)
    ensures powed.Length0 == size && powed.Length1 == size
    ensures Snapshot(powed) == CastPower(m, size, pow, CastAsWritten)
  {
    CastsKeepShape(size);
    powed := start;
    var i := 0;
    while i < pow - 1
      invariant 0 <= i <= pow - 1
      invariant (powed == start && i == 0) || fresh(powed)
      invariant powed.Length0 == size && powed.Length1 == size
      invariant Snapshot(oneRound) == m
      invariant Snapshot(powed) == CastPower(m, size, i + 1, CastAsWritten)
    {
      var product := MatMul(powed, oneRound);
      powed := CastMatrixToIdentityFormat(product);
      i := i + 1;
    }
  }

  /** Hence the power builder returns the one-round matrix for pow = 1 and zeros for pow >= 2. */
  lemma SpeckPowerValues(size: int, pow: int)
    requires IsSpeckSize(size) && pow >= 1
    ensures CastPower(SpeckMatrix(size), size, pow, CastAsWritten) == if pow == 1 then SpeckMatrix(size) else Zeros(size, size)
  {
    CastsKeepShape(size);
    if pow >= 2 {
      CastPowerAsWritten(SpeckMatrix(size), size, pow);
    }
  }
}
