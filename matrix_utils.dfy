/**
 * Helpers for mixing matrices (src/mixing_matrixes/utils.py). A numpy matrix
 * is an `array2<int>`; what it holds is described by a `Matrix`, a sequence
 * of rows.
 */
module MatrixUtils {

  type Matrix = seq<seq<int>>

  /** m has the given number of rows, each of the given length. */
  predicate IsMatrix(m: Matrix, rows: nat, cols: nat)
  {
    |m| == rows && forall i :: 0 <= i < rows ==> |m[i]| == cols
  }

  /** The entries of an array, row by row. */
  function Snapshot(a: array2<int>): (m: Matrix)
    reads a
    ensures IsMatrix(m, a.Length0, a.Length1)
    ensures forall i, j :: 0 <= i < a.Length0 && 0 <= j < a.Length1 ==> m[i][j] == a[i, j]
  {
    seq(a.Length0, i requires 0 <= i < a.Length0 reads a =>
      seq(a.Length1, j requires 0 <= j < a.Length1 reads a => a[i, j]))
  }

  /** Two matrices of the same shape with the same entries are equal. */
  lemma MatrixEq(m: Matrix, m': Matrix, rows: nat, cols: nat)
    requires IsMatrix(m, rows, cols) && IsMatrix(m', rows, cols)
    requires forall i, j :: 0 <= i < rows && 0 <= j < cols ==> m[i][j] == m'[i][j]
    ensures m == m'
  {
    forall i | 0 <= i < rows ensures m[i] == m'[i] {
    }
  }

  /** `np.zeros((rows, cols))` */
  function Zeros(rows: nat, cols: nat): (z: Matrix)
    ensures IsMatrix(z, rows, cols)
  {
    seq(rows, _ => seq(cols, _ => 0))
  }

  predicate IsZero(m: Matrix)
  {
    forall i, j :: 0 <= i < |m| && 0 <= j < |m[i]| ==> m[i][j] == 0
  }

  lemma ZerosAreZero(rows: nat, cols: nat)
    ensures IsZero(Zeros(rows, cols))
  {
  }

  /** A fresh array of zeros. */
  method NewZeros(rows: nat, cols: nat) returns (a: array2<int>)
    ensures fresh(a)
    ensures a.Length0 == rows && a.Length1 == cols
    ensures Snapshot(a) == Zeros(rows, cols)
  {
    a := new int[rows, cols]((_, _) => 0);
    MatrixEq(Snapshot(a), Zeros(rows, cols), rows, cols);
  }

  // ---------------------------------------------------------------------
  // change_column_order

  /** The columns of m (of width cols) in reverse order. */
  function ColumnReversed(m: Matrix, cols: nat): (c: Matrix)
    requires IsMatrix(m, |m|, cols)
    ensures IsMatrix(c, |m|, cols)
    ensures forall i, j :: 0 <= i < |m| && 0 <= j < cols ==> c[i][j] == m[i][cols - 1 - j]
  {
    seq(|m|, i requires 0 <= i < |m| => seq(cols, j requires 0 <= j < cols => m[i][cols - 1 - j]))
  }

  /** Reversing the columns twice gives the matrix back. */
  lemma ColumnReversedInvolution(m: Matrix, cols: nat)
    requires IsMatrix(m, |m|, cols)
    ensures ColumnReversed(ColumnReversed(m, cols), cols) == m
  {
    MatrixEq(ColumnReversed(ColumnReversed(m, cols), cols), m, |m|, cols);
  }

  /**
   * `change_column_order`: a fresh matrix of the same shape whose column i is
   * column cols - 1 - i of a, copied one column at a time.
   */
  method ChangeColumnOrder(a: array2<int>) returns (b: array2<int>)
    ensures fresh(b) && b.Length0 == a.Length0 && b.Length1 == a.Length1
    ensures Snapshot(b) == ColumnReversed(Snapshot(a), a.Length1)
  {
    var rows, cols := a.Length0, a.Length1;
    b := new int[rows, cols]((_, _) => 0);
    var i := 0;
    while i < cols
      invariant 0 <= i <= cols
      invariant forall x, y :: 0 <= x < rows && 0 <= y < cols ==>
        b[x, y] == if y < i then a[x, cols - 1 - y] else 0
    {
      var x := 0;
      while x < rows
        invariant 0 <= x <= rows
        invariant forall x', y :: 0 <= x' < rows && 0 <= y < cols ==>
          b[x', y] == if y < i || (y == i && x' < x) then a[x', cols - 1 - y] else 0
      {
        b[x, i] := a[x, cols - i - 1];
        x := x + 1;
      }
      i := i + 1;
    }
    MatrixEq(Snapshot(b), ColumnReversed(Snapshot(a), cols), rows, cols);
  }

  // ---------------------------------------------------------------------
  // cast_matrix_to_identity_format

  /** Every positive entry replaced by 1; the others kept. */
  function Saturate(m: Matrix): (s: Matrix)
    ensures |s| == |m| && forall i :: 0 <= i < |m| ==> |s[i]| == |m[i]|
  {
    seq(|m|, i requires 0 <= i < |m| => seq(|m[i]|, j requires 0 <= j < |m[i]| => if m[i][j] > 0 then 1 else m[i][j]))
  }

  /** Saturating keeps the sign of every entry and caps the positive ones at 1. */
  lemma SaturateEntries(m: Matrix, i: nat, j: nat)
    requires i < |m| && j < |m[i]|
    ensures Saturate(m)[i][j] <= 1
    ensures Saturate(m)[i][j] > 0 <==> m[i][j] > 0
    ensures m[i][j] <= 0 ==> Saturate(m)[i][j] == m[i][j]
  {
  }

  /**
   * Saturating twice is saturating once, and the matrices saturation leaves
   * unchanged are exactly those with no entry above 1, so casting an
   * already cast argument again leaves it as it is.
   */
  lemma SaturateIdempotent(m: Matrix)
    ensures Saturate(Saturate(m)) == Saturate(m)
    ensures Saturate(m) == m <==> forall i, j :: 0 <= i < |m| && 0 <= j < |m[i]| ==> m[i][j] <= 1
  {
    var s := Saturate(m);
    forall i | 0 <= i < |m| ensures Saturate(s)[i] == s[i] {
    }
    if forall i, j :: 0 <= i < |m| && 0 <= j < |m[i]| ==> m[i][j] <= 1 {
      forall i | 0 <= i < |m| ensures s[i] == m[i] {
      }
    }
  }

  /**
   * `cast_matrix_to_identity_format` as written: it saturates its argument
   * in place and returns a fresh all-zero matrix of the same shape.
   */
  method CastMatrixToIdentityFormat(a: array2<int>) returns (z: array2<int>)
    modifies a
    ensures fresh(z) && z.Length0 == a.Length0 && z.Length1 == a.Length1
    ensures Snapshot(z) == Zeros(a.Length0, a.Length1)
    ensures Snapshot(a) == Saturate(old(Snapshot(a)))
  {
    var rows, cols := a.Length0, a.Length1;
    ghost var before := Snapshot(a);
    z := NewZeros(rows, cols);
    var i := 0;
    while i < rows
      invariant 0 <= i <= rows
      invariant Snapshot(z) == Zeros(rows, cols)
      invariant forall x, y :: 0 <= x < rows && 0 <= y < cols ==>
        a[x, y] == if x < i then Saturate(before)[x][y] else before[x][y]
    {
      var j := 0;
      while j < cols
        invariant 0 <= j <= cols
        invariant Snapshot(z) == Zeros(rows, cols)
        invariant forall x, y :: 0 <= x < rows && 0 <= y < cols ==>
          a[x, y] == if x < i || (x == i && y < j) then Saturate(before)[x][y] else before[x][y]
      {
        if a[i, j] > 0 {
          a[i, j] := 1;
        }
        j := j + 1;
      }
      i := i + 1;
    }
    MatrixEq(Snapshot(a), Saturate(before), rows, cols);
  }

  /**
   * What the cast returns is not the saturated matrix as soon as one entry
   * is positive: the returned matrix is all zero there, the saturation 1.
   */
  lemma CastResultIsNotSaturation(m: Matrix, rows: nat, cols: nat, i: nat, j: nat)
    requires IsMatrix(m, rows, cols) && i < rows && j < cols && m[i][j] > 0
    ensures Zeros(rows, cols) != Saturate(m)
  {
    assert Zeros(rows, cols)[i][j] == 0 != Saturate(m)[i][j];
  }

  /** What `cast_matrix_to_identity_format` returns: zeros of the argument's shape. */
  function CastAsWritten(x: Matrix): (z: Matrix)
    ensures IsZero(z)
    ensures forall rows, cols :: IsMatrix(x, rows, cols) && rows > 0 ==> IsMatrix(z, rows, cols)
    ensures |x| == 0 ==> z == []
  {
    Zeros(|x|, if |x| == 0 then 0 else |x[0]|)
  }

  /** A cast that maps size x size matrices to size x size matrices. */
  ghost predicate KeepsShape(cast: Matrix -> Matrix, size: nat)
  {
    forall x {:trigger cast(x)} :: IsMatrix(x, size, size) ==> IsMatrix(cast(x), size, size)
  }

  lemma CastsKeepShape(size: nat)
    ensures KeepsShape(CastAsWritten, size) && KeepsShape(Saturate, size)
  {
  }

  // ---------------------------------------------------------------------
  // The numpy operators the builders use

  /** `matrix.copy()` */
  method Copy(a: array2<int>) returns (b: array2<int>)
    ensures fresh(b) && b.Length0 == a.Length0 && b.Length1 == a.Length1
    ensures Snapshot(b) == Snapshot(a)
  {
    var rows, cols := a.Length0, a.Length1;
    b := new int[rows, cols]((_, _) => 0);
    var i := 0;
    while i < rows
      invariant 0 <= i <= rows
      invariant forall x, y :: 0 <= x < i && 0 <= y < cols ==> b[x, y] == a[x, y]
    {
      var j := 0;
      while j < cols
        invariant 0 <= j <= cols
        invariant forall x, y :: 0 <= x < rows && 0 <= y < cols && (x < i || (x == i && y < j)) ==> b[x, y] == a[x, y]
      {
        b[i, j] := a[i, j];
        j := j + 1;
      }
      i := i + 1;
    }
    MatrixEq(Snapshot(b), Snapshot(a), rows, cols);
  }


  /** Σ_{t < k} row[t] * b[t][j] */
  function Dot(row: seq<int>, b: Matrix, j: nat, k: nat): int
    requires k <= |row| && k <= |b| && forall t :: 0 <= t < k ==> j < |b[t]|
  {
    if k == 0 then 0 else Dot(row, b, j, k - 1) + row[k - 1] * b[k - 1][j]
  }

  /** The integer matrix product a @ b, b having cols columns. */
  function Product(a: Matrix, b: Matrix, cols: nat): (c: Matrix)
    requires IsMatrix(a, |a|, |b|) && IsMatrix(b, |b|, cols)
    ensures IsMatrix(c, |a|, cols)
  {
    seq(|a|, i requires 0 <= i < |a| => seq(cols, j requires 0 <= j < cols => Dot(a[i], b, j, |b|)))
  }

  /** A row that is zero outside column c picks row c of b. */
  lemma {:induction false} DotSingle(row: seq<int>, b: Matrix, j: nat, k: nat, c: nat)
    requires k <= |row| && k <= |b| && forall t :: 0 <= t < k ==> j < |b[t]|
    requires forall t :: 0 <= t < k && t != c ==> row[t] == 0
    ensures Dot(row, b, j, k) == if c < k then row[c] * b[c][j] else 0
  {
    if k > 0 {
      DotSingle(row, b, j, k - 1, c);
    }
  }

  /** Multiplying by a zero matrix gives zero. */
  lemma {:induction false} DotZero(row: seq<int>, b: Matrix, j: nat, k: nat)
    requires k <= |row| && k <= |b| && forall t :: 0 <= t < k ==> j < |b[t]|
    requires forall t :: 0 <= t < k ==> row[t] == 0
    ensures Dot(row, b, j, k) == 0
  {
    if k > 0 {
      DotZero(row, b, j, k - 1);
    }
  }

  /** Entry (i, j) of a @ b. */
  method RowTimesColumn(a: array2<int>, b: array2<int>, i: nat, j: nat) returns (s: int)
    requires a.Length1 == b.Length0 && i < a.Length0 && j < b.Length1
    ensures s == Dot(Snapshot(a)[i], Snapshot(b), j, a.Length1)
  {
    ghost var ma, mb := Snapshot(a), Snapshot(b);
    s := 0;
    var t := 0;
    while t < a.Length1
      invariant 0 <= t <= a.Length1
      invariant s == Dot(ma[i], mb, j, t)
    {
      s := s + a[i, t] * b[t, j];
      t := t + 1;
    }
  }

  /** `a @ b` on arrays. */
  method MatMul(a: array2<int>, b: array2<int>) returns (c: array2<int>)
    requires a.Length1 == b.Length0
    ensures fresh(c) && c.Length0 == a.Length0 && c.Length1 == b.Length1
    ensures Snapshot(c) == Product(Snapshot(a), Snapshot(b), b.Length1)
  {
    var rows, inner, cols := a.Length0, a.Length1, b.Length1;
    ghost var ma, mb := Snapshot(a), Snapshot(b);
    c := new int[rows, cols]((_, _) => 0);
    var i := 0;
    while i < rows
      invariant 0 <= i <= rows
      invariant forall x, y :: 0 <= x < i && 0 <= y < cols ==> c[x, y] == Dot(ma[x], mb, y, inner)
    {
      var j := 0;
      while j < cols
        invariant 0 <= j <= cols
        invariant forall x, y :: 0 <= x < rows && 0 <= y < cols && (x < i || (x == i && y < j)) ==>
          c[x, y] == Dot(ma[x], mb, y, inner)
      {
        var s := RowTimesColumn(a, b, i, j);
        c[i, j] := s;
        j := j + 1;
      }
      i := i + 1;
    }
    MatrixEq(Snapshot(c), Product(ma, mb, cols), rows, cols);
  }

  /** The entrywise sum of two matrices of the same shape. */
  function Sum(a: Matrix, b: Matrix, cols: nat): (c: Matrix)
    requires IsMatrix(a, |a|, cols) && IsMatrix(b, |a|, cols)
    ensures IsMatrix(c, |a|, cols)
    ensures forall i, j :: 0 <= i < |a| && 0 <= j < cols ==> c[i][j] == a[i][j] + b[i][j]
  {
    seq(|a|, i requires 0 <= i < |a| => seq(cols, j requires 0 <= j < cols => a[i][j] + b[i][j]))
  }

  /** `a + b` on arrays of the same shape. */
  method Add(a: array2<int>, b: array2<int>) returns (c: array2<int>)
    requires a.Length0 == b.Length0 && a.Length1 == b.Length1
    ensures fresh(c) && c.Length0 == a.Length0 && c.Length1 == a.Length1
    ensures Snapshot(c) == Sum(Snapshot(a), Snapshot(b), a.Length1)
  {
    var rows, cols := a.Length0, a.Length1;
    c := new int[rows, cols]((_, _) => 0);
    var i := 0;
    while i < rows
      invariant 0 <= i <= rows
      invariant forall x, y :: 0 <= x < i && 0 <= y < cols ==> c[x, y] == a[x, y] + b[x, y]
    {
      var j := 0;
      while j < cols
        invariant 0 <= j <= cols
        invariant forall x, y :: 0 <= x < rows && 0 <= y < cols && (x < i || (x == i && y < j)) ==>
          c[x, y] == a[x, y] + b[x, y]
      {
        c[i, j] := a[i, j] + b[i, j];
        j := j + 1;
      }
      i := i + 1;
    }
    MatrixEq(Snapshot(c), Sum(Snapshot(a), Snapshot(b), cols), rows, cols);
  }

  /** `dst[x0 : x0 + rows(src), y0 : y0 + cols(src)] = src` */
  method CopyBlock(dst: array2<int>, x0: nat, y0: nat, src: array2<int>)
    requires dst != src
    requires x0 + src.Length0 <= dst.Length0 && y0 + src.Length1 <= dst.Length1
    modifies dst
    ensures forall x, y :: 0 <= x < dst.Length0 && 0 <= y < dst.Length1 ==>
      dst[x, y] == if x0 <= x < x0 + src.Length0 && y0 <= y < y0 + src.Length1
                   then src[x - x0, y - y0] else old(dst[x, y])
  {
    var i := 0;
    while i < src.Length0
      invariant 0 <= i <= src.Length0
      invariant forall x, y :: 0 <= x < dst.Length0 && 0 <= y < dst.Length1 ==>
        dst[x, y] == if x0 <= x < x0 + i && y0 <= y < y0 + src.Length1
                     then src[x - x0, y - y0] else old(dst[x, y])
    {
      var j := 0;
      while j < src.Length1
        invariant 0 <= j <= src.Length1
        invariant forall x, y :: 0 <= x < dst.Length0 && 0 <= y < dst.Length1 ==>
          dst[x, y] == if (x0 <= x < x0 + i && y0 <= y < y0 + src.Length1) || (x == x0 + i && y0 <= y < y0 + j)
                       then src[x - x0, y - y0] else old(dst[x, y])
      {
        dst[x0 + i, y0 + j] := src[i, j];
        j := j + 1;
      }
      i := i + 1;
    }
  }

  // ---------------------------------------------------------------------
  // make_pretty_matrix

  function DigitChar(d: nat): (c: char)
    requires d < 10
    ensures '0' <= c <= '9' && c as int - '0' as int == d
  {
    ('0' as int + d) as char
  }

  /** `str(n)` for n >= 0: decimal digits, most significant first. */
  function NatToString(n: nat): (s: string)
    ensures |s| >= 1 && forall k :: 0 <= k < |s| ==> '0' <= s[k] <= '9'
  {
    if n < 10 then [DigitChar(n)] else NatToString(n / 10) + [DigitChar(n % 10)]
  }

  /** `str(x)`: a minus sign before the digits of a negative number. */
  function IntToString(x: int): (s: string)
    ensures |s| >= 1 && forall k :: 0 <= k < |s| ==> s[k] == '-' || '0' <= s[k] <= '9'
  {
    if x < 0 then "-" + NatToString(-x) else NatToString(x)
  }

  /** Reads a non-empty run of decimal digits. */
  function ParseNat(s: string): nat
    requires |s| >= 1 && forall k :: 0 <= k < |s| ==> '0' <= s[k] <= '9'
  {
    var d := s[|s| - 1] as int - '0' as int;
    if |s| == 1 then d else ParseNat(s[..|s| - 1]) * 10 + d
  }

  /** Reads an optionally signed decimal number. */
  function ParseInt(s: string): int
    requires |s| >= 1
  {
    if s[0] == '-' && |s| >= 2 && forall k :: 1 <= k < |s| ==> '0' <= s[k] <= '9' then -(ParseNat(s[1..]) as int)
    else if forall k :: 0 <= k < |s| ==> '0' <= s[k] <= '9' then ParseNat(s)
    else 0
  }

  lemma {:induction false} ParseNatToString(n: nat)
    ensures ParseNat(NatToString(n)) == n
  {
    if n >= 10 {
      var s := NatToString(n);
      assert s[..|s| - 1] == NatToString(n / 10);
      ParseNatToString(n / 10);
    }
  }

  /** Every entry is printed so that it can be read back. */
  lemma IntToStringRoundTrip(x: int)
    ensures ParseInt(IntToString(x)) == x
  {
    if x < 0 {
      ParseNegative(NatToString(-x));
      ParseNatToString(-x);
    } else {
      ParseDigits(NatToString(x));
      ParseNatToString(x);
    }
  }

  lemma ParseNegative(digits: string)
    requires |digits| >= 1 && forall k :: 0 <= k < |digits| ==> '0' <= digits[k] <= '9'
    ensures ParseInt("-" + digits) == -(ParseNat(digits) as int)
  {
    var s := "-" + digits;
    assert s[1..] == digits;
    assert forall k :: 1 <= k < |s| ==> s[k] == digits[k - 1];
  }

  lemma ParseDigits(digits: string)
    requires |digits| >= 1 && forall k :: 0 <= k < |digits| ==> '0' <= digits[k] <= '9'
    ensures ParseInt(digits) == ParseNat(digits)
  {
  }

  /** `' '.join(str(e) for e in row)` */
  function JoinedRow(row: seq<int>): string
  {
    if |row| == 0 then ""
    else if |row| == 1 then IntToString(row[0])
    else JoinedRow(row[..|row| - 1]) + " " + IntToString(row[|row| - 1])
  }

  /** One line per row, each ended by a newline. */
  function Pretty(m: Matrix): string
  {
    if |m| == 0 then "" else Pretty(m[..|m| - 1]) + JoinedRow(m[|m| - 1]) + "\n"
  }

  /** The number of occurrences of c in s. */
  function Count(s: string, c: char): nat
  {
    if |s| == 0 then 0 else Count(s[..|s| - 1], c) + (if s[|s| - 1] == c then 1 else 0)
  }

  lemma {:induction false} CountAppend(s: string, t: string, c: char)
    ensures Count(s + t, c) == Count(s, c) + Count(t, c)
  {
    if |t| > 0 {
      assert (s + t)[..|s + t| - 1] == s + t[..|t| - 1];
      CountAppend(s, t[..|t| - 1], c);
    } else {
      assert s + t == s;
    }
  }

  lemma {:induction false} CountNumber(x: int)
    ensures Count(IntToString(x), '\n') == 0 && Count(IntToString(x), ' ') == 0
  {
    var s := IntToString(x);
    CountAbsent(s, '\n');
    CountAbsent(s, ' ');
  }

  lemma {:induction false} CountAbsent(s: string, c: char)
    requires forall k :: 0 <= k < |s| ==> s[k] != c
    ensures Count(s, c) == 0
  {
    if |s| > 0 {
      CountAbsent(s[..|s| - 1], c);
    }
  }

  /** A row of k entries is printed as k numbers with k - 1 single spaces between them and no newline. */
  lemma {:induction false} JoinedRowSeparators(row: seq<int>)
    ensures Count(JoinedRow(row), '\n') == 0
    ensures Count(JoinedRow(row), ' ') == if |row| == 0 then 0 else |row| - 1
  {
    if |row| == 1 {
      CountNumber(row[0]);
    } else if |row| > 1 {
      var init, last := JoinedRow(row[..|row| - 1]), IntToString(row[|row| - 1]);
      JoinedRowSeparators(row[..|row| - 1]);
      CountNumber(row[|row| - 1]);
      CountAppend(init, " ", '\n');
      CountAppend(init, " ", ' ');
      CountAppend(init + " ", last, '\n');
      CountAppend(init + " ", last, ' ');
    }
  }

  /** The text has one newline-terminated line per row and cols - 1 spaces per line. */
  lemma {:induction false} PrettyLines(m: Matrix, cols: nat)
    requires IsMatrix(m, |m|, cols) && cols >= 1
    ensures Count(Pretty(m), '\n') == |m|
    ensures Count(Pretty(m), ' ') == |m| * (cols - 1)
    ensures |m| > 0 ==> Pretty(m)[|Pretty(m)| - 1] == '\n'
  {
    if |m| == 0 {
      assert Pretty(m) == "";
      assert |m| * (cols - 1) == 0;
    } else {
      var w := cols - 1;
      PrettyLines(m[..|m| - 1], cols);
      PrettyLinesStep(m, cols, (|m| - 1) * w);
      MulSucc(|m|, |m| - 1, w);
    }
  }

  /** The last row's line adds one newline and cols - 1 spaces to the text of the rows before it. */
  lemma PrettyLinesStep(m: Matrix, cols: nat, spaces: nat)
    requires IsMatrix(m, |m|, cols) && cols >= 1 && |m| > 0
    requires Count(Pretty(m[..|m| - 1]), '\n') == |m| - 1
    requires Count(Pretty(m[..|m| - 1]), ' ') == spaces
    ensures Count(Pretty(m), '\n') == |m| && Count(Pretty(m), ' ') == spaces + (cols - 1)
    ensures Pretty(m)[|Pretty(m)| - 1] == '\n'
  {
    var k := |m| - 1;
    var init, line, t := Pretty(m[..k]), JoinedRow(m[k]), Pretty(m);
    assert t == init + line + "\n";
    JoinedRowSeparators(m[k]);
    LineAppended(init, line, t);
  }

  /** Appending a line and its newline adds the line's counts plus one newline. */
  lemma LineAppended(init: string, line: string, t: string)
    requires t == init + line + "\n"
    ensures Count(t, '\n') == Count(init, '\n') + Count(line, '\n') + 1
    ensures Count(t, ' ') == Count(init, ' ') + Count(line, ' ')
    ensures t[|t| - 1] == '\n'
  {
    CountAppend(init, line, '\n');
    CountAppend(init, line, ' ');
    assert Count("\n", '\n') == 1 && Count("\n", ' ') == 0 by {
      assert "\n"[..0] == "";
    }
    CountAppend(init + line, "\n", '\n');
    CountAppend(init + line, "\n", ' ');
  }

  lemma MulSucc(n: nat, k: nat, c: nat)
    requires n == k + 1
    ensures n * c == k * c + c
  {
  }

  /**
   * `make_pretty_matrix`: appends, row by row, the entries joined by single
   * spaces and a newline.
   */
  method MakePrettyMatrix(a: array2<int>) returns (result: string)
    ensures result == Pretty(Snapshot(a))
  {
    ghost var m := Snapshot(a);
    result := "";
    var i := 0;
    while i < a.Length0
      invariant 0 <= i <= a.Length0
      invariant result == Pretty(m[..i])
    {
      var row := seq(a.Length1, j requires 0 <= j < a.Length1 reads a => a[i, j]);
      assert row == m[i];
      assert m[..i + 1][..i] == m[..i];
      result := result + JoinedRow(row) + "\n";
      i := i + 1;
    }
    assert m[..a.Length0] == m;
  }
}
