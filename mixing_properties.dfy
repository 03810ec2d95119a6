/**
 * Mixing properties of a mixing matrix (src/mixing_matrixes/mixing_properties.py):
 * the sequence of cast powers of the matrix, the full and column-local
 * mixing tests, and the search for the first power that passes them.
 */
module MixingProperties {
  import opened MatrixUtils

  // ---------------------------------------------------------------------
  // pow_matrix_gen

  /** The k-th matrix the generator yields: the cast of m, then the cast of each previous yield times m. */
  function Yielded(m: Matrix, size: nat, k: nat, cast: Matrix -> Matrix): (p: Matrix)
    requires k >= 1 && IsMatrix(m, size, size) && KeepsShape(cast, size)
    ensures IsMatrix(p, size, size)
    decreases k
  {
    if k == 1 then cast(m) else cast(Product(Yielded(m, size, k - 1, cast), m, size))
  }

  /** As written, every yielded matrix is all zero. */
  lemma YieldedAsWrittenIsZero(m: Matrix, size: nat, k: nat)
    requires k >= 1 && IsMatrix(m, size, size)
    ensures Yielded(m, size, k, CastAsWritten) == Zeros(size, size)
  {
    CastsKeepShape(size);
    if k > 1 {
      assert Yielded(m, size, k, CastAsWritten) == CastAsWritten(Product(Yielded(m, size, k - 1, CastAsWritten), m, size));
    }
  }

  /**
   * `pow_matrix_gen(matrix)`: keeps the caller's matrix, the matrix last
   * yielded and whether the body has started; the copy of the caller's matrix
   * is taken at the first advance, as the generator body only runs then.
   */
  class PowMatrixGen {
    const matrix: array2<int>
    const size: nat
    ghost const original: Matrix
    var powedMatrix: array2<int>
    var started: bool
    ghost var count: nat

    ghost predicate Valid()
      reads this, matrix, powedMatrix
    {
      matrix.Length0 == size && matrix.Length1 == size && Snapshot(matrix) == original &&
      (started <==> count >= 1) &&
      (started ==> powedMatrix != matrix && powedMatrix.Length0 == size && powedMatrix.Length1 == size &&
                   (Snapshot(powedMatrix) == Yielded(original, size, count, CastAsWritten)))
    }

    constructor(matrix: array2<int>)
      requires matrix.Length0 == matrix.Length1
      ensures Valid() && count == 0
      ensures this.matrix == matrix && original == Snapshot(matrix) && size == matrix.Length0
    {
      this.matrix := matrix;
      size := matrix.Length0;
      original := Snapshot(matrix);
      powedMatrix := matrix;
      started := false;
      count := 0;
    }

    /**
     * One `next()`: the product with the caller's matrix (or, the first time,
     * a copy of it) is cast in place and the cast's result is yielded. The
     * caller's matrix is never written.
     */
    method Next() returns (m: array2<int>)
      requires Valid()
      modifies this
      ensures Valid() && count == old(count) + 1
      ensures fresh(m) && m == powedMatrix && m.Length0 == size && m.Length1 == size
      ensures Snapshot(m) == Yielded(original, size, count, CastAsWritten)
      ensures Snapshot(matrix) == old(Snapshot(matrix))
    {
      CastsKeepShape(size);
      var operand: array2<int>;
      if !started {
        operand := Copy(matrix);
        started := true;
      } else {
        operand := MatMul(powedMatrix, matrix);
      }
      powedMatrix := CastMatrixToIdentityFormat(operand);
      count := count + 1;
      m := powedMatrix;
    }
  }

  // ---------------------------------------------------------------------
  // check_full_mixing and check_local_full_mixing

  /** The matrix is at least as wide as it is tall, so the scans read only existing entries. */
  predicate Scannable(m: Matrix)
  {
    forall i :: 0 <= i < |m| ==> |m[i]| >= |m|
  }

  /** `check_full_mixing`: no zero entry (i, j) with i, j below the number of rows. */
  predicate CheckFullMixing(m: Matrix)
    requires Scannable(m)
  {
    forall i, j :: 0 <= i < |m| && 0 <= j < |m| ==> m[i][j] != 0
  }

  /** The columns [s, e) exist whenever the scan reads one of them. */
  predicate LocalScannable(m: Matrix, s: int, e: int)
  {
    s < e && |m| > 0 ==> 0 <= s && forall i :: 0 <= i < |m| ==> e <= |m[i]|
  }

  /** `check_local_full_mixing`: no zero entry in any row within the columns [s, e). */
  predicate CheckLocalFullMixing(m: Matrix, s: int, e: int)
    requires LocalScannable(m, s, e)
  {
    forall i, j :: 0 <= i < |m| && s <= j < e ==> m[i][j] != 0
  }

  /** An empty column range passes vacuously. */
  lemma LocalEmptyRange(m: Matrix, s: int, e: int)
    requires s >= e
    ensures LocalScannable(m, s, e) && CheckLocalFullMixing(m, s, e)
  {
  }

  /** On a square matrix the local test over all columns is the full test. */
  lemma LocalFullRangeIsFull(m: Matrix, size: nat)
    requires IsMatrix(m, size, size)
    ensures Scannable(m) && LocalScannable(m, 0, size)
    ensures CheckLocalFullMixing(m, 0, size) <==> CheckFullMixing(m)
  {
  }

  // ---------------------------------------------------------------------
  // The search

  /** The number of yields the search looks at: power 1 always, then up to max_rounds. */
  function SearchLength(maxRounds: int): (n: nat)
    ensures n >= 1
  {
    if maxRounds < 1 then 1 else maxRounds
  }

  /** The 1-based position of the first passing test, or -1 if none passes. */
  function FirstPassing(checks: seq<bool>): (k: int)
    ensures k == -1 || 1 <= k <= |checks|
  {
    if |checks| == 0 then -1
    else if checks[0] then 1
    else var rest := FirstPassing(checks[1..]); if rest == -1 then -1 else rest + 1
  }

  /** The search finds the first passing position, and -1 exactly when none passes. */
  lemma {:induction false} FirstPassingIsFirst(checks: seq<bool>)
    ensures var k := FirstPassing(checks);
      (k == -1 <==> forall j :: 0 <= j < |checks| ==> !checks[j]) &&
      (k != -1 ==> checks[k - 1] && forall j :: 0 <= j < k - 1 ==> !checks[j])
  {
    if |checks| > 0 && !checks[0] {
      FirstPassingIsFirst(checks[1..]);
      assert forall j :: 1 <= j < |checks| ==> checks[j] == checks[1..][j - 1];
    }
  }

  /** A passing position with no passing position before it is the one the search finds. */
  lemma FirstPassingAt(checks: seq<bool>, k: nat)
    requires 1 <= k <= |checks| && checks[k - 1]
    requires forall j :: 0 <= j < k - 1 ==> !checks[j]
    ensures FirstPassing(checks) == k
  {
    FirstPassingIsFirst(checks);
  }

  /** With no passing position the search finds none. */
  lemma FirstPassingNone(checks: seq<bool>)
    requires forall j :: 0 <= j < |checks| ==> !checks[j]
    ensures FirstPassing(checks) == -1
  {
    FirstPassingIsFirst(checks);
  }

  /** A first passing position is found again in any longer list that starts the same way. */
  lemma FirstPassingPrefix(checks: seq<bool>, longer: seq<bool>)
    requires |checks| <= |longer| && checks == longer[..|checks|]
    requires FirstPassing(checks) != -1
    ensures FirstPassing(longer) == FirstPassing(checks)
  {
    FirstPassingIsFirst(checks);
    FirstPassingIsFirst(longer);
    var k, k' := FirstPassing(checks), FirstPassing(longer);
    assert checks[k - 1] == longer[k - 1];
  }

  /** The full test on the first count yields. */
  function FullChecks(m: Matrix, size: nat, count: nat, cast: Matrix -> Matrix): (c: seq<bool>)
    requires IsMatrix(m, size, size) && KeepsShape(cast, size)
    ensures |c| == count
  {
    seq(count, j requires 0 <= j < count => CheckFullMixing(Yielded(m, size, j + 1, cast)))
  }

  /** The local test on the first count yields. */
  function LocalChecks(m: Matrix, size: nat, count: nat, cast: Matrix -> Matrix, s: int, e: int): (c: seq<bool>)
    requires IsMatrix(m, size, size) && KeepsShape(cast, size)
    requires s < e && size > 0 ==> 0 <= s && e <= size
    ensures |c| == count
  {
    seq(count, j requires 0 <= j < count => CheckLocalFullMixing(Yielded(m, size, j + 1, cast), s, e))
  }

  /** The value `get_exponent` returns for a matrix, a bound and a cast. */
  function Exponent(m: Matrix, size: nat, maxRounds: int, cast: Matrix -> Matrix): int
    requires IsMatrix(m, size, size) && KeepsShape(cast, size)
  {
    FirstPassing(FullChecks(m, size, SearchLength(maxRounds), cast))
  }

  /** The value `get_local_exponent` returns. */
  function LocalExponent(m: Matrix, size: nat, maxRounds: int, cast: Matrix -> Matrix, s: int, e: int): int
    requires IsMatrix(m, size, size) && KeepsShape(cast, size)
    requires s < e && size > 0 ==> 0 <= s && e <= size
  {
    FirstPassing(LocalChecks(m, size, SearchLength(maxRounds), cast, s, e))
  }

  /** A fully mixed yield with none before it, within the bound, is the exponent. */
  lemma ExponentAt(m: Matrix, size: nat, maxRounds: int, cast: Matrix -> Matrix, k: nat)
    requires IsMatrix(m, size, size) && KeepsShape(cast, size)
    requires 1 <= k <= SearchLength(maxRounds) && CheckFullMixing(Yielded(m, size, k, cast))
    requires forall j :: 1 <= j < k ==> !CheckFullMixing(Yielded(m, size, j, cast))
    ensures Exponent(m, size, maxRounds, cast) == k
  {
    var c := FullChecks(m, size, SearchLength(maxRounds), cast);
    assert forall j :: 0 <= j < k - 1 ==> c[j] == CheckFullMixing(Yielded(m, size, j + 1, cast));
    FirstPassingAt(c, k);
  }

  /** With no fully mixed yield within the bound the exponent is -1. */
  lemma ExponentNone(m: Matrix, size: nat, maxRounds: int, cast: Matrix -> Matrix)
    requires IsMatrix(m, size, size) && KeepsShape(cast, size)
    requires forall j :: 1 <= j <= SearchLength(maxRounds) ==> !CheckFullMixing(Yielded(m, size, j, cast))
    ensures Exponent(m, size, maxRounds, cast) == -1
  {
    var c := FullChecks(m, size, SearchLength(maxRounds), cast);
    assert forall j :: 0 <= j < |c| ==> c[j] == CheckFullMixing(Yielded(m, size, j + 1, cast));
    FirstPassingNone(c);
  }

  /** A locally mixed yield with none before it, within the bound, is the local exponent. */
  lemma LocalExponentAt(m: Matrix, size: nat, maxRounds: int, cast: Matrix -> Matrix, s: int, e: int, k: nat)
    requires IsMatrix(m, size, size) && KeepsShape(cast, size)
    requires s < e && size > 0 ==> 0 <= s && e <= size
    requires 1 <= k <= SearchLength(maxRounds) && CheckLocalFullMixing(Yielded(m, size, k, cast), s, e)
    requires forall j :: 1 <= j < k ==> !CheckLocalFullMixing(Yielded(m, size, j, cast), s, e)
    ensures LocalExponent(m, size, maxRounds, cast, s, e) == k
  {
    var c := LocalChecks(m, size, SearchLength(maxRounds), cast, s, e);
    assert forall j :: 0 <= j < k - 1 ==> c[j] == CheckLocalFullMixing(Yielded(m, size, j + 1, cast), s, e);
    FirstPassingAt(c, k);
  }

  /** With no locally mixed yield within the bound the local exponent is -1. */
  lemma LocalExponentNone(m: Matrix, size: nat, maxRounds: int, cast: Matrix -> Matrix, s: int, e: int)
    requires IsMatrix(m, size, size) && KeepsShape(cast, size)
    requires s < e && size > 0 ==> 0 <= s && e <= size
    requires forall j :: 1 <= j <= SearchLength(maxRounds) ==> !CheckLocalFullMixing(Yielded(m, size, j, cast), s, e)
    ensures LocalExponent(m, size, maxRounds, cast, s, e) == -1
  {
    var c := LocalChecks(m, size, SearchLength(maxRounds), cast, s, e);
    assert forall j :: 0 <= j < |c| ==> c[j] == CheckLocalFullMixing(Yielded(m, size, j + 1, cast), s, e);
    FirstPassingNone(c);
  }

  /** One round of the `get_exponent` loop: the next yield and whether it is fully mixed. */
  method NextFullyMixed(gen: PowMatrixGen) returns (passed: bool)
    requires gen.Valid()
    modifies gen
    ensures gen.Valid() && gen.count == old(gen.count) + 1
    ensures passed == CheckFullMixing(Yielded(gen.original, gen.size, gen.count, CastAsWritten))
  {
    var yielded := gen.Next();
    passed := CheckFullMixing(Snapshot(yielded));
  }

  /** One round of the `get_local_exponent` loop. */
  method NextLocallyMixed(gen: PowMatrixGen, s: int, e: int) returns (passed: bool)
    requires gen.Valid() && (s < e && gen.size > 0 ==> 0 <= s && e <= gen.size)
    modifies gen
    ensures gen.Valid() && gen.count == old(gen.count) + 1
    ensures passed == CheckLocalFullMixing(Yielded(gen.original, gen.size, gen.count, CastAsWritten), s, e)
  {
    var yielded := gen.Next();
    passed := CheckLocalFullMixing(Snapshot(yielded), s, e);
  }

  /**
   * `get_exponent`: advances the generator, returns the position of the first
   * yield that is fully mixed, and gives up with -1 once the position would
   * pass max_rounds.
   */
  method GetExponent(mixMatr: array2<int>, maxRounds: int) returns (e: int)
    requires mixMatr.Length0 == mixMatr.Length1
    ensures e == Exponent(Snapshot(mixMatr), mixMatr.Length0, maxRounds, CastAsWritten)
    ensures e == -1 || 1 <= e <= SearchLength(maxRounds)
  {
    var size := mixMatr.Length0;
    CastsKeepShape(size);
    ghost var m := Snapshot(mixMatr);
    ghost var n := SearchLength(maxRounds);
    var gen := new PowMatrixGen(mixMatr);
    var i := 1;
    while true
      invariant 1 <= i <= n
      invariant gen.Valid() && gen.count == i - 1 && gen.original == m && gen.size == size
      invariant forall j :: 1 <= j < i ==> !CheckFullMixing(Yielded(m, size, j, CastAsWritten))
      decreases maxRounds - i
    {
      var passed := NextFullyMixed(gen);
      if passed {
        ExponentAt(m, size, maxRounds, CastAsWritten, i);
        return i;
      }
      i := i + 1;
      if i > maxRounds {
        break;
      }
    }
    ExponentNone(m, size, maxRounds, CastAsWritten);
    return -1;
  }

  /**
   * `get_local_exponent`: the same search with the test restricted to the
   * columns [localStart, localEnd).
   */
  method GetLocalExponent(mixMatr: array2<int>, maxRounds: int, localStart: int, localEnd: int) returns (e: int)
    requires mixMatr.Length0 == mixMatr.Length1
    requires localStart < localEnd && mixMatr.Length0 > 0 ==> 0 <= localStart && localEnd <= mixMatr.Length1
    ensures e == LocalExponent(Snapshot(mixMatr), mixMatr.Length0, maxRounds, CastAsWritten, localStart, localEnd)
    ensures e == -1 || 1 <= e <= SearchLength(maxRounds)
  {
    var size := mixMatr.Length0;
    CastsKeepShape(size);
    ghost var m := Snapshot(mixMatr);
    ghost var n := SearchLength(maxRounds);
    var gen := new PowMatrixGen(mixMatr);
    var i := 1;
    while true
      invariant 1 <= i <= n
      invariant gen.Valid() && gen.count == i - 1 && gen.original == m && gen.size == size
      invariant forall j :: 1 <= j < i ==> !CheckLocalFullMixing(Yielded(m, size, j, CastAsWritten), localStart, localEnd)
      decreases maxRounds - i
    {
      var passed := NextLocallyMixed(gen, localStart, localEnd);
      if passed {
        LocalExponentAt(m, size, maxRounds, CastAsWritten, localStart, localEnd, i);
        return i;
      }
      i := i + 1;
      if i > maxRounds {
        break;
      }
    }
    LocalExponentNone(m, size, maxRounds, CastAsWritten, localStart, localEnd);
    return -1;
  }

  // ---------------------------------------------------------------------
  // Properties of the search

  /**
   * An exponent found with one bound is found with every larger bound: the
   * k-th yield passes and no earlier one does, whatever the bound.
   */
  lemma ExponentStable(m: Matrix, size: nat, maxRounds: int, maxRounds': int, cast: Matrix -> Matrix)
    requires IsMatrix(m, size, size) && KeepsShape(cast, size)
    requires Exponent(m, size, maxRounds, cast) != -1
    requires maxRounds' >= Exponent(m, size, maxRounds, cast)
    ensures Exponent(m, size, maxRounds', cast) == Exponent(m, size, maxRounds, cast)
  {
    var k := Exponent(m, size, maxRounds, cast);
    var c := FullChecks(m, size, SearchLength(maxRounds), cast);
    var c' := FullChecks(m, size, SearchLength(maxRounds'), cast);
    var p := FullChecks(m, size, k, cast);
    FirstPassingIsFirst(c);
    FirstPassingIsFirst(p);
    assert p == c[..k];
    assert p == c'[..k];
    FirstPassingPrefix(p, c);
    FirstPassingPrefix(p, c');
  }

  /** The exponent is the position of a fully mixed yield with no fully mixed yield before it. */
  lemma ExponentIsFirstMixed(m: Matrix, size: nat, maxRounds: int, cast: Matrix -> Matrix)
    requires IsMatrix(m, size, size) && KeepsShape(cast, size)
    ensures var k := Exponent(m, size, maxRounds, cast);
      (k == -1 || 1 <= k <= SearchLength(maxRounds)) &&
      (k != -1 ==> CheckFullMixing(Yielded(m, size, k, cast)) &&
                   forall j :: 1 <= j < k ==> !CheckFullMixing(Yielded(m, size, j, cast))) &&
      (k == -1 ==> forall j :: 1 <= j <= SearchLength(maxRounds) ==> !CheckFullMixing(Yielded(m, size, j, cast)))
  {
    if Exponent(m, size, maxRounds, cast) != -1 {
      ExponentFound(m, size, maxRounds, cast);
    } else {
      ExponentNotFound(m, size, maxRounds, cast);
    }
  }

  lemma ExponentFound(m: Matrix, size: nat, maxRounds: int, cast: Matrix -> Matrix)
    requires IsMatrix(m, size, size) && KeepsShape(cast, size) && Exponent(m, size, maxRounds, cast) != -1
    ensures var k := Exponent(m, size, maxRounds, cast);
      1 <= k <= SearchLength(maxRounds) && CheckFullMixing(Yielded(m, size, k, cast)) &&
      forall j :: 1 <= j < k ==> !CheckFullMixing(Yielded(m, size, j, cast))
  {
    var n := SearchLength(maxRounds);
    var c := FullChecks(m, size, n, cast);
    var k := FirstPassing(c);
    assert Exponent(m, size, maxRounds, cast) == k;
    FirstPassingFound(c);
    FirstMixedAt(m, size, n, cast, k);
  }

  /** A passing test k with no passing test before it is a first fully mixed yield. */
  lemma FirstMixedAt(m: Matrix, size: nat, n: nat, cast: Matrix -> Matrix, k: nat)
    requires IsMatrix(m, size, size) && KeepsShape(cast, size) && 1 <= k <= n
    requires FullChecks(m, size, n, cast)[k - 1]
    requires forall j :: 0 <= j < k - 1 ==> !FullChecks(m, size, n, cast)[j]
    ensures CheckFullMixing(Yielded(m, size, k, cast))
    ensures forall j :: 1 <= j < k ==> !CheckFullMixing(Yielded(m, size, j, cast))
  {
    FullCheckAt(m, size, n, cast, k);
    forall j | 1 <= j < k ensures !CheckFullMixing(Yielded(m, size, j, cast)) {
      FullCheckAt(m, size, n, cast, j);
    }
  }

  lemma ExponentNotFound(m: Matrix, size: nat, maxRounds: int, cast: Matrix -> Matrix)
    requires IsMatrix(m, size, size) && KeepsShape(cast, size) && Exponent(m, size, maxRounds, cast) == -1
    ensures forall j :: 1 <= j <= SearchLength(maxRounds) ==> !CheckFullMixing(Yielded(m, size, j, cast))
  {
    var n := SearchLength(maxRounds);
    var c := FullChecks(m, size, n, cast);
    FirstPassingIsFirst(c);
    forall j | 1 <= j <= n ensures !CheckFullMixing(Yielded(m, size, j, cast)) {
      FullCheckAt(m, size, n, cast, j);
    }
  }

  /** When the search succeeds, its test passes and none before it does. */
  lemma FirstPassingFound(checks: seq<bool>)
    requires FirstPassing(checks) != -1
    ensures var k := FirstPassing(checks);
      1 <= k <= |checks| && checks[k - 1] && forall j :: 0 <= j < k - 1 ==> !checks[j]
  {
    FirstPassingIsFirst(checks);
  }

  /** Test j (1-based) of the full checks is the full-mixing test of yield j. */
  lemma FullCheckAt(m: Matrix, size: nat, count: nat, cast: Matrix -> Matrix, j: nat)
    requires IsMatrix(m, size, size) && KeepsShape(cast, size) && 1 <= j <= count
    ensures FullChecks(m, size, count, cast)[j - 1] == CheckFullMixing(Yielded(m, size, j, cast))
  {
  }

  /** As written, `get_exponent` returns -1 for every matrix with at least one row. */
  lemma ExponentAsWritten(m: Matrix, size: nat, maxRounds: int)
    requires IsMatrix(m, size, size) && size >= 1
    ensures Exponent(m, size, maxRounds, CastAsWritten) == -1
  {
    CastsKeepShape(size);
    var c := FullChecks(m, size, SearchLength(maxRounds), CastAsWritten);
    forall j | 0 <= j < |c| ensures !c[j] {
      YieldedAsWrittenIsZero(m, size, j + 1);
      assert Yielded(m, size, j + 1, CastAsWritten)[0][0] == 0;
    }
    FirstPassingIsFirst(c);
  }

  /** As written, `get_local_exponent` returns -1 for every non-empty column range. */
  lemma LocalExponentAsWritten(m: Matrix, size: nat, maxRounds: int, s: int, e: int)
    requires IsMatrix(m, size, size) && size >= 1 && 0 <= s < e <= size
    ensures LocalExponent(m, size, maxRounds, CastAsWritten, s, e) == -1
  {
    CastsKeepShape(size);
    var c := LocalChecks(m, size, SearchLength(maxRounds), CastAsWritten, s, e);
    forall j | 0 <= j < |c| ensures !c[j] {
      YieldedAsWrittenIsZero(m, size, j + 1);
      assert Yielded(m, size, j + 1, CastAsWritten)[0][s] == 0;
    }
    FirstPassingIsFirst(c);
  }

  /** A 0 x 0 matrix is fully mixed at once. */
  lemma ExponentOfEmpty(maxRounds: int, cast: Matrix -> Matrix)
    requires KeepsShape(cast, 0)
    ensures Exponent([], 0, maxRounds, cast) == 1
  {
  }

  /**
   * With the evidently intended cast, a matrix whose entries are all positive
   * has exponent 1; as written the same matrix gets -1.
   */
  lemma ExponentOfPositiveMatrix(m: Matrix, size: nat, maxRounds: int)
    requires IsMatrix(m, size, size) && size >= 1
    requires forall i, j :: 0 <= i < size && 0 <= j < size ==> m[i][j] > 0
    ensures Exponent(m, size, maxRounds, Saturate) == 1
    ensures Exponent(m, size, maxRounds, CastAsWritten) == -1
  {
    CastsKeepShape(size);
    var c := FullChecks(m, size, SearchLength(maxRounds), Saturate);
    assert c[0] by {
      forall i, j | 0 <= i < size && 0 <= j < size ensures Saturate(m)[i][j] != 0 {
        SaturateEntries(m, i, j);
      }
    }
    ExponentAsWritten(m, size, maxRounds);
  }
}
