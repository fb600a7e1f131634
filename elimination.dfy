/**
 * Gaussian elimination with partial pivoting, as `linear_solve(A, b)` and the n-by-n `inv(A)` of
 * `tensor.hpp` perform it: pick the row with the largest pivot magnitude, swap it up, clear the column
 * below the pivot with row additions, then solve the upper-triangular system from the bottom row up.
 *
 * The matrix is only required to be nonsingular (nothing but the zero vector is mapped to zero), which
 * is what the source needs of its callers; that every pivot the search picks is nonzero is proved from
 * that, and so is the result: `A . x == b`, and `A . B == B . A == I` for the inverse.
 */
module Elimination {
  import opened Matrices
  import opened MatrixOps

  // ---------------------------------------------------------------------------------------------
  // Linear systems.
  // ---------------------------------------------------------------------------------------------

  /** Only the zero vector is mapped to zero by the `n`-by-`n` matrix `A`. */
  ghost predicate Nonsingular(a: Mat, n: nat)
    requires IsMatrix(a, n, n)
  {
    forall x: Vec {:trigger MatVec(a, x)} :: |x| == n && MatVec(a, x) == Zeros(n) ==> x == Zeros(n)
  }

  /** `A . x == b` and `A0 . x == b0` have the same solutions. */
  ghost predicate SameSolutions(a: Mat, b: Vec, a0: Mat, b0: Vec, n: nat)
    requires IsMatrix(a, n, n) && IsMatrix(a0, n, n) && |b| == n && |b0| == n
  {
    forall x: Vec {:trigger MatVec(a, x)} {:trigger MatVec(a0, x)} ::
      |x| == n ==> (MatVec(a, x) == b <==> MatVec(a0, x) == b0)
  }

  /** Columns `0 .. i-1` are eliminated: zero below the diagonal, with a nonzero pivot on it. */
  predicate Reduced(a: Mat, n: nat, i: nat)
    requires IsMatrix(a, n, n) && i <= n
  {
    (forall k, j :: 0 <= k < i && k < j < n ==> a[j][k] == 0.0) &&
    (forall k :: 0 <= k < i ==> a[k][k] != 0.0)
  }

  // ---------------------------------------------------------------------------------------------
  // Partial sums of a dot product, from an entry on.
  // ---------------------------------------------------------------------------------------------

  /** `u[lo] * v[lo] + ... + u[hi-1] * v[hi-1]`. */
  function RangeDot(u: Vec, v: Vec, lo: nat, hi: nat): real
    requires |u| == |v| && lo <= hi <= |u|
    decreases hi - lo
  {
    if lo == hi then 0.0 else u[lo] * v[lo] + RangeDot(u, v, lo + 1, hi)
  }

  /** The dot product is the terms before `k` plus the terms from `k` on. */
  lemma {:induction false} DotSplit(u: Vec, v: Vec, k: nat)
    requires |u| == |v| && k <= |u|
    ensures Dot(u, v) == DotTo(u, v, k) + RangeDot(u, v, k, |u|)
    decreases |u| - k
  {
    if k < |u| {
      DotSplit(u, v, k + 1);
    }
  }

  lemma {:induction false} RangeDotSplit(u: Vec, v: Vec, lo: nat, mid: nat, hi: nat)
    requires |u| == |v| && lo <= mid <= hi <= |u|
    ensures RangeDot(u, v, lo, hi) == RangeDot(u, v, lo, mid) + RangeDot(u, v, mid, hi)
    decreases mid - lo
  {
    if lo < mid {
      RangeDotSplit(u, v, lo + 1, mid, hi);
    }
  }

  /** Terms with a zero factor contribute nothing. */
  lemma {:induction false} RangeDotZeros(u: Vec, v: Vec, lo: nat, hi: nat)
    requires |u| == |v| && lo <= hi <= |u|
    requires forall l :: lo <= l < hi ==> u[l] == 0.0 || v[l] == 0.0
    ensures RangeDot(u, v, lo, hi) == 0.0
    decreases hi - lo
  {
    if lo < hi {
      RangeDotZeros(u, v, lo + 1, hi);
    }
  }

  /** The terms from `lo` to `hi` only read the entries from `lo` to `hi`. */
  lemma {:induction false} RangeDotAgree(u: Vec, v: Vec, w: Vec, lo: nat, hi: nat)
    requires |u| == |v| == |w| && lo <= hi <= |u|
    requires forall l :: lo <= l < hi ==> v[l] == w[l]
    ensures RangeDot(u, v, lo, hi) == RangeDot(u, w, lo, hi)
    decreases hi - lo
  {
    if lo < hi {
      RangeDotAgree(u, v, w, lo + 1, hi);
    }
  }

  // ---------------------------------------------------------------------------------------------
  // Row operations.
  // ---------------------------------------------------------------------------------------------

  /** `swap(s[i], s[j])`: `tmp = s[i]; s[i] = s[j]; s[j] = tmp`. */
  function SwapRows<T>(s: seq<T>, i: nat, j: nat): (r: seq<T>)
    requires i < |s| && j < |s|
    ensures |r| == |s| && r[i] == s[j] && r[j] == s[i]
    ensures forall k :: 0 <= k < |s| && k != i && k != j ==> r[k] == s[k]
  {
    s[i := s[j]][j := s[i]]
  }

  /** `b[j] += c * b[i]` on a right-hand side. */
  function AddMultiple(b: Vec, j: nat, c: real, i: nat): (r: Vec)
    requires i < |b| && j < |b|
  {
    b[j := b[j] + c * b[i]]
  }

  /** `A[j] += c * A[i]` on whole rows. */
  function AddMultipleRow(a: Mat, j: nat, c: real, i: nat): (r: Mat)
    requires i < |a| && j < |a| && |a[i]| == |a[j]|
  {
    a[j := VAdd(a[j], VScale(c, a[i]))]
  }

  /** Swapping is undone by swapping again. */
  lemma SwapTwice<T>(s: seq<T>, i: nat, j: nat)
    requires i < |s| && j < |s|
    ensures SwapRows(SwapRows(s, i, j), i, j) == s
  {
  }

  /** Adding `c` times row `i` is undone by adding `-c` times it. */
  lemma AddMultipleUndone(b: Vec, j: nat, c: real, i: nat)
    requires i < |b| && j < |b| && i != j
    ensures AddMultiple(AddMultiple(b, j, c, i), j, -c, i) == b
  {
    var r := AddMultiple(b, j, c, i);
    assert r[i] == b[i];
    assert r[j] + -c * r[i] == b[j] by {
      assert r[j] == b[j] + c * b[i];
      assert -c * b[i] == -(c * b[i]);
    }
    VecEq(AddMultiple(r, j, -c, i), b);
  }

  /** Both sides swapped alike: the swapped equation holds exactly when the original does. */
  lemma SwapSameEquation(y: Vec, b: Vec, p: nat, i: nat)
    requires |y| == |b| && p < |y| && i < |y|
    ensures SwapRows(y, p, i) == SwapRows(b, p, i) <==> y == b
  {
    if SwapRows(y, p, i) == SwapRows(b, p, i) {
      SwapTwice(y, p, i);
      SwapTwice(b, p, i);
    }
  }

  /** Both sides changed by the same row addition: the new equation holds exactly when the old one does. */
  lemma AddSameEquation(y: Vec, b: Vec, j: nat, c: real, i: nat)
    requires |y| == |b| && j < |y| && i < |y| && i != j
    ensures AddMultiple(y, j, c, i) == AddMultiple(b, j, c, i) <==> y == b
  {
    if AddMultiple(y, j, c, i) == AddMultiple(b, j, c, i) {
      AddMultipleUndone(y, j, c, i);
      AddMultipleUndone(b, j, c, i);
    }
  }

  lemma MatVecSwap(a: Mat, x: Vec, i: nat, j: nat)
    requires IsMatrix(a, |a|, |x|) && i < |a| && j < |a|
    ensures MatVec(SwapRows(a, i, j), x) == SwapRows(MatVec(a, x), i, j)
  {
  }

  lemma MatVecAddMultiple(a: Mat, x: Vec, j: nat, c: real, i: nat)
    requires IsMatrix(a, |a|, |x|) && i < |a| && j < |a|
    ensures MatVec(AddMultipleRow(a, j, c, i), x) == AddMultiple(MatVec(a, x), j, c, i)
  {
    DotAddLeft(a[j], VScale(c, a[i]), x);
    DotScaleLeft(c, a[i], x);
    VecEq(MatVec(AddMultipleRow(a, j, c, i), x), AddMultiple(MatVec(a, x), j, c, i));
  }

  /** A column of the rows after a swap is the column with its entries swapped. */
  lemma ColumnSwap(b: Mat, n: nat, col: nat, i: nat, j: nat)
    requires IsMatrix(b, |b|, n) && col < n && i < |b| && j < |b|
    ensures Column(SwapRows(b, i, j), n, col) == SwapRows(Column(b, n, col), i, j)
  {
    VecEq(Column(SwapRows(b, i, j), n, col), SwapRows(Column(b, n, col), i, j));
  }

  lemma ColumnAddMultiple(b: Mat, n: nat, col: nat, j: nat, c: real, i: nat)
    requires IsMatrix(b, |b|, n) && col < n && i < |b| && j < |b|
    ensures Column(AddMultipleRow(b, j, c, i), n, col) == AddMultiple(Column(b, n, col), j, c, i)
  {
    VecEq(Column(AddMultipleRow(b, j, c, i), n, col), AddMultiple(Column(b, n, col), j, c, i));
  }

  lemma SwapSolutionAt(a: Mat, b: Vec, x: Vec, p: nat, i: nat)
    requires IsMatrix(a, |a|, |x|) && |b| == |a| && p < |a| && i < |a|
    ensures MatVec(SwapRows(a, p, i), x) == SwapRows(b, p, i) <==> MatVec(a, x) == b
  {
    MatVecSwap(a, x, p, i);
    SwapSameEquation(MatVec(a, x), b, p, i);
  }

  /** Swapping the same rows of both sides keeps the solutions of `A . x == b`. */
  lemma SwapKeepsSolutions(a: Mat, b: Vec, a0: Mat, b0: Vec, n: nat, p: nat, i: nat)
    requires IsMatrix(a, n, n) && IsMatrix(a0, n, n) && |b| == n && |b0| == n && p < n && i < n
    requires SameSolutions(a, b, a0, b0, n)
    ensures SameSolutions(SwapRows(a, p, i), SwapRows(b, p, i), a0, b0, n)
  {
    var a', b' := SwapRows(a, p, i), SwapRows(b, p, i);
    forall x: Vec {:trigger MatVec(a', x)} | |x| == n ensures MatVec(a', x) == b' <==> MatVec(a0, x) == b0 {
      SwapSolutionAt(a, b, x, p, i);
    }
  }

  /** Adding a multiple of another row to both sides keeps the solutions of `A . x == b`. */
  lemma AddKeepsSolutions(a: Mat, b: Vec, a0: Mat, b0: Vec, n: nat, j: nat, c: real, i: nat)
    requires IsMatrix(a, n, n) && IsMatrix(a0, n, n) && |b| == n && |b0| == n && j < n && i < n && i != j
    requires SameSolutions(a, b, a0, b0, n)
    ensures SameSolutions(AddMultipleRow(a, j, c, i), AddMultiple(b, j, c, i), a0, b0, n)
  {
    var a', b' := AddMultipleRow(a, j, c, i), AddMultiple(b, j, c, i);
    forall x: Vec {:trigger MatVec(a', x)} | |x| == n ensures MatVec(a', x) == b' <==> MatVec(a0, x) == b0 {
      MatVecAddMultiple(a, x, j, c, i);
      AddSameEquation(MatVec(a, x), b, j, c, i);
    }
  }

  lemma SwapKeepsNonsingular(a: Mat, n: nat, p: nat, i: nat)
    requires IsMatrix(a, n, n) && p < n && i < n && Nonsingular(a, n)
    ensures Nonsingular(SwapRows(a, p, i), n)
  {
    var a' := SwapRows(a, p, i);
    forall x: Vec {:trigger MatVec(a', x)} | |x| == n && MatVec(a', x) == Zeros(n) ensures x == Zeros(n) {
      MatVecSwap(a, x, p, i);
      VecEq(SwapRows(Zeros(n), p, i), Zeros(n));
      SwapSameEquation(MatVec(a, x), Zeros(n), p, i);
    }
  }

  lemma AddKeepsNonsingular(a: Mat, n: nat, j: nat, c: real, i: nat)
    requires IsMatrix(a, n, n) && j < n && i < n && i != j && Nonsingular(a, n)
    ensures Nonsingular(AddMultipleRow(a, j, c, i), n)
  {
    var a' := AddMultipleRow(a, j, c, i);
    forall x: Vec {:trigger MatVec(a', x)} | |x| == n && MatVec(a', x) == Zeros(n) ensures x == Zeros(n) {
      MatVecAddMultiple(a, x, j, c, i);
      VecEq(AddMultiple(Zeros(n), j, c, i), Zeros(n));
      AddSameEquation(MatVec(a, x), Zeros(n), j, c, i);
    }
  }

  /** With `c = -A[j][i] / A[i][i]`, the row addition leaves a zero in column `i`. */
  lemma CancelPivot(y: real, p: real)
    requires p != 0.0
    ensures y + (-y / p) * p == 0.0
  {
  }

  /** `x[i] = r[i] / U[i][i]` makes `U[i][i] * x[i] == r[i]`. */
  lemma DivideCancels(r: real, p: real)
    requires p != 0.0
    ensures p * (r / p) == r
  {
  }

  // ---------------------------------------------------------------------------------------------
  // A zero column below the reduced part makes the matrix singular.
  // ---------------------------------------------------------------------------------------------

  /**
   * A nonzero vector with `A . x == 0` when columns `0 .. i-1` are reduced and column `i` is zero from
   * row `i` down: `x[i] = 1`, `x[l] = 0` after `i`, and the entries from `k` to `i - 1` chosen bottom-up so
   * that rows `k .. i-1` of `A . x` vanish.
   */
  ghost function Witness(a: Mat, n: nat, i: nat, k: nat): (x: Vec)
    requires IsMatrix(a, n, n) && k <= i < n && forall l :: k <= l < i ==> a[l][l] != 0.0
    ensures |x| == n
    decreases i - k
  {
    if k == i then seq(n, l => if l == i then 1.0 else 0.0)
    else
      var y := Witness(a, n, i, k + 1);
      y[k := -RangeDot(a[k], y, k + 1, i + 1) / a[k][k]]
  }

  lemma {:induction false} WitnessRows(a: Mat, n: nat, i: nat, k: nat)
    requires IsMatrix(a, n, n) && k <= i < n && forall l :: k <= l < i ==> a[l][l] != 0.0
    ensures var x := Witness(a, n, i, k);
      x[i] == 1.0 && (forall l :: i < l < n ==> x[l] == 0.0) &&
      (forall l :: k <= l < i ==> RangeDot(a[l], x, l, i + 1) == 0.0)
    decreases i - k
  {
    if k < i {
      WitnessRows(a, n, i, k + 1);
      var y := Witness(a, n, i, k + 1);
      var x := Witness(a, n, i, k);
      forall l | k < l < i ensures RangeDot(a[l], x, l, i + 1) == 0.0 {
        RangeDotAgree(a[l], x, y, l, i + 1);
      }
      RangeDotAgree(a[k], x, y, k + 1, i + 1);
      CancelPivot(RangeDot(a[k], y, k + 1, i + 1), a[k][k]);
    }
  }

  lemma ZeroColumnSingular(a: Mat, n: nat, i: nat)
    requires IsMatrix(a, n, n) && i < n && Reduced(a, n, i)
    requires forall j :: i <= j < n ==> a[j][i] == 0.0
    ensures !Nonsingular(a, n)
  {
    var x := Witness(a, n, i, 0);
    WitnessRows(a, n, i, 0);
    forall j | 0 <= j < n ensures MatVec(a, x)[j] == 0.0 {
      if j < i {
        DotSplit(a[j], x, j);
        DotToZeros(a[j], x, j);
        RangeDotSplit(a[j], x, j, i + 1, n);
        RangeDotZeros(a[j], x, i + 1, n);
      } else {
        DotSplit(a[j], x, i + 1);
        DotToZeros(a[j], x, i + 1);
        RangeDotZeros(a[j], x, i + 1, n);
      }
    }
    VecEq(MatVec(a, x), Zeros(n));
    assert x[i] != Zeros(n)[i];
  }

  /** The largest pivot candidate of a nonsingular, partly reduced matrix is nonzero. */
  lemma PivotNonzero(a: Mat, n: nat, i: nat, p: nat)
    requires IsMatrix(a, n, n) && i <= p < n && Reduced(a, n, i) && Nonsingular(a, n)
    requires forall j :: i <= j < n ==> Abs(a[j][i]) <= Abs(a[p][i])
    ensures a[p][i] != 0.0
  {
    if a[p][i] == 0.0 {
      ZeroColumnSingular(a, n, i);
      assert false;
    }
  }

  // ---------------------------------------------------------------------------------------------
  // The upper-triangular solve.
  // ---------------------------------------------------------------------------------------------

  /** Rows `i .. n-1` of the upper-triangular system `U . x == y` hold. */
  ghost predicate SolvedFrom(u: Mat, n: nat, x: Vec, y: Vec, i: nat)
    requires IsMatrix(u, n, n) && |x| == n && |y| == n && i <= n
  {
    forall k :: i <= k < n ==> RangeDot(u[k], x, k, n) == y[k]
  }

  /** Rows above `i` of `r` hold `y` less the terms of the unknowns `x[i ..]` solved so far. */
  ghost predicate PendingAbove(u: Mat, n: nat, x: Vec, y: Vec, r: Vec, i: nat, lo: nat)
    requires IsMatrix(u, n, n) && |x| == n && |y| == n && |r| == n && i <= lo <= n
  {
    forall j :: 0 <= j < i ==> r[j] == y[j] - RangeDot(u[j], x, lo, n)
  }

  /** The solved rows from `lo` down only read the unknowns from `lo` on. */
  lemma SolvedFromAgree(u: Mat, n: nat, x: Vec, x': Vec, y: Vec, lo: nat)
    requires IsMatrix(u, n, n) && |x| == n && |x'| == n && |y| == n && lo <= n
    requires SolvedFrom(u, n, x, y, lo) && forall l :: lo <= l < n ==> x[l] == x'[l]
    ensures SolvedFrom(u, n, x', y, lo)
  {
    forall k | lo <= k < n ensures RangeDot(u[k], x', k, n) == y[k] {
      RangeDotAgree(u[k], x', x, k, n);
    }
  }

  /** `x[i] = r[i] / U[i][i]` with `r[i]` the right-hand side less the solved terms makes row `i` hold. */
  lemma SolvePivotRow(u: Mat, n: nat, x: Vec, y: Vec, r: Vec, i: nat)
    requires IsMatrix(u, n, n) && |x| == n && |y| == n && |r| == n && i < n && u[i][i] != 0.0
    requires r[i] == y[i] - RangeDot(u[i], x, i + 1, n)
    ensures RangeDot(u[i], x[i := r[i] / u[i][i]], i, n) == y[i]
  {
    var x' := x[i := r[i] / u[i][i]];
    RangeDotAgree(u[i], x', x, i + 1, n);
    var pivot, rest := u[i][i], RangeDot(u[i], x, i + 1, n);
    DivideCancels(r[i], pivot);
    assert RangeDot(u[i], x', i, n) == pivot * (r[i] / pivot) + rest;
  }

  /** Solving row `i` (`x[i] = r[i] / U[i][i]`) extends the solved rows down to `i`. */
  lemma SolveRow(u: Mat, n: nat, x: Vec, y: Vec, r: Vec, i: nat)
    requires IsMatrix(u, n, n) && |x| == n && |y| == n && |r| == n && i < n && u[i][i] != 0.0
    requires SolvedFrom(u, n, x, y, i + 1) && r[i] == y[i] - RangeDot(u[i], x, i + 1, n)
    ensures SolvedFrom(u, n, x[i := r[i] / u[i][i]], y, i)
  {
    var x' := x[i := r[i] / u[i][i]];
    SolvedFromAgree(u, n, x, x', y, i + 1);
    SolvePivotRow(u, n, x, y, r, i);
  }

  /** A fully solved upper-triangular system: `U . x == y`. */
  lemma SolvedSystem(u: Mat, n: nat, x: Vec, y: Vec)
    requires IsMatrix(u, n, n) && |x| == n && |y| == n && Reduced(u, n, n) && SolvedFrom(u, n, x, y, 0)
    ensures MatVec(u, x) == y
  {
    forall k | 0 <= k < n ensures MatVec(u, x)[k] == y[k] {
      DotSplit(u[k], x, k);
      DotToZeros(u[k], x, k);
    }
    VecEq(MatVec(u, x), y);
  }

  /** The unknowns `x[lo ..]` are all the pending rows read. */
  lemma PendingAgree(u: Mat, n: nat, x: Vec, x': Vec, y: Vec, r: Vec, i: nat, lo: nat)
    requires IsMatrix(u, n, n) && |x| == n && |x'| == n && |y| == n && |r| == n && i <= lo <= n
    requires PendingAbove(u, n, x, y, r, i, lo) && forall l :: lo <= l < n ==> x[l] == x'[l]
    ensures PendingAbove(u, n, x', y, r, i, lo)
  {
    forall j | 0 <= j < i ensures r[j] == y[j] - RangeDot(u[j], x', lo, n) {
      RangeDotAgree(u[j], x', x, lo, n);
    }
  }

  // ---------------------------------------------------------------------------------------------
  // Elimination keeps the reduced columns reduced.
  // ---------------------------------------------------------------------------------------------

  /** Swapping two rows at or below `i` keeps columns `0 .. i-1` reduced. */
  lemma SwapKeepsReduced(a: Mat, n: nat, i: nat, p: nat)
    requires IsMatrix(a, n, n) && i <= p < n && Reduced(a, n, i)
    ensures IsMatrix(SwapRows(a, p, i), n, n) && Reduced(SwapRows(a, p, i), n, i)
  {
  }

  /** Adding a multiple of row `i` to a row below it keeps columns `0 .. i-1` reduced. */
  lemma AddKeepsReduced(a: Mat, n: nat, i: nat, j: nat, c: real)
    requires IsMatrix(a, n, n) && i < j < n && Reduced(a, n, i)
    ensures IsMatrix(AddMultipleRow(a, j, c, i), n, n) && Reduced(AddMultipleRow(a, j, c, i), n, i)
    ensures AddMultipleRow(a, j, c, i)[j][i] == a[j][i] + c * a[i][i]
    ensures forall k :: 0 <= k < n && k != j ==> AddMultipleRow(a, j, c, i)[k] == a[k]
  {
    var a' := AddMultipleRow(a, j, c, i);
    forall k | 0 <= k < i ensures a'[j][k] == 0.0 {
      assert a'[j][k] == a[j][k] + c * a[i][k];
    }
  }

  // ---------------------------------------------------------------------------------------------
  // The two procedures.
  // ---------------------------------------------------------------------------------------------

  /**
   * The pivot search: `max_row` starts at `i` and moves to a later row only when that row's entry in
   * column `i` is strictly larger in magnitude, so it ends at the first row with the largest one.
   */
  method SelectPivot(a: Mat, n: nat, i: nat) returns (maxRow: nat)
    requires IsMatrix(a, n, n) && i < n
    ensures i <= maxRow < n
    ensures forall j :: i <= j < n ==> Abs(a[j][i]) <= Abs(a[maxRow][i])
    ensures forall j :: i <= j < maxRow ==> Abs(a[j][i]) < Abs(a[maxRow][i])
  {
    var maxVal := Abs(a[i][i]);
    maxRow := i;
    for j := i + 1 to n
      invariant i <= maxRow < j && maxVal == Abs(a[maxRow][i])
      invariant forall k :: i <= k < j ==> Abs(a[k][i]) <= maxVal
      invariant forall k :: i <= k < maxRow ==> Abs(a[k][i]) < maxVal
    {
      if Abs(a[j][i]) > maxVal {
        maxVal := Abs(a[j][i]);
        maxRow := j;
      }
    }
  }

  /**
   * The forward sweep of `linear_solve(A, b)`: for each column, the pivot search, the swap of `b` and `A`
   * rows, and the row additions that clear the column below the pivot. The system keeps its solutions
   * and ends upper triangular with nonzero pivots.
   */
  method EliminateSystem(a0: Mat, b0: Vec, n: nat) returns (a: Mat, b: Vec)
    requires IsMatrix(a0, n, n) && |b0| == n && Nonsingular(a0, n)
    ensures IsMatrix(a, n, n) && |b| == n && Reduced(a, n, n) && SameSolutions(a, b, a0, b0, n)
  {
    a, b := a0, b0;
    for i := 0 to n
      invariant IsMatrix(a, n, n) && |b| == n
      invariant SameSolutions(a, b, a0, b0, n) && Nonsingular(a, n) && Reduced(a, n, i)
    {
      var maxRow := SelectPivot(a, n, i);
      PivotNonzero(a, n, i, maxRow);
      SwapKeepsSolutions(a, b, a0, b0, n, maxRow, i);
      SwapKeepsNonsingular(a, n, maxRow, i);
      SwapKeepsReduced(a, n, i, maxRow);
      b := SwapRows(b, maxRow, i);
      a := SwapRows(a, maxRow, i);

      for j := i + 1 to n
        invariant IsMatrix(a, n, n) && |b| == n
        invariant SameSolutions(a, b, a0, b0, n) && Nonsingular(a, n) && Reduced(a, n, i)
        invariant a[i][i] != 0.0 && forall k :: i < k < j ==> a[k][i] == 0.0
      {
        var c := -a[j][i] / a[i][i];
        AddKeepsSolutions(a, b, a0, b0, n, j, c, i);
        AddKeepsNonsingular(a, n, j, c, i);
        AddKeepsReduced(a, n, i, j, c);
        CancelPivot(a[j][i], a[i][i]);
        a := a[j := VAdd(a[j], VScale(c, a[i]))];
        b := b[j := b[j] + c * b[i]];
        VecEq(a[j][i := 0.0], a[j]);
        assert a[j := a[j][i := 0.0]] == a;
        a := a[j := a[j][i := 0.0]];
      }
    }
  }

  /**
   * The backward sweep of `linear_solve(A, b)`: from the last row up, `x[i] = b[i] / A[i][i]` and then
   * `b[j] -= A[j][i] * x[i]` for every row `j` above. It solves the upper-triangular system.
   */
  method SolveUpper(a: Mat, b0: Vec, n: nat) returns (x: Vec)
    requires IsMatrix(a, n, n) && |b0| == n && Reduced(a, n, n)
    ensures |x| == n && MatVec(a, x) == b0
  {
    var b := b0;
    x := Zeros(n);
    for i := n downto 0
      invariant |x| == n && |b| == n
      invariant SolvedFrom(a, n, x, b0, i) && PendingAbove(a, n, x, b0, b, i, i)
    {
      SolveRow(a, n, x, b0, b, i);
      ghost var x0 := x;
      x := x[i := b[i] / a[i][i]];
      PendingAgree(a, n, x0, x, b0, b, i, i + 1);
      for j := i downto 0
        invariant |b| == n
        invariant forall k :: 0 <= k < i ==> b[k] == b0[k] - RangeDot(a[k], x, if k >= j then i else i + 1, n)
      {
        b := b[j := b[j] - a[j][i] * x[i]];
      }
    }
    SolvedSystem(a, n, x, b0);
  }

  /**
   * `linear_solve(A, b)`: the forward sweep on copies of `A` and `b`, then the backward sweep. For a
   * nonsingular `A` the result solves `A . x == b`.
   */
  method LinearSolve(a0: Mat, b0: Vec, n: nat) returns (x: Vec)
    requires IsMatrix(a0, n, n) && |b0| == n && Nonsingular(a0, n)
    ensures |x| == n && MatVec(a0, x) == b0
  {
    var a, b := EliminateSystem(a0, b0, n);
    x := SolveUpper(a, b, n);
  }
}
