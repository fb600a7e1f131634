/**
 * The n-by-n `inv(A)` of `tensor.hpp`: the row operations of `linear_solve` applied to `A` and to
 * `B = DenseIdentity<n>()` together, skipping the row additions whose multiplier would be zero, then
 * the upper-triangular solve done in place on the rows of `B`. Each column of `B` is a right-hand side
 * that the row operations treat as `linear_solve` treats `b`, so the proof works column by column.
 */
module Inverse {
  import opened Matrices
  import opened MatrixOps
  import opened Elimination

  /** Every column `c` of `A . X == B` has the same solutions as column `c` of `A0 . X == B0`. */
  ghost predicate SameColumnSolutions(a: Mat, bm: Mat, a0: Mat, bm0: Mat, n: nat)
    requires IsMatrix(a, n, n) && IsMatrix(bm, n, n) && IsMatrix(a0, n, n) && IsMatrix(bm0, n, n)
  {
    forall c :: 0 <= c < n ==> SameSolutions(a, Column(bm, n, c), a0, Column(bm0, n, c), n)
  }

  /** `B[i] / s`: every entry of the row divided by `s`. */
  function VDivide(u: Vec, s: real): (w: Vec)
    requires s != 0.0
    ensures |w| == |u| && forall k :: 0 <= k < |u| ==> w[k] == u[k] / s
  {
    seq(|u|, k requires 0 <= k < |u| => u[k] / s)
  }

  /**
   * Rows above `i` of `r` hold `y` less the solved terms; the rows from `j` up to `i - 1` have also had
   * the term of unknown `i` taken off.
   */
  ghost predicate PendingSplit(u: Mat, n: nat, x: Vec, y: Vec, r: Vec, i: nat, j: nat)
    requires IsMatrix(u, n, n) && |x| == n && |y| == n && |r| == n && i < n
  {
    forall k :: 0 <= k < i ==> r[k] == y[k] - RangeDot(u[k], x, if k >= j then i else i + 1, n)
  }

  // ---------------------------------------------------------------------------------------------
  // Forward elimination, one column of `B` at a time.
  // ---------------------------------------------------------------------------------------------

  lemma SwapKeepsColumnSolutions(a: Mat, bm: Mat, a0: Mat, bm0: Mat, n: nat, p: nat, i: nat)
    requires IsMatrix(a, n, n) && IsMatrix(bm, n, n) && IsMatrix(a0, n, n) && IsMatrix(bm0, n, n)
    requires p < n && i < n && SameColumnSolutions(a, bm, a0, bm0, n)
    ensures IsMatrix(SwapRows(a, p, i), n, n) && IsMatrix(SwapRows(bm, p, i), n, n)
    ensures SameColumnSolutions(SwapRows(a, p, i), SwapRows(bm, p, i), a0, bm0, n)
  {
    forall c | 0 <= c < n
      ensures SameSolutions(SwapRows(a, p, i), Column(SwapRows(bm, p, i), n, c), a0, Column(bm0, n, c), n)
    {
      ColumnSwap(bm, n, c, p, i);
      SwapKeepsSolutions(a, Column(bm, n, c), a0, Column(bm0, n, c), n, p, i);
    }
  }

  lemma AddKeepsColumnSolutions(a: Mat, bm: Mat, a0: Mat, bm0: Mat, n: nat, j: nat, s: real, i: nat)
    requires IsMatrix(a, n, n) && IsMatrix(bm, n, n) && IsMatrix(a0, n, n) && IsMatrix(bm0, n, n)
    requires j < n && i < n && i != j && SameColumnSolutions(a, bm, a0, bm0, n)
    ensures IsMatrix(AddMultipleRow(a, j, s, i), n, n) && IsMatrix(AddMultipleRow(bm, j, s, i), n, n)
    ensures SameColumnSolutions(AddMultipleRow(a, j, s, i), AddMultipleRow(bm, j, s, i), a0, bm0, n)
  {
    forall c | 0 <= c < n
      ensures SameSolutions(AddMultipleRow(a, j, s, i), Column(AddMultipleRow(bm, j, s, i), n, c),
                            a0, Column(bm0, n, c), n)
    {
      ColumnAddMultiple(bm, n, c, j, s, i);
      AddKeepsSolutions(a, Column(bm, n, c), a0, Column(bm0, n, c), n, j, s, i);
    }
  }

  /**
   * The forward sweep of `inv(A)`: `B` starts as the identity; for each column the pivot search, the
   * swap of `B` and `A` rows, and, for each row below with a nonzero entry in the column, the row
   * addition that clears it.
   */
  method EliminateAgainstIdentity(a0: Mat, n: nat) returns (a: Mat, bm: Mat)
    requires IsMatrix(a0, n, n) && Nonsingular(a0, n)
    ensures IsMatrix(a, n, n) && IsMatrix(bm, n, n) && Reduced(a, n, n)
    ensures SameColumnSolutions(a, bm, a0, Identity(n), n)
  {
    bm := DenseIdentity(n);
    a := a0;
    for i := 0 to n
      invariant IsMatrix(a, n, n) && IsMatrix(bm, n, n)
      invariant SameColumnSolutions(a, bm, a0, Identity(n), n) && Nonsingular(a, n) && Reduced(a, n, i)
    {
      var maxRow := SelectPivot(a, n, i);
      PivotNonzero(a, n, i, maxRow);
      SwapKeepsColumnSolutions(a, bm, a0, Identity(n), n, maxRow, i);
      SwapKeepsNonsingular(a, n, maxRow, i);
      SwapKeepsReduced(a, n, i, maxRow);
      bm := SwapRows(bm, maxRow, i);
      a := SwapRows(a, maxRow, i);

      for j := i + 1 to n
        invariant IsMatrix(a, n, n) && IsMatrix(bm, n, n)
        invariant SameColumnSolutions(a, bm, a0, Identity(n), n) && Nonsingular(a, n) && Reduced(a, n, i)
        invariant a[i][i] != 0.0 && forall k :: i < k < j ==> a[k][i] == 0.0
      {
        if a[j][i] != 0.0 {
          var c := -a[j][i] / a[i][i];
          AddKeepsColumnSolutions(a, bm, a0, Identity(n), n, j, c, i);
          AddKeepsNonsingular(a, n, j, c, i);
          AddKeepsReduced(a, n, i, j, c);
          CancelPivot(a[j][i], a[i][i]);
          a := a[j := VAdd(a[j], VScale(c, a[i]))];
          bm := bm[j := VAdd(bm[j], VScale(c, bm[i]))];
          VecEq(a[j][i := 0.0], a[j]);
          assert a[j := a[j][i := 0.0]] == a;
          a := a[j := a[j][i := 0.0]];
        }
      }
    }
  }

  // ---------------------------------------------------------------------------------------------
  // The in-place upper-triangular solve, one column of `B` at a time.
  // ---------------------------------------------------------------------------------------------

  /** `x[i] = x[i] / U[i][i]` on a column that holds both the pending and the solved entries. */
  lemma DivideStep(u: Mat, n: nat, x: Vec, y: Vec, i: nat)
    requires IsMatrix(u, n, n) && |x| == n && |y| == n && i < n && u[i][i] != 0.0
    requires SolvedFrom(u, n, x, y, i + 1) && PendingAbove(u, n, x, y, x, i + 1, i + 1)
    ensures SolvedFrom(u, n, x[i := x[i] / u[i][i]], y, i)
    ensures PendingSplit(u, n, x[i := x[i] / u[i][i]], y, x[i := x[i] / u[i][i]], i, i)
  {
    var x' := x[i := x[i] / u[i][i]];
    SolveRow(u, n, x, y, x, i);
    forall k | 0 <= k < i ensures x'[k] == y[k] - RangeDot(u[k], x', i + 1, n) {
      RangeDotAgree(u[k], x', x, i + 1, n);
    }
  }

  /** `x[j] -= U[j][i] * x[i]` when `U[j][i]` is nonzero (and nothing otherwise), for a row `j` above `i`. */
  lemma SubtractStep(u: Mat, n: nat, x: Vec, y: Vec, i: nat, j: nat)
    requires IsMatrix(u, n, n) && |x| == n && |y| == n && j < i < n
    requires SolvedFrom(u, n, x, y, i) && PendingSplit(u, n, x, y, x, i, j + 1)
    ensures var x' := if u[j][i] != 0.0 then x[j := x[j] - u[j][i] * x[i]] else x;
      SolvedFrom(u, n, x', y, i) && PendingSplit(u, n, x', y, x', i, j)
  {
    var x' := if u[j][i] != 0.0 then x[j := x[j] - u[j][i] * x[i]] else x;
    SolvedFromAgree(u, n, x, x', y, i);
    forall k | 0 <= k < i ensures x'[k] == y[k] - RangeDot(u[k], x', if k >= j then i else i + 1, n) {
      RangeDotAgree(u[k], x', x, i, n);
      RangeDotAgree(u[k], x', x, i + 1, n);
    }
  }

  /** Solved and pending facts about every column of `X` against the columns of `Y`. */
  ghost predicate ColumnsSplit(u: Mat, n: nat, xm: Mat, ym: Mat, i: nat, j: nat)
    requires IsMatrix(u, n, n) && IsMatrix(xm, n, n) && IsMatrix(ym, n, n) && i < n
  {
    forall c :: 0 <= c < n ==>
      SolvedFrom(u, n, Column(xm, n, c), Column(ym, n, c), i) &&
      PendingSplit(u, n, Column(xm, n, c), Column(ym, n, c), Column(xm, n, c), i, j)
  }

  lemma DivideRowStep(u: Mat, n: nat, xm: Mat, ym: Mat, i: nat)
    requires IsMatrix(u, n, n) && IsMatrix(xm, n, n) && IsMatrix(ym, n, n) && i < n && u[i][i] != 0.0
    requires forall c :: 0 <= c < n ==>
      SolvedFrom(u, n, Column(xm, n, c), Column(ym, n, c), i + 1) &&
      PendingAbove(u, n, Column(xm, n, c), Column(ym, n, c), Column(xm, n, c), i + 1, i + 1)
    ensures IsMatrix(xm[i := VDivide(xm[i], u[i][i])], n, n)
    ensures ColumnsSplit(u, n, xm[i := VDivide(xm[i], u[i][i])], ym, i, i)
  {
    var xm' := xm[i := VDivide(xm[i], u[i][i])];
    forall c | 0 <= c < n
      ensures SolvedFrom(u, n, Column(xm', n, c), Column(ym, n, c), i) &&
        PendingSplit(u, n, Column(xm', n, c), Column(ym, n, c), Column(xm', n, c), i, i)
    {
      var col := Column(xm, n, c);
      VecEq(Column(xm', n, c), col[i := col[i] / u[i][i]]);
      DivideStep(u, n, col, Column(ym, n, c), i);
    }
  }

  lemma SubtractRowStep(u: Mat, n: nat, xm: Mat, ym: Mat, i: nat, j: nat)
    requires IsMatrix(u, n, n) && IsMatrix(xm, n, n) && IsMatrix(ym, n, n) && j < i < n
    requires ColumnsSplit(u, n, xm, ym, i, j + 1)
    ensures var xm' := if u[j][i] != 0.0 then xm[j := VSub(xm[j], VScale(u[j][i], xm[i]))] else xm;
      IsMatrix(xm', n, n) && ColumnsSplit(u, n, xm', ym, i, j)
  {
    var xm' := if u[j][i] != 0.0 then xm[j := VSub(xm[j], VScale(u[j][i], xm[i]))] else xm;
    forall c | 0 <= c < n
      ensures SolvedFrom(u, n, Column(xm', n, c), Column(ym, n, c), i) &&
        PendingSplit(u, n, Column(xm', n, c), Column(ym, n, c), Column(xm', n, c), i, j)
    {
      var col := Column(xm, n, c);
      if u[j][i] != 0.0 {
        VecEq(Column(xm', n, c), col[j := col[j] - u[j][i] * col[i]]);
      }
      SubtractStep(u, n, col, Column(ym, n, c), i, j);
    }
  }

  /**
   * The backward sweep of `inv(A)`: from the last row up, `B[i] = B[i] / A[i][i]`, then
   * `B[j] -= A[j][i] * B[i]` for every row `j` above with `A[j][i]` nonzero. Every column of the result
   * solves the upper-triangular system against the same column of the starting `B`.
   */
  method SolveUpperInPlace(a: Mat, bm0: Mat, n: nat) returns (bm: Mat)
    requires IsMatrix(a, n, n) && IsMatrix(bm0, n, n) && Reduced(a, n, n)
    ensures IsMatrix(bm, n, n)
    ensures forall c :: 0 <= c < n ==> MatVec(a, Column(bm, n, c)) == Column(bm0, n, c)
  {
    bm := bm0;
    for i := n downto 0
      invariant IsMatrix(bm, n, n)
      invariant forall c :: 0 <= c < n ==>
        SolvedFrom(a, n, Column(bm, n, c), Column(bm0, n, c), i) &&
        PendingAbove(a, n, Column(bm, n, c), Column(bm0, n, c), Column(bm, n, c), i, i)
    {
      DivideRowStep(a, n, bm, bm0, i);
      bm := bm[i := VDivide(bm[i], a[i][i])];
      for j := i downto 0
        invariant IsMatrix(bm, n, n) && ColumnsSplit(a, n, bm, bm0, i, j)
      {
        SubtractRowStep(a, n, bm, bm0, i, j);
        if a[j][i] != 0.0 {
          bm := bm[j := VSub(bm[j], VScale(a[j][i], bm[i]))];
        }
      }
    }
    forall c | 0 <= c < n ensures MatVec(a, Column(bm, n, c)) == Column(bm0, n, c) {
      SolvedSystem(a, n, Column(bm, n, c), Column(bm0, n, c));
    }
  }

  // ---------------------------------------------------------------------------------------------
  // The inverse.
  // ---------------------------------------------------------------------------------------------

  /** `A . X == B` column by column. */
  lemma MatMulByColumns(a: Mat, xm: Mat, bm: Mat, n: nat)
    requires IsMatrix(a, n, n) && IsMatrix(xm, n, n) && IsMatrix(bm, n, n)
    requires forall c :: 0 <= c < n ==> MatVec(a, Column(xm, n, c)) == Column(bm, n, c)
    ensures MatMul(a, xm, n) == bm
  {
    forall r, c | 0 <= r < n && 0 <= c < n ensures MatMul(a, xm, n)[r][c] == bm[r][c] {
      assert MatVec(a, Column(xm, n, c))[r] == Column(bm, n, c)[r];
    }
    MatEq(MatMul(a, xm, n), bm, n, n);
  }

  /** A nonsingular matrix is one-to-one: `A . u == A . v` only when `u == v`. */
  lemma NonsingularInjective(a: Mat, n: nat, u: Vec, v: Vec)
    requires IsMatrix(a, n, n) && |u| == n && |v| == n && Nonsingular(a, n) && MatVec(a, u) == MatVec(a, v)
    ensures u == v
  {
    var d := VSub(u, v);
    forall r | 0 <= r < n ensures MatVec(a, d)[r] == 0.0 {
      DotCommutes(a[r], d);
      DotSubLeft(u, v, a[r]);
      DotCommutes(u, a[r]);
      DotCommutes(v, a[r]);
      assert MatVec(a, u)[r] == MatVec(a, v)[r];
    }
    VecEq(MatVec(a, d), Zeros(n));
    assert d == Zeros(n);
    VecEq(u, v);
  }

  /** For a nonsingular `A`, a right inverse is also a left inverse. */
  lemma RightInverseIsLeftInverse(a: Mat, w: Mat, n: nat)
    requires IsMatrix(a, n, n) && IsMatrix(w, n, n) && Nonsingular(a, n) && MatMul(a, w, n) == Identity(n)
    ensures MatMul(w, a, n) == Identity(n)
  {
    var wa := MatMul(w, a, n);
    calc {
      MatMul(a, wa, n);
    == { MatMulAssociative(a, w, a, n); }
      MatMul(Identity(n), a, n);
    == { MatMulIdentity(a, n); }
      a;
    == { MatMulIdentity(a, n); }
      MatMul(a, Identity(n), n);
    }
    forall c | 0 <= c < n ensures Column(wa, n, c) == Column(Identity(n), n, c) {
      MatMulColumn(a, wa, n, c);
      MatMulColumn(a, Identity(n), n, c);
      NonsingularInjective(a, n, Column(wa, n, c), Column(Identity(n), n, c));
    }
    forall r, c | 0 <= r < n && 0 <= c < n ensures wa[r][c] == Identity(n)[r][c] {
      assert Column(wa, n, c)[r] == Column(Identity(n), n, c)[r];
    }
    MatEq(wa, Identity(n), n, n);
  }

  /** A nonsingular matrix has one inverse: any two right inverses agree. */
  lemma InverseUnique(a: Mat, w: Mat, w': Mat, n: nat)
    requires IsMatrix(a, n, n) && IsMatrix(w, n, n) && IsMatrix(w', n, n) && Nonsingular(a, n)
    requires MatMul(a, w, n) == Identity(n) && MatMul(a, w', n) == Identity(n)
    ensures w == w'
  {
    forall c | 0 <= c < n ensures Column(w, n, c) == Column(w', n, c) {
      MatMulColumn(a, w, n, c);
      MatMulColumn(a, w', n, c);
      NonsingularInjective(a, n, Column(w, n, c), Column(w', n, c));
    }
    forall r, c | 0 <= r < n && 0 <= c < n ensures w[r][c] == w'[r][c] {
      assert Column(w, n, c)[r] == Column(w', n, c)[r];
    }
    MatEq(w, w', n, n);
  }

  /**
   * `inv(A)` for an n-by-n `A` by Gaussian elimination with partial pivoting. For a nonsingular `A` the
   * result is its two-sided inverse.
   */
  method InvGeneral(a0: Mat, n: nat) returns (inv: Mat)
    requires IsMatrix(a0, n, n) && Nonsingular(a0, n)
    ensures IsMatrix(inv, n, n)
    ensures MatMul(a0, inv, n) == Identity(n) && MatMul(inv, a0, n) == Identity(n)
  {
    var a, bm := EliminateAgainstIdentity(a0, n);
    inv := SolveUpperInPlace(a, bm, n);
    forall c | 0 <= c < n ensures MatVec(a0, Column(inv, n, c)) == Column(Identity(n), n, c) {
      assert SameSolutions(a, Column(bm, n, c), a0, Column(Identity(n), n, c), n);
      assert MatVec(a, Column(inv, n, c)) == Column(bm, n, c);
    }
    MatMulByColumns(a0, inv, Identity(n), n);
    RightInverseIsLeftInverse(a0, inv, n);
  }
}
