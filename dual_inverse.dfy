/**
 * `inv` of an n-by-n matrix of dual numbers: the value part is inverted as a plain matrix and each
 * gradient is the analytic derivative of the inverse, `-(A^-1 . dA . A^-1)[i][j]`, summed entry by entry
 * as the source's double loop does. The gradient type is one real (one directional derivative); a
 * gradient with several components is that, component by component.
 */
module DualInverse {
  import opened Matrices
  import opened Elimination
  import opened Inverse
  import opened SmallMatrices
  import Duals

  type DualMat = seq<seq<Duals.Dual<real>>>

  /** `A` has `n` rows of `n` dual numbers. */
  predicate IsDualMatrix(a: DualMat, n: nat) {
    |a| == n && forall i :: 0 <= i < n ==> |a[i]| == n
  }

  /** `get_value(A)`: the matrix of value parts. */
  function ValueMatrix(a: DualMat): (v: Mat)
    ensures |v| == |a| && forall i :: 0 <= i < |a| ==> |v[i]| == |a[i]|
    ensures forall i, j :: 0 <= i < |a| && 0 <= j < |a[i]| ==> v[i][j] == a[i][j].value
  {
    seq(|a|, i requires 0 <= i < |a| => seq(|a[i]|, j requires 0 <= j < |a[i]| => a[i][j].value))
  }

  /** The matrix of gradient parts. */
  function GradientMatrix(a: DualMat): (g: Mat)
    ensures |g| == |a| && forall i :: 0 <= i < |a| ==> |g[i]| == |a[i]|
    ensures forall i, j :: 0 <= i < |a| && 0 <= j < |a[i]| ==> g[i][j] == a[i][j].gradient
  {
    seq(|a|, i requires 0 <= i < |a| => seq(|a[i]|, j requires 0 <= j < |a[i]| => a[i][j].gradient))
  }

  /**
   * Entry `(i, j)` of the result: the value `invA[i][j]` and the gradient that starts at zero and has
   * `invA[i][k] * dA[k][l] * invA[l][j]` taken off for every `k` and, within it, every `l`.
   */
  method InverseEntry(invA: Mat, da: Mat, n: nat, i: nat, j: nat) returns (d: Duals.Dual<real>)
    requires IsMatrix(invA, n, n) && IsMatrix(da, n, n) && i < n && j < n
    ensures d.value == invA[i][j]
    ensures d.gradient == -MatMul(invA, MatMul(da, invA, n), n)[i][j]
  {
    var value := invA[i][j];
    var gradient := 0.0;
    ghost var right := Column(MatMul(da, invA, n), n, j);
    ghost var col := Column(invA, n, j);
    for k := 0 to n
      invariant gradient == -DotTo(invA[i], right, k)
    {
      ghost var before := gradient;
      for l := 0 to n
        invariant gradient == before - invA[i][k] * DotTo(da[k], col, l)
      {
        assert invA[i][k] * da[k][l] * invA[l][j] == invA[i][k] * (da[k][l] * col[l]);
        gradient := gradient - invA[i][k] * da[k][l] * invA[l][j];
      }
    }
    d := Duals.Dual(value, gradient);
  }

  /** Row `row` of the result holds the values `inv` and the gradients `-prod`, entry by entry. */
  predicate RowMatches(row: seq<Duals.Dual<real>>, inv: Vec, prod: Vec, n: nat)
    requires |inv| == n && |prod| == n
  {
    |row| == n && forall q :: 0 <= q < n ==> row[q].value == inv[q] && row[q].gradient == -prod[q]
  }

  /** Row `i` of `make_tensor<n, n>`: the entries `(i, 0)` to `(i, n - 1)`. */
  method InverseRow(invA: Mat, da: Mat, n: nat, i: nat) returns (row: seq<Duals.Dual<real>>)
    requires IsMatrix(invA, n, n) && IsMatrix(da, n, n) && i < n
    ensures RowMatches(row, invA[i], MatMul(invA, MatMul(da, invA, n), n)[i], n)
  {
    ghost var prod := MatMul(invA, MatMul(da, invA, n), n);
    row := [];
    for j := 0 to n
      invariant |row| == j
      invariant forall q :: 0 <= q < j ==> row[q].value == invA[i][q] && row[q].gradient == -prod[i][q]
    {
      var d := InverseEntry(invA, da, n, i, j);
      row := row + [d];
    }
  }

  /** `make_tensor<n, n>` of the entries: row by row, entry by entry. */
  method InverseEntries(invA: Mat, da: Mat, n: nat) returns (r: DualMat)
    requires IsMatrix(invA, n, n) && IsMatrix(da, n, n)
    ensures IsDualMatrix(r, n)
    ensures forall p, q :: 0 <= p < n && 0 <= q < n ==>
      r[p][q].value == invA[p][q] && r[p][q].gradient == -MatMul(invA, MatMul(da, invA, n), n)[p][q]
  {
    ghost var prod := MatMul(invA, MatMul(da, invA, n), n);
    r := [];
    for i := 0 to n
      invariant |r| == i
      invariant forall p :: 0 <= p < i ==> RowMatches(r[p], invA[p], prod[p], n)
    {
      var row := InverseRow(invA, da, n, i);
      r := r + [row];
    }
    forall p, q | 0 <= p < n && 0 <= q < n
      ensures r[p][q].value == invA[p][q] && r[p][q].gradient == -prod[p][q]
    {
      assert RowMatches(r[p], invA[p], prod[p], n);
    }
  }

  /**
   * `inv(A)` for dual numbers: `invA = inv(get_value(A))`, then the entries. The values form the
   * inverse of the value matrix and the gradients are `-(invA . dA . invA)`.
   */
  method DualInv(a: DualMat, n: nat) returns (r: DualMat)
    requires IsDualMatrix(a, n) && Nonsingular(ValueMatrix(a), n)
    ensures IsDualMatrix(r, n)
    ensures MatMul(ValueMatrix(a), ValueMatrix(r), n) == Identity(n)
    ensures MatMul(ValueMatrix(r), ValueMatrix(a), n) == Identity(n)
    ensures GradientMatrix(r) ==
      MScale(-1.0, MatMul(ValueMatrix(r), MatMul(GradientMatrix(a), ValueMatrix(r), n), n), n)
  {
    var invA := InvGeneral(ValueMatrix(a), n);
    r := InverseEntries(invA, GradientMatrix(a), n);
    MatEq(ValueMatrix(r), invA, n, n);
    MatEq(GradientMatrix(r), MScale(-1.0, MatMul(invA, MatMul(GradientMatrix(a), invA, n), n), n), n, n);
  }

  /** `A . (s X) == s (A . X)`. */
  lemma MatMulScaleRight(a: Mat, x: Mat, s: real, n: nat)
    requires IsMatrix(a, n, n) && IsMatrix(x, n, n)
    ensures MatMul(a, MScale(s, x, n), n) == MScale(s, MatMul(a, x, n), n)
  {
    forall p, q | 0 <= p < n && 0 <= q < n
      ensures MatMul(a, MScale(s, x, n), n)[p][q] == s * MatMul(a, x, n)[p][q]
    {
      VecEq(Column(MScale(s, x, n), n, q), VScale(s, Column(x, n, q)));
      DotCommutes(a[p], VScale(s, Column(x, n, q)));
      DotScaleLeft(s, Column(x, n, q), a[p]);
      DotCommutes(Column(x, n, q), a[p]);
    }
    MatEq(MatMul(a, MScale(s, x, n), n), MScale(s, MatMul(a, x, n), n), n, n);
  }

  /** `(s X) . A == s (X . A)`. */
  lemma MatMulScaleLeft(x: Mat, a: Mat, s: real, n: nat)
    requires IsMatrix(a, n, n) && IsMatrix(x, n, n)
    ensures MatMul(MScale(s, x, n), a, n) == MScale(s, MatMul(x, a, n), n)
  {
    forall p, q | 0 <= p < n && 0 <= q < n
      ensures MatMul(MScale(s, x, n), a, n)[p][q] == s * MatMul(x, a, n)[p][q]
    {
      VecEq(MScale(s, x, n)[p], VScale(s, x[p]));
      DotScaleLeft(s, x[p], Column(a, n, q));
    }
    MatEq(MatMul(MScale(s, x, n), a, n), MScale(s, MatMul(x, a, n), n), n, n);
  }

  /** `X + (-1) X == 0`. */
  lemma AddNegatedIsZero(x: Mat, n: nat)
    requires IsMatrix(x, n, n)
    ensures MAdd(x, MScale(-1.0, x, n), n) == ZeroMat(n, n)
  {
    MatEq(MAdd(x, MScale(-1.0, x, n), n), ZeroMat(n, n), n, n);
  }

  /**
   * The gradient of the inverse is the derivative of `A . A^-1 == I` and of `A^-1 . A == I`: with
   * `dW = -(W . dA . W)`, both `dA . W + A . dW` and `dW . A + W . dA` vanish.
   */
  lemma InverseProductRule(v: Mat, w: Mat, da: Mat, n: nat)
    requires IsMatrix(v, n, n) && IsMatrix(w, n, n) && IsMatrix(da, n, n)
    requires MatMul(v, w, n) == Identity(n) && MatMul(w, v, n) == Identity(n)
    ensures var dw := MScale(-1.0, MatMul(w, MatMul(da, w, n), n), n);
      MAdd(MatMul(da, w, n), MatMul(v, dw, n), n) == ZeroMat(n, n) &&
      MAdd(MatMul(dw, v, n), MatMul(w, da, n), n) == ZeroMat(n, n)
  {
    var daw := MatMul(da, w, n);
    var wdaw := MatMul(w, daw, n);
    calc {
      MatMul(v, MScale(-1.0, wdaw, n), n);
    == { MatMulScaleRight(v, wdaw, -1.0, n); }
      MScale(-1.0, MatMul(v, wdaw, n), n);
    == { MatMulAssociative(v, w, daw, n); }
      MScale(-1.0, MatMul(Identity(n), daw, n), n);
    == { MatMulIdentity(daw, n); }
      MScale(-1.0, daw, n);
    }
    AddNegatedIsZero(daw, n);

    var wda := MatMul(w, da, n);
    calc {
      MatMul(MScale(-1.0, wdaw, n), v, n);
    == { MatMulScaleLeft(wdaw, v, -1.0, n); }
      MScale(-1.0, MatMul(wdaw, v, n), n);
    == { MatMulAssociative(w, da, w, n); }
      MScale(-1.0, MatMul(MatMul(wda, w, n), v, n), n);
    == { MatMulAssociative(wda, w, v, n); }
      MScale(-1.0, MatMul(wda, Identity(n), n), n);
    == { MatMulIdentity(wda, n); }
      MScale(-1.0, wda, n);
    }
    MatEq(MAdd(MScale(-1.0, wda, n), wda, n), ZeroMat(n, n), n, n);
  }

  /** A matrix with a left inverse sends only the zero vector to zero. */
  lemma LeftInverseNonsingular(a: Mat, w: Mat, n: nat)
    requires IsMatrix(a, n, n) && IsMatrix(w, n, n) && MatMul(w, a, n) == Identity(n)
    ensures Nonsingular(a, n)
  {
    forall x: Vec {:trigger MatVec(a, x)} | |x| == n && MatVec(a, x) == Zeros(n)
      ensures x == Zeros(n)
    {
      forall i | 0 <= i < n
        ensures x[i] == 0.0
      {
        MatMulRow(w, a, n, i);
        BilinearGrouping(w[i], a, x);
        DotCommutes(w[i], MatVec(a, x));
        DotZerosLeft(MatVec(a, x), w[i]);
        DotUnit(n, i, x);
      }
      VecEq(x, Zeros(n));
    }
  }

  /**
   * For `n == 2` the source's `inv(get_value(A))` is the 2-by-2 shortcut. Any right inverse of a
   * matrix with nonzero determinant is that shortcut, so the general inverse agrees with it.
   */
  lemma ShortcutAgrees2(a: Mat, w: Mat)
    requires IsMatrix(a, 2, 2) && Det2(a) != 0.0 && IsMatrix(w, 2, 2) && MatMul(a, w, 2) == Identity(2)
    ensures Nonsingular(a, 2)
    ensures w == Inv2(a)
  {
    Inv2IsInverse(a);
    LeftInverseNonsingular(a, Inv2(a), 2);
    InverseUnique(a, w, Inv2(a), 2);
  }

  /** The same for `n == 3` and the 3-by-3 shortcut. */
  lemma ShortcutAgrees3(a: Mat, w: Mat)
    requires IsMatrix(a, 3, 3) && Det3(a) != 0.0 && IsMatrix(w, 3, 3) && MatMul(a, w, 3) == Identity(3)
    ensures Nonsingular(a, 3)
    ensures w == Inv3(a)
  {
    Inv3IsInverse(a);
    LeftInverseNonsingular(a, Inv3(a), 3);
    InverseUnique(a, w, Inv3(a), 3);
  }
}
