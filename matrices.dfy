/**
 * Vectors and matrices of `tensor.hpp` (`tensor<double, n>` and `tensor<double, m, n>`) as sequences of
 * entries and sequences of rows, with the linear algebra the rank-1 and rank-2 operations are specified
 * by. The loops of the source are in the module `MatrixOps`; this module states what they compute.
 */
module Matrices {

  type Vec = seq<real>
  type Mat = seq<seq<real>>

  /** `A` has `m` rows of `n` entries each. */
  predicate IsMatrix(a: Mat, m: nat, n: nat) {
    |a| == m && forall i :: 0 <= i < m ==> |a[i]| == n
  }

  /** The first `k` terms of the dot product, added from the first entry on as `AB = AB + A[i] * B[i]` does. */
  function DotTo(u: Vec, v: Vec, k: nat): real
    requires |u| == |v| && k <= |u|
    decreases k
  {
    if k == 0 then 0.0 else DotTo(u, v, k - 1) + u[k - 1] * v[k - 1]
  }

  /** The dot product. */
  function Dot(u: Vec, v: Vec): real
    requires |u| == |v|
  {
    DotTo(u, v, |u|)
  }

  function Zeros(n: nat): (z: Vec)
    ensures |z| == n && forall i :: 0 <= i < n ==> z[i] == 0.0
  {
    seq(n, i => 0.0)
  }

  function ZeroMat(m: nat, n: nat): (z: Mat)
    ensures IsMatrix(z, m, n) && forall i, j :: 0 <= i < m && 0 <= j < n ==> z[i][j] == 0.0
  {
    seq(m, i => Zeros(n))
  }

  function VAdd(u: Vec, v: Vec): (w: Vec)
    requires |u| == |v|
    ensures |w| == |u| && forall i :: 0 <= i < |u| ==> w[i] == u[i] + v[i]
  {
    seq(|u|, i requires 0 <= i < |u| => u[i] + v[i])
  }

  function VSub(u: Vec, v: Vec): (w: Vec)
    requires |u| == |v|
    ensures |w| == |u| && forall i :: 0 <= i < |u| ==> w[i] == u[i] - v[i]
  {
    seq(|u|, i requires 0 <= i < |u| => u[i] - v[i])
  }

  function VScale(s: real, u: Vec): (w: Vec)
    ensures |w| == |u| && forall i :: 0 <= i < |u| ==> w[i] == s * u[i]
  {
    seq(|u|, i requires 0 <= i < |u| => s * u[i])
  }

  /** Column `j` of `A`. */
  function Column(a: Mat, n: nat, j: nat): (c: Vec)
    requires IsMatrix(a, |a|, n) && j < n
    ensures |c| == |a| && forall i :: 0 <= i < |a| ==> c[i] == a[i][j]
  {
    seq(|a|, i requires 0 <= i < |a| => a[i][j])
  }

  /** `A . v`: entry `i` is the dot product of row `i` with `v`. */
  function MatVec(a: Mat, v: Vec): (w: Vec)
    requires IsMatrix(a, |a|, |v|)
    ensures |w| == |a| && forall i :: 0 <= i < |a| ==> w[i] == Dot(a[i], v)
  {
    seq(|a|, i requires 0 <= i < |a| => Dot(a[i], v))
  }

  /** `u . A` for an `|u|`-by-`n` matrix: entry `j` is the dot product of `u` with column `j`. */
  function VecMat(u: Vec, a: Mat, n: nat): (w: Vec)
    requires IsMatrix(a, |u|, n)
    ensures |w| == n && forall j :: 0 <= j < n ==> w[j] == Dot(u, Column(a, n, j))
  {
    seq(n, j requires 0 <= j < n => Dot(u, Column(a, n, j)))
  }

  /** `A . B` for `B` with `p` columns. */
  function MatMul(a: Mat, b: Mat, p: nat): (c: Mat)
    requires IsMatrix(a, |a|, |b|) && IsMatrix(b, |b|, p)
    ensures IsMatrix(c, |a|, p)
    ensures forall i, j :: 0 <= i < |a| && 0 <= j < p ==> c[i][j] == Dot(a[i], Column(b, p, j))
  {
    seq(|a|, i requires 0 <= i < |a| => seq(p, j requires 0 <= j < p => Dot(a[i], Column(b, p, j))))
  }

  /** `A^T` of an `m`-by-`n` matrix: `AT[i][j] == A[j][i]`. */
  function Transpose(a: Mat, n: nat): (t: Mat)
    requires IsMatrix(a, |a|, n)
    ensures IsMatrix(t, n, |a|) && forall i, j :: 0 <= i < n && 0 <= j < |a| ==> t[i][j] == a[j][i]
  {
    seq(n, i requires 0 <= i < n => Column(a, n, i))
  }

  /** `outer(u, v)`: `AB[i][j] == u[i] * v[j]`. */
  function Outer(u: Vec, v: Vec): (c: Mat)
    ensures IsMatrix(c, |u|, |v|) && forall i, j :: 0 <= i < |u| && 0 <= j < |v| ==> c[i][j] == u[i] * v[j]
  {
    seq(|u|, i requires 0 <= i < |u| => VScale(u[i], v))
  }

  /** The `n`-by-`n` identity. */
  function Identity(n: nat): (e: Mat)
    ensures IsMatrix(e, n, n) && forall i, j :: 0 <= i < n && 0 <= j < n ==> e[i][j] == if i == j then 1.0 else 0.0
  {
    seq(n, i requires 0 <= i < n => seq(n, j requires 0 <= j < n => if i == j then 1.0 else 0.0))
  }

  /** The sum of the first `k` diagonal entries, added in order. */
  function DiagonalSum(a: Mat, k: nat): real
    requires k <= |a| && forall i :: 0 <= i < |a| ==> |a[i]| == |a|
    decreases k
  {
    if k == 0 then 0.0 else DiagonalSum(a, k - 1) + a[k - 1][k - 1]
  }

  /** `tr(A)`. */
  function Trace(a: Mat): real
    requires IsMatrix(a, |a|, |a|)
  {
    DiagonalSum(a, |a|)
  }

  /** `sym(A) = (A + A^T) / 2`. */
  function Sym(a: Mat): (s: Mat)
    requires IsMatrix(a, |a|, |a|)
    ensures IsMatrix(s, |a|, |a|)
    ensures forall i, j :: 0 <= i < |a| && 0 <= j < |a| ==> s[i][j] == 0.5 * (a[i][j] + a[j][i])
  {
    seq(|a|, i requires 0 <= i < |a| => seq(|a|, j requires 0 <= j < |a| => 0.5 * (a[i][j] + a[j][i])))
  }

  /** `antisym(A) = (A - A^T) / 2`. */
  function Antisym(a: Mat): (s: Mat)
    requires IsMatrix(a, |a|, |a|)
    ensures IsMatrix(s, |a|, |a|)
    ensures forall i, j :: 0 <= i < |a| && 0 <= j < |a| ==> s[i][j] == 0.5 * (a[i][j] - a[j][i])
  {
    seq(|a|, i requires 0 <= i < |a| => seq(|a|, j requires 0 <= j < |a| => 0.5 * (a[i][j] - a[j][i])))
  }

  /** `dev(A)`: `A` with the mean of its diagonal subtracted from each diagonal entry. */
  function Dev(a: Mat): (d: Mat)
    requires IsMatrix(a, |a|, |a|)
    ensures IsMatrix(d, |a|, |a|)
  {
    var n := |a|;
    seq(n, i requires 0 <= i < n => seq(n, j requires 0 <= j < n => if i == j then a[i][j] - Trace(a) / n as real else a[i][j]))
  }

  function MAdd(a: Mat, b: Mat, n: nat): (c: Mat)
    requires IsMatrix(a, |a|, n) && IsMatrix(b, |a|, n)
    ensures IsMatrix(c, |a|, n) && forall i, j :: 0 <= i < |a| && 0 <= j < n ==> c[i][j] == a[i][j] + b[i][j]
  {
    seq(|a|, i requires 0 <= i < |a| => VAdd(a[i], b[i]))
  }

  function MScale(s: real, a: Mat, n: nat): (c: Mat)
    requires IsMatrix(a, |a|, n)
    ensures IsMatrix(c, |a|, n) && forall i, j :: 0 <= i < |a| && 0 <= j < n ==> c[i][j] == s * a[i][j]
  {
    seq(|a|, i requires 0 <= i < |a| => VScale(s, a[i]))
  }

  /** The first `k` rows of `inner(A, B)`: the sum of the entrywise products, row by row. */
  function FrobeniusTo(a: Mat, b: Mat, k: nat): real
    requires |a| == |b| && k <= |a| && forall i :: 0 <= i < |a| ==> |a[i]| == |b[i]|
    decreases k
  {
    if k == 0 then 0.0 else FrobeniusTo(a, b, k - 1) + Dot(a[k - 1], b[k - 1])
  }

  /** `inner(A, B)` and `ddot(A, B)` of two `m`-by-`n` matrices: the sum of the entrywise products. */
  function Frobenius(a: Mat, b: Mat): real
    requires |a| == |b| && forall i :: 0 <= i < |a| ==> |a[i]| == |b[i]|
  {
    FrobeniusTo(a, b, |a|)
  }

  /** Vectors with the same entries are equal. */
  lemma VecEq(u: Vec, v: Vec)
    requires |u| == |v| && forall i :: 0 <= i < |u| ==> u[i] == v[i]
    ensures u == v
  {
  }

  /** Matrices of the same shape with the same entries are equal. */
  lemma MatEq(a: Mat, b: Mat, m: nat, n: nat)
    requires IsMatrix(a, m, n) && IsMatrix(b, m, n)
    requires forall i, j :: 0 <= i < m && 0 <= j < n ==> a[i][j] == b[i][j]
    ensures a == b
  {
    forall i | 0 <= i < m ensures a[i] == b[i] {
      VecEq(a[i], b[i]);
    }
  }

  // ---------------------------------------------------------------------------------------------
  // The dot product.
  // ---------------------------------------------------------------------------------------------

  lemma {:induction false} DotToCommutes(u: Vec, v: Vec, k: nat)
    requires |u| == |v| && k <= |u|
    ensures DotTo(u, v, k) == DotTo(v, u, k)
    decreases k
  {
    if k > 0 {
      DotToCommutes(u, v, k - 1);
    }
  }

  lemma DotCommutes(u: Vec, v: Vec)
    requires |u| == |v|
    ensures Dot(u, v) == Dot(v, u)
  {
    DotToCommutes(u, v, |u|);
  }

  lemma {:induction false} DotToScaleLeft(s: real, u: Vec, v: Vec, k: nat)
    requires |u| == |v| && k <= |u|
    ensures DotTo(VScale(s, u), v, k) == s * DotTo(u, v, k)
    decreases k
  {
    if k > 0 {
      DotToScaleLeft(s, u, v, k - 1);
      assert VScale(s, u)[k - 1] == s * u[k - 1];
    }
  }

  lemma DotScaleLeft(s: real, u: Vec, v: Vec)
    requires |u| == |v|
    ensures Dot(VScale(s, u), v) == s * Dot(u, v)
  {
    DotToScaleLeft(s, u, v, |u|);
  }

  lemma {:induction false} DotToAddLeft(u: Vec, w: Vec, v: Vec, k: nat)
    requires |u| == |w| == |v| && k <= |u|
    ensures DotTo(VAdd(u, w), v, k) == DotTo(u, v, k) + DotTo(w, v, k)
    decreases k
  {
    if k > 0 {
      DotToAddLeft(u, w, v, k - 1);
      assert VAdd(u, w)[k - 1] == u[k - 1] + w[k - 1];
    }
  }

  lemma DotAddLeft(u: Vec, w: Vec, v: Vec)
    requires |u| == |w| == |v|
    ensures Dot(VAdd(u, w), v) == Dot(u, v) + Dot(w, v)
  {
    DotToAddLeft(u, w, v, |u|);
  }

  lemma {:induction false} DotToSubLeft(u: Vec, w: Vec, v: Vec, k: nat)
    requires |u| == |w| == |v| && k <= |u|
    ensures DotTo(VSub(u, w), v, k) == DotTo(u, v, k) - DotTo(w, v, k)
    decreases k
  {
    if k > 0 {
      DotToSubLeft(u, w, v, k - 1);
      assert VSub(u, w)[k - 1] == u[k - 1] - w[k - 1];
    }
  }

  lemma DotSubLeft(u: Vec, w: Vec, v: Vec)
    requires |u| == |w| == |v|
    ensures Dot(VSub(u, w), v) == Dot(u, v) - Dot(w, v)
  {
    DotToSubLeft(u, w, v, |u|);
  }

  /** Terms with a zero left factor contribute nothing. */
  lemma {:induction false} DotToZeros(u: Vec, v: Vec, k: nat)
    requires |u| == |v| && k <= |u| && forall i :: 0 <= i < k ==> u[i] == 0.0
    ensures DotTo(u, v, k) == 0.0
    decreases k
  {
    if k > 0 {
      DotToZeros(u, v, k - 1);
    }
  }

  lemma DotZerosLeft(u: Vec, v: Vec)
    requires |u| == |v| && forall i :: 0 <= i < |u| ==> u[i] == 0.0
    ensures Dot(u, v) == 0.0
  {
    DotToZeros(u, v, |u|);
  }

  lemma {:induction false} DotToUnit(n: nat, k: nat, v: Vec, m: nat)
    requires |v| == n && k < n && m <= n
    ensures DotTo(Identity(n)[k], v, m) == if k < m then v[k] else 0.0
    decreases m
  {
    if m > 0 {
      DotToUnit(n, k, v, m - 1);
    }
  }

  /** Dotting with a row of the identity picks out one entry. */
  lemma DotUnit(n: nat, k: nat, v: Vec)
    requires |v| == n && k < n
    ensures Dot(Identity(n)[k], v) == v[k]
  {
    DotToUnit(n, k, v, n);
  }

  lemma {:induction false} DotToSelf(u: Vec, k: nat)
    requires k <= |u|
    ensures DotTo(u, u, k) >= 0.0
    decreases k
  {
    if k > 0 {
      DotToSelf(u, k - 1);
    }
  }

  // ---------------------------------------------------------------------------------------------
  // Matrix products.
  // ---------------------------------------------------------------------------------------------

  /** `A . I == A`. */
  lemma MatVecIdentity(v: Vec)
    ensures MatVec(Identity(|v|), v) == v
  {
    forall i | 0 <= i < |v| ensures MatVec(Identity(|v|), v)[i] == v[i] {
      DotUnit(|v|, i, v);
    }
  }

  /** `u . A == A^T . u`. */
  lemma VecMatIsTransposedMatVec(u: Vec, a: Mat, n: nat)
    requires IsMatrix(a, |u|, n)
    ensures VecMat(u, a, n) == MatVec(Transpose(a, n), u)
  {
    var t := Transpose(a, n);
    forall j | 0 <= j < n ensures VecMat(u, a, n)[j] == MatVec(t, u)[j] {
      assert t[j] == Column(a, n, j);
      DotCommutes(u, Column(a, n, j));
    }
  }

  /** `(A^T)^T == A`. */
  lemma TransposeTwice(a: Mat, n: nat)
    requires IsMatrix(a, |a|, n)
    ensures Transpose(Transpose(a, n), |a|) == a
  {
    var tt := Transpose(Transpose(a, n), |a|);
    forall i | 0 <= i < |a| ensures tt[i] == a[i] { }
  }

  /** `u . B` summed over the first `k` rows of `B` only. */
  function PartialVecMat(u: Vec, b: Mat, n: nat, k: nat): (w: Vec)
    requires IsMatrix(b, |u|, n) && k <= |u|
    ensures |w| == n && forall j :: 0 <= j < n ==> w[j] == DotTo(u, Column(b, n, j), k)
  {
    seq(n, j requires 0 <= j < n => DotTo(u, Column(b, n, j), k))
  }

  lemma {:induction false} PartialVecMatDot(u: Vec, b: Mat, c: Vec, k: nat)
    requires IsMatrix(b, |u|, |c|) && k <= |u|
    ensures Dot(PartialVecMat(u, b, |c|, k), c) == DotTo(u, MatVec(b, c), k)
    decreases k
  {
    var n := |c|;
    if k == 0 {
      DotZerosLeft(PartialVecMat(u, b, n, 0), c);
    } else {
      PartialVecMatDot(u, b, c, k - 1);
      var p := PartialVecMat(u, b, n, k);
      var q := PartialVecMat(u, b, n, k - 1);
      var r := VScale(u[k - 1], b[k - 1]);
      VecEq(p, VAdd(q, r));
      DotAddLeft(q, r, c);
      DotScaleLeft(u[k - 1], b[k - 1], c);
    }
  }

  /** `(u . B) . c == u . (B . c)`: the step behind associativity. */
  lemma VecMatDot(u: Vec, b: Mat, c: Vec)
    requires IsMatrix(b, |u|, |c|)
    ensures Dot(VecMat(u, b, |c|), c) == Dot(u, MatVec(b, c))
  {
    PartialVecMatDot(u, b, c, |u|);
    VecEq(VecMat(u, b, |c|), PartialVecMat(u, b, |c|, |u|));
  }

  /** Row `i` of `A . B` is `A[i] . B`. */
  lemma MatMulRow(a: Mat, b: Mat, p: nat, i: nat)
    requires IsMatrix(a, |a|, |b|) && IsMatrix(b, |b|, p) && i < |a|
    ensures MatMul(a, b, p)[i] == VecMat(a[i], b, p)
  {
  }

  /** Column `j` of `A . B` is `A . B[:, j]`. */
  lemma MatMulColumn(a: Mat, b: Mat, p: nat, j: nat)
    requires IsMatrix(a, |a|, |b|) && IsMatrix(b, |b|, p) && j < p
    ensures Column(MatMul(a, b, p), p, j) == MatVec(a, Column(b, p, j))
  {
  }

  /** `(A . B) . C == A . (B . C)`. */
  lemma MatMulAssociative(a: Mat, b: Mat, c: Mat, q: nat)
    requires IsMatrix(a, |a|, |b|) && IsMatrix(b, |b|, |c|) && IsMatrix(c, |c|, q)
    ensures MatMul(MatMul(a, b, |c|), c, q) == MatMul(a, MatMul(b, c, q), q)
  {
    var ab := MatMul(a, b, |c|);
    var bc := MatMul(b, c, q);
    forall i, j | 0 <= i < |a| && 0 <= j < q
      ensures MatMul(ab, c, q)[i][j] == MatMul(a, bc, q)[i][j]
    {
      MatMulRow(a, b, |c|, i);
      MatMulColumn(b, c, q, j);
      VecMatDot(a[i], b, Column(c, q, j));
    }
    MatEq(MatMul(ab, c, q), MatMul(a, bc, q), |a|, q);
  }

  /** `I . A == A` and `A . I == A`. */
  lemma MatMulIdentity(a: Mat, n: nat)
    requires IsMatrix(a, |a|, n)
    ensures MatMul(Identity(|a|), a, n) == a
    ensures MatMul(a, Identity(n), n) == a
  {
    forall i, j | 0 <= i < |a| && 0 <= j < n ensures MatMul(Identity(|a|), a, n)[i][j] == a[i][j] {
      DotUnit(|a|, i, Column(a, n, j));
    }
    forall i, j | 0 <= i < |a| && 0 <= j < n ensures MatMul(a, Identity(n), n)[i][j] == a[i][j] {
      VecEq(Column(Identity(n), n, j), Identity(n)[j]);
      DotCommutes(a[i], Identity(n)[j]);
      DotUnit(n, j, a[i]);
    }
    MatEq(MatMul(Identity(|a|), a, n), a, |a|, n);
    MatEq(MatMul(a, Identity(n), n), a, |a|, n);
  }

  /** `u . (A . v) == (u . A) . v`: the value of `dot(u, A, v)` does not depend on the grouping. */
  lemma BilinearGrouping(u: Vec, a: Mat, v: Vec)
    requires IsMatrix(a, |u|, |v|)
    ensures Dot(u, MatVec(a, v)) == Dot(VecMat(u, a, |v|), v)
  {
    VecMatDot(u, a, v);
  }

  /** `outer(u, v) . w == (v . w) u`. */
  lemma OuterMatVec(u: Vec, v: Vec, w: Vec)
    requires |v| == |w|
    ensures MatVec(Outer(u, v), w) == VScale(Dot(v, w), u)
  {
    forall i | 0 <= i < |u| ensures MatVec(Outer(u, v), w)[i] == VScale(Dot(v, w), u)[i] {
      OuterRowDot(u, v, w, i);
    }
    VecEq(MatVec(Outer(u, v), w), VScale(Dot(v, w), u));
  }

  lemma OuterRowDot(u: Vec, v: Vec, w: Vec, i: nat)
    requires |v| == |w| && i < |u|
    ensures MatVec(Outer(u, v), w)[i] == VScale(Dot(v, w), u)[i]
  {
    var d := Dot(v, w);
    assert Dot(Outer(u, v)[i], w) == u[i] * d by {
      assert Outer(u, v)[i] == VScale(u[i], v);
      DotScaleLeft(u[i], v, w);
    }
    assert VScale(d, u)[i] == d * u[i];
  }

  /** `outer(u, v)^T == outer(v, u)`. */
  lemma OuterTranspose(u: Vec, v: Vec)
    ensures Transpose(Outer(u, v), |v|) == Outer(v, u)
  {
    var t := Transpose(Outer(u, v), |v|);
    forall i | 0 <= i < |v| ensures t[i] == Outer(v, u)[i] { }
  }

  // ---------------------------------------------------------------------------------------------
  // Trace, symmetric and antisymmetric parts, deviator.
  // ---------------------------------------------------------------------------------------------

  lemma {:induction false} DiagonalSumOfDiagonals(a: Mat, b: Mat, k: nat)
    requires IsMatrix(a, |a|, |a|) && IsMatrix(b, |a|, |a|) && k <= |a|
    requires forall i :: 0 <= i < k ==> a[i][i] == b[i][i]
    ensures DiagonalSum(a, k) == DiagonalSum(b, k)
    decreases k
  {
    if k > 0 {
      DiagonalSumOfDiagonals(a, b, k - 1);
    }
  }

  /** `tr(A^T) == tr(A)`. */
  lemma TraceTranspose(a: Mat)
    requires IsMatrix(a, |a|, |a|)
    ensures Trace(Transpose(a, |a|)) == Trace(a)
  {
    DiagonalSumOfDiagonals(Transpose(a, |a|), a, |a|);
  }

  lemma {:induction false} DiagonalSumShifted(a: Mat, d: Mat, c: real, k: nat)
    requires IsMatrix(a, |a|, |a|) && IsMatrix(d, |a|, |a|) && k <= |a|
    requires forall i :: 0 <= i < |a| ==> d[i][i] == a[i][i] - c
    ensures DiagonalSum(d, k) == DiagonalSum(a, k) - k as real * c
    decreases k
  {
    if k > 0 {
      DiagonalSumShifted(a, d, c, k - 1);
    }
  }

  /** The deviator is trace-free: `tr(dev(A)) == 0` for `n >= 1`. */
  lemma DevTraceFree(a: Mat)
    requires IsMatrix(a, |a|, |a|) && |a| > 0
    ensures Trace(Dev(a)) == 0.0
  {
    var n := |a|;
    DiagonalSumShifted(a, Dev(a), Trace(a) / n as real, n);
  }

  /** `dev(A)` differs from `A` only on the diagonal, by the mean of its diagonal: `dev(A) + (tr(A)/n) I == A`. */
  lemma DevPlusSpherical(a: Mat)
    requires IsMatrix(a, |a|, |a|) && |a| > 0
    ensures MAdd(Dev(a), MScale(Trace(a) / |a| as real, Identity(|a|), |a|), |a|) == a
  {
    var n := |a|;
    var r := MAdd(Dev(a), MScale(Trace(a) / n as real, Identity(n), n), n);
    forall i | 0 <= i < n ensures r[i] == a[i] {
      assert forall j :: 0 <= j < n ==> r[i][j] == a[i][j];
    }
  }

  /** `sym(A) + antisym(A) == A`. */
  lemma SymPlusAntisym(a: Mat)
    requires IsMatrix(a, |a|, |a|)
    ensures MAdd(Sym(a), Antisym(a), |a|) == a
  {
    var r := MAdd(Sym(a), Antisym(a), |a|);
    forall i | 0 <= i < |a| ensures r[i] == a[i] {
      assert forall j :: 0 <= j < |a| ==> r[i][j] == a[i][j];
    }
  }

  /** `sym(A)` is symmetric and `antisym(A)` is antisymmetric. */
  lemma SymAntisymTranspose(a: Mat)
    requires IsMatrix(a, |a|, |a|)
    ensures Transpose(Sym(a), |a|) == Sym(a)
    ensures Transpose(Antisym(a), |a|) == MScale(-1.0, Antisym(a), |a|)
  {
    var n := |a|;
    forall i | 0 <= i < n ensures Transpose(Sym(a), n)[i] == Sym(a)[i] {
      assert forall j :: 0 <= j < n ==> Transpose(Sym(a), n)[i][j] == Sym(a)[i][j];
    }
    forall i | 0 <= i < n ensures Transpose(Antisym(a), n)[i] == MScale(-1.0, Antisym(a), n)[i] {
      assert forall j :: 0 <= j < n ==> Transpose(Antisym(a), n)[i][j] == MScale(-1.0, Antisym(a), n)[i][j];
    }
  }

  /** Taking the symmetric part twice changes nothing, and a symmetric matrix is its own symmetric part. */
  lemma SymIdempotent(a: Mat)
    requires IsMatrix(a, |a|, |a|)
    ensures Sym(Sym(a)) == Sym(a)
    ensures Transpose(a, |a|) == a ==> Sym(a) == a
  {
    var n := |a|;
    forall i | 0 <= i < n ensures Sym(Sym(a))[i] == Sym(a)[i] {
      assert forall j :: 0 <= j < n ==> Sym(Sym(a))[i][j] == Sym(a)[i][j];
    }
    if Transpose(a, n) == a {
      forall i | 0 <= i < n ensures Sym(a)[i] == a[i] {
        forall j | 0 <= j < n ensures Sym(a)[i][j] == a[i][j] {
          assert Transpose(a, n)[j][i] == a[i][j];
        }
      }
    }
  }

  lemma {:induction false} FrobeniusToIdentity(a: Mat, k: nat)
    requires IsMatrix(a, |a|, |a|) && k <= |a|
    ensures FrobeniusTo(a, Identity(|a|), k) == DiagonalSum(a, k)
    decreases k
  {
    if k > 0 {
      var n := |a|;
      FrobeniusToIdentity(a, k - 1);
      DotCommutes(a[k - 1], Identity(n)[k - 1]);
      DotUnit(n, k - 1, a[k - 1]);
    }
  }

  /** `inner(A, I) == tr(A)`. */
  lemma FrobeniusIdentity(a: Mat)
    requires IsMatrix(a, |a|, |a|)
    ensures Frobenius(a, Identity(|a|)) == Trace(a)
  {
    FrobeniusToIdentity(a, |a|);
  }

  lemma {:induction false} FrobeniusToSelf(a: Mat, k: nat)
    requires k <= |a|
    ensures FrobeniusTo(a, a, k) >= 0.0
    decreases k
  {
    if k > 0 {
      FrobeniusToSelf(a, k - 1);
      DotToSelf(a[k - 1], |a[k - 1]|);
    }
  }

  /** `inner(A, A) >= 0`: the squared Frobenius norm is nonnegative. */
  lemma FrobeniusSelf(a: Mat)
    ensures Frobenius(a, a) >= 0.0
  {
    FrobeniusToSelf(a, |a|);
  }

  // Sign facts about products, stated over a named product `s` so that the solver keeps it as one term.

  function Sq(x: real): real { x * x }

  lemma ProductSigns(p: real, q: real, s: real)
    requires s == p * q
    ensures p > 0.0 && q > 0.0 ==> s > 0.0
    ensures p >= 0.0 && q >= 0.0 ==> s >= 0.0
    ensures p > 0.0 && s > 0.0 ==> q > 0.0
    ensures p != 0.0 && q != 0.0 ==> s != 0.0
  { }

  lemma SquareSigns(x: real)
    ensures Sq(x) >= 0.0 && (x != 0.0 ==> Sq(x) > 0.0)
  {
    if x > 0.0 {
      ProductSigns(x, x, Sq(x));
    } else if x < 0.0 {
      ProductSigns(-x, -x, Sq(x));
    }
  }
}
