/**
 * The closed forms of `tensor.hpp` for 2-by-2 and 3-by-3 matrices: `det`, the shortcut `inv`, and
 * `is_symmetric_and_positive_definite`, with what they are meant to compute: an inverse on both sides,
 * and Sylvester's criterion for positive definiteness.
 */
module SmallMatrices {
  import opened Matrices
  import opened MatrixOps

  /** `det(A)` of a 2-by-2 matrix. */
  function Det2(a: Mat): real
    requires IsMatrix(a, 2, 2)
  {
    a[0][0] * a[1][1] - a[0][1] * a[1][0]
  }

  /** `det(A)` of a 3-by-3 matrix, the six terms in the source's order. */
  function Det3(a: Mat): real
    requires IsMatrix(a, 3, 3)
  {
    a[0][0] * a[1][1] * a[2][2] + a[0][1] * a[1][2] * a[2][0] + a[0][2] * a[1][0] * a[2][1] -
    a[0][0] * a[1][2] * a[2][1] - a[0][1] * a[1][0] * a[2][2] - a[0][2] * a[1][1] * a[2][0]
  }

  /** `inv(A)` of a 2-by-2 matrix: the adjugate times `1 / det(A)`. */
  function Inv2(a: Mat): (r: Mat)
    requires IsMatrix(a, 2, 2) && Det2(a) != 0.0
    ensures IsMatrix(r, 2, 2)
  {
    var invDet := 1.0 / Det2(a);
    [[a[1][1] * invDet, -a[0][1] * invDet],
     [-a[1][0] * invDet, a[0][0] * invDet]]
  }

  /**
   * The adjugate (the transposed cofactor matrix) of a 3-by-3 matrix: the parenthesised differences of
   * the source's `inv`, before the scaling by `1 / det(A)`.
   */
  function Adj3(a: Mat): (r: Mat)
    requires IsMatrix(a, 3, 3)
    ensures IsMatrix(r, 3, 3)
  {
    [[a[1][1] * a[2][2] - a[1][2] * a[2][1], a[0][2] * a[2][1] - a[0][1] * a[2][2], a[0][1] * a[1][2] - a[0][2] * a[1][1]],
     [a[1][2] * a[2][0] - a[1][0] * a[2][2], a[0][0] * a[2][2] - a[0][2] * a[2][0], a[0][2] * a[1][0] - a[0][0] * a[1][2]],
     [a[1][0] * a[2][1] - a[1][1] * a[2][0], a[0][1] * a[2][0] - a[0][0] * a[2][1], a[0][0] * a[1][1] - a[0][1] * a[1][0]]]
  }

  /** `inv(A)` of a 3-by-3 matrix: each adjugate entry times `1 / det(A)`. */
  function Inv3(a: Mat): (r: Mat)
    requires IsMatrix(a, 3, 3) && Det3(a) != 0.0
    ensures IsMatrix(r, 3, 3)
  {
    var c := Adj3(a);
    var invDet := 1.0 / Det3(a);
    seq(3, i requires 0 <= i < 3 => seq(3, j requires 0 <= j < 3 => c[i][j] * invDet))
  }

  lemma Dot2(u: Vec, v: Vec)
    requires |u| == |v| == 2
    ensures Dot(u, v) == u[0] * v[0] + u[1] * v[1]
  {
    assert DotTo(u, v, 1) == u[0] * v[0];
  }

  lemma Dot3(u: Vec, v: Vec)
    requires |u| == |v| == 3
    ensures Dot(u, v) == u[0] * v[0] + u[1] * v[1] + u[2] * v[2]
  {
    assert DotTo(u, v, 1) == u[0] * v[0];
    assert DotTo(u, v, 2) == u[0] * v[0] + u[1] * v[1];
  }

  /** An entry of a 3-by-3 product, written out. */
  lemma MatMul3At(a: Mat, b: Mat, i: nat, j: nat)
    requires IsMatrix(a, 3, 3) && IsMatrix(b, 3, 3) && i < 3 && j < 3
    ensures MatMul(a, b, 3)[i][j] == a[i][0] * b[0][j] + a[i][1] * b[1][j] + a[i][2] * b[2][j]
  {
    Dot3(a[i], Column(b, 3, j));
  }

  /** An entry of a 2-by-2 product, written out. */
  lemma MatMul2At(a: Mat, b: Mat, i: nat, j: nat)
    requires IsMatrix(a, 2, 2) && IsMatrix(b, 2, 2) && i < 2 && j < 2
    ensures MatMul(a, b, 2)[i][j] == a[i][0] * b[0][j] + a[i][1] * b[1][j]
  {
    Dot2(a[i], Column(b, 2, j));
  }

  /** The cross product of two 3-vectors; the adjugate's columns and rows are cross products. */
  function Cross(u: Vec, v: Vec): (w: Vec)
    requires |u| == |v| == 3
    ensures |w| == 3
  {
    [u[1] * v[2] - u[2] * v[1], u[2] * v[0] - u[0] * v[2], u[0] * v[1] - u[1] * v[0]]
  }

  /** The triple product `x . (y x z)` is the determinant with rows `x`, `y`, `z`. */
  lemma TripleProduct(x: Vec, y: Vec, z: Vec)
    requires |x| == |y| == |z| == 3
    ensures Dot(x, Cross(y, z)) == Det3([x, y, z])
  {
    Dot3(x, Cross(y, z));
  }

  /** A triple product with a repeated vector vanishes. */
  lemma TripleProductRepeated(y: Vec, z: Vec)
    requires |y| == |z| == 3
    ensures Dot(y, Cross(y, z)) == 0.0 && Dot(z, Cross(y, z)) == 0.0
  {
    Dot3(y, Cross(y, z));
    Dot3(z, Cross(y, z));
  }

  /** The columns of the adjugate are cross products of rows. */
  lemma AdjugateColumns(a: Mat)
    requires IsMatrix(a, 3, 3)
    ensures Column(Adj3(a), 3, 0) == Cross(a[1], a[2])
    ensures Column(Adj3(a), 3, 1) == Cross(a[2], a[0])
    ensures Column(Adj3(a), 3, 2) == Cross(a[0], a[1])
  {
    VecEq(Column(Adj3(a), 3, 0), Cross(a[1], a[2]));
    VecEq(Column(Adj3(a), 3, 1), Cross(a[2], a[0]));
    VecEq(Column(Adj3(a), 3, 2), Cross(a[0], a[1]));
  }

  /** Row 0 of the adjugate is the cross product of columns 1 and 2. */
  lemma AdjugateRow0(a: Mat)
    requires IsMatrix(a, 3, 3)
    ensures Adj3(a)[0] == Cross(Column(a, 3, 1), Column(a, 3, 2))
  {
    var k1, k2 := Column(a, 3, 1), Column(a, 3, 2);
    assert k1[0] == a[0][1] && k1[1] == a[1][1] && k1[2] == a[2][1];
    assert k2[0] == a[0][2] && k2[1] == a[1][2] && k2[2] == a[2][2];
    var w := Cross(k1, k2);
    assert w[0] == k1[1] * k2[2] - k1[2] * k2[1] && w[1] == k1[2] * k2[0] - k1[0] * k2[2] && w[2] == k1[0] * k2[1] - k1[1] * k2[0];
    assert Adj3(a)[0][0] == w[0] by { assert a[1][2] * a[2][1] == a[2][1] * a[1][2]; }
    assert Adj3(a)[0][1] == w[1] by { assert a[0][2] * a[2][1] == a[2][1] * a[0][2]; }
    assert Adj3(a)[0][2] == w[2] by { assert a[0][2] * a[1][1] == a[1][1] * a[0][2]; }
    VecEq(Adj3(a)[0], w);
  }

  /** Row 1 of the adjugate is the cross product of columns 2 and 0. */
  lemma AdjugateRow1(a: Mat)
    requires IsMatrix(a, 3, 3)
    ensures Adj3(a)[1] == Cross(Column(a, 3, 2), Column(a, 3, 0))
  {
    var k2, k0 := Column(a, 3, 2), Column(a, 3, 0);
    assert k0[0] == a[0][0] && k0[1] == a[1][0] && k0[2] == a[2][0];
    assert k2[0] == a[0][2] && k2[1] == a[1][2] && k2[2] == a[2][2];
    var w := Cross(k2, k0);
    assert w[0] == k2[1] * k0[2] - k2[2] * k0[1] && w[1] == k2[2] * k0[0] - k2[0] * k0[2] && w[2] == k2[0] * k0[1] - k2[1] * k0[0];
    assert Adj3(a)[1][0] == w[0] by { assert a[1][0] * a[2][2] == a[2][2] * a[1][0]; }
    assert Adj3(a)[1][1] == w[1] by { assert a[0][0] * a[2][2] == a[2][2] * a[0][0]; }
    assert Adj3(a)[1][2] == w[2] by { assert a[0][0] * a[1][2] == a[1][2] * a[0][0]; }
    VecEq(Adj3(a)[1], w);
  }

  /** Row 2 of the adjugate is the cross product of columns 0 and 1. */
  lemma AdjugateRow2(a: Mat)
    requires IsMatrix(a, 3, 3)
    ensures Adj3(a)[2] == Cross(Column(a, 3, 0), Column(a, 3, 1))
  {
    var k0, k1 := Column(a, 3, 0), Column(a, 3, 1);
    assert k0[0] == a[0][0] && k0[1] == a[1][0] && k0[2] == a[2][0];
    assert k1[0] == a[0][1] && k1[1] == a[1][1] && k1[2] == a[2][1];
    var w := Cross(k0, k1);
    assert w[0] == k0[1] * k1[2] - k0[2] * k1[1] && w[1] == k0[2] * k1[0] - k0[0] * k1[2] && w[2] == k0[0] * k1[1] - k0[1] * k1[0];
    assert Adj3(a)[2][0] == w[0] by { assert a[1][1] * a[2][0] == a[2][0] * a[1][1]; }
    assert Adj3(a)[2][1] == w[1] by { assert a[0][1] * a[2][0] == a[2][0] * a[0][1]; }
    assert Adj3(a)[2][2] == w[2] by { assert a[0][1] * a[1][0] == a[1][0] * a[0][1]; }
    VecEq(Adj3(a)[2], w);
  }

  /** Rotating the rows leaves the determinant alone, and so does transposing. */
  lemma Det3Symmetries(a: Mat)
    requires IsMatrix(a, 3, 3)
    ensures Det3([a[1], a[2], a[0]]) == Det3(a)
    ensures Det3([a[2], a[0], a[1]]) == Det3(a)
    ensures Det3([Column(a, 3, 0), Column(a, 3, 1), Column(a, 3, 2)]) == Det3(a)
    ensures Det3([Column(a, 3, 1), Column(a, 3, 2), Column(a, 3, 0)]) == Det3(a)
    ensures Det3([Column(a, 3, 2), Column(a, 3, 0), Column(a, 3, 1)]) == Det3(a)
  { }

  /** Cramer's rule on the right: a matrix times its adjugate is `det(A)` times the identity. */
  lemma AdjugateRight(a: Mat)
    requires IsMatrix(a, 3, 3)
    ensures forall i, j :: 0 <= i < 3 && 0 <= j < 3 ==> MatMul(a, Adj3(a), 3)[i][j] == (if i == j then Det3(a) else 0.0)
  {
    AdjugateColumns(a);
    Det3Symmetries(a);
    TripleProduct(a[0], a[1], a[2]);
    TripleProduct(a[1], a[2], a[0]);
    TripleProduct(a[2], a[0], a[1]);
    TripleProductRepeated(a[1], a[2]);
    TripleProductRepeated(a[2], a[0]);
    TripleProductRepeated(a[0], a[1]);
  }

  /** Cramer's rule on the left: the adjugate times its matrix is `det(A)` times the identity. */
  lemma AdjugateLeft(a: Mat)
    requires IsMatrix(a, 3, 3)
    ensures forall i, j :: 0 <= i < 3 && 0 <= j < 3 ==> MatMul(Adj3(a), a, 3)[i][j] == (if i == j then Det3(a) else 0.0)
  {
    var c := Adj3(a);
    var k0, k1, k2 := Column(a, 3, 0), Column(a, 3, 1), Column(a, 3, 2);
    AdjugateRow0(a);
    AdjugateRow1(a);
    AdjugateRow2(a);
    Det3Symmetries(a);
    TripleProduct(k0, k1, k2);
    TripleProduct(k1, k2, k0);
    TripleProduct(k2, k0, k1);
    TripleProductRepeated(k1, k2);
    TripleProductRepeated(k2, k0);
    TripleProductRepeated(k0, k1);
    forall i, j | 0 <= i < 3 && 0 <= j < 3
      ensures Dot(c[i], Column(a, 3, j)) == Dot(Column(a, 3, j), c[i])
    {
      DotCommutes(c[i], Column(a, 3, j));
    }
  }

  /** The eight sums of products that make up `A . adj(A)` and `adj(A) . A` for a 2-by-2 `A`. */
  lemma Adjugate2Sums(a00: real, a01: real, a10: real, a11: real)
    ensures a00 * a11 + a01 * -a10 == a00 * a11 - a01 * a10
    ensures a00 * -a01 + a01 * a00 == 0.0 && a10 * a11 + a11 * -a10 == 0.0
    ensures a10 * -a01 + a11 * a00 == a00 * a11 - a01 * a10
    ensures a11 * a00 + -a01 * a10 == a00 * a11 - a01 * a10
    ensures a11 * a01 + -a01 * a11 == 0.0 && -a10 * a00 + a00 * a10 == 0.0
    ensures -a10 * a01 + a00 * a11 == a00 * a11 - a01 * a10
  { }

  /** `A . adj(A)` entry by entry, for the 2-by-2 adjugate `[[a11, -a01], [-a10, a00]]`. */
  lemma Adjugate2Right(a: Mat, c: Mat, d: real)
    requires IsMatrix(a, 2, 2) && c == [[a[1][1], -a[0][1]], [-a[1][0], a[0][0]]] && d == Det2(a)
    ensures forall i, j :: 0 <= i < 2 && 0 <= j < 2 ==> MatMul(a, c, 2)[i][j] == (if i == j then d else 0.0)
  {
    MatMul2At(a, c, 0, 0);
    MatMul2At(a, c, 0, 1);
    MatMul2At(a, c, 1, 0);
    MatMul2At(a, c, 1, 1);
    Adjugate2Sums(a[0][0], a[0][1], a[1][0], a[1][1]);
    forall i, j | 0 <= i < 2 && 0 <= j < 2
      ensures MatMul(a, c, 2)[i][j] == (if i == j then d else 0.0)
    {
      if i == 0 {
        if j == 0 { } else { }
      }
    }
  }

  /** `adj(A) . A` entry by entry. */
  lemma Adjugate2Left(a: Mat, c: Mat, d: real)
    requires IsMatrix(a, 2, 2) && c == [[a[1][1], -a[0][1]], [-a[1][0], a[0][0]]] && d == Det2(a)
    ensures forall i, j :: 0 <= i < 2 && 0 <= j < 2 ==> MatMul(c, a, 2)[i][j] == (if i == j then d else 0.0)
  {
    MatMul2At(c, a, 0, 0);
    MatMul2At(c, a, 0, 1);
    MatMul2At(c, a, 1, 0);
    MatMul2At(c, a, 1, 1);
    Adjugate2Sums(a[0][0], a[0][1], a[1][0], a[1][1]);
    forall i, j | 0 <= i < 2 && 0 <= j < 2
      ensures MatMul(c, a, 2)[i][j] == (if i == j then d else 0.0)
    {
      if i == 0 {
        if j == 0 { } else { }
      }
    }
  }

  /** The 2-by-2 shortcut is a two-sided inverse. */
  lemma Inv2IsInverse(a: Mat)
    requires IsMatrix(a, 2, 2) && Det2(a) != 0.0
    ensures MatMul(a, Inv2(a), 2) == Identity(2)
    ensures MatMul(Inv2(a), a, 2) == Identity(2)
  {
    var d := Det2(a);
    var s := 1.0 / d;
    assert d * s == 1.0;
    var c := [[a[1][1], -a[0][1]], [-a[1][0], a[0][0]]];
    Adjugate2Right(a, c, d);
    Adjugate2Left(a, c, d);
    var r := Inv2(a);
    forall i, j | 0 <= i < 2 && 0 <= j < 2
      ensures r[i][j] == c[i][j] * s
    {
      if i == 0 {
        if j == 0 { } else { }
      }
    }
    ScaledAdjugateIsInverse(a, c, r, 2, d, s);
  }

  /** Entry `(i, j)` of `A . R` and of `R . A` when `R` is `C` scaled by `s`: `s` times that entry with `C`. */
  lemma ScaledProductsAt(a: Mat, c: Mat, r: Mat, n: nat, s: real, i: nat, j: nat)
    requires IsMatrix(a, n, n) && IsMatrix(c, n, n) && IsMatrix(r, n, n) && i < n && j < n
    requires forall i, j :: 0 <= i < n && 0 <= j < n ==> r[i][j] == c[i][j] * s
    ensures MatMul(a, r, n)[i][j] == s * MatMul(a, c, n)[i][j]
    ensures MatMul(r, a, n)[i][j] == s * MatMul(c, a, n)[i][j]
  {
    var cj := Column(c, n, j);
    VecEq(Column(r, n, j), VScale(s, cj));
    DotCommutes(a[i], VScale(s, cj));
    DotScaleLeft(s, cj, a[i]);
    DotCommutes(cj, a[i]);
    VecEq(r[i], VScale(s, c[i]));
    DotScaleLeft(s, c[i], Column(a, n, j));
  }

  /**
   * If `A . C` and `C . A` are `d` times the identity and `R` is `C` scaled by `s` with `d * s == 1`, then
   * `R` is a two-sided inverse of `A`.
   */
  lemma ScaledAdjugateIsInverse(a: Mat, c: Mat, r: Mat, n: nat, d: real, s: real)
    requires IsMatrix(a, n, n) && IsMatrix(c, n, n) && IsMatrix(r, n, n) && d * s == 1.0
    requires forall i, j :: 0 <= i < n && 0 <= j < n ==> r[i][j] == c[i][j] * s
    requires forall i, j :: 0 <= i < n && 0 <= j < n ==> MatMul(a, c, n)[i][j] == (if i == j then d else 0.0)
    requires forall i, j :: 0 <= i < n && 0 <= j < n ==> MatMul(c, a, n)[i][j] == (if i == j then d else 0.0)
    ensures MatMul(a, r, n) == Identity(n) && MatMul(r, a, n) == Identity(n)
  {
    forall i, j | 0 <= i < n && 0 <= j < n
      ensures MatMul(a, r, n)[i][j] == Identity(n)[i][j]
      ensures MatMul(r, a, n)[i][j] == Identity(n)[i][j]
    {
      ScaledProductsAt(a, c, r, n, s, i, j);
    }
    MatEq(MatMul(a, r, n), Identity(n), n, n);
    MatEq(MatMul(r, a, n), Identity(n), n, n);
  }

  /** The 3-by-3 shortcut is a two-sided inverse. */
  lemma Inv3IsInverse(a: Mat)
    requires IsMatrix(a, 3, 3) && Det3(a) != 0.0
    ensures MatMul(a, Inv3(a), 3) == Identity(3)
    ensures MatMul(Inv3(a), a, 3) == Identity(3)
  {
    var d := Det3(a);
    var s := 1.0 / d;
    assert d * s == 1.0;
    AdjugateRight(a);
    AdjugateLeft(a);
    ScaledAdjugateIsInverse(a, Adj3(a), Inv3(a), 3, d, s);
  }

  // ---------------------------------------------------------------------------------------------
  // Positive definiteness.
  // ---------------------------------------------------------------------------------------------

  /** The default `tolerance` of `is_symmetric`, `1.0e-8`. */
  const DefaultTolerance: real := 0.00000001

  /** `x . A . x > 0` for every nonzero `x`: what "positive definite" means. */
  ghost predicate PositiveDefinite(a: Mat, n: nat)
    requires IsMatrix(a, n, n)
  {
    forall x: Vec :: |x| == n && x != Zeros(n) ==> Dot(x, MatVec(a, x)) > 0.0
  }

  lemma PositiveDefiniteAt(a: Mat, n: nat, x: Vec)
    requires IsMatrix(a, n, n) && PositiveDefinite(a, n) && |x| == n && x != Zeros(n)
    ensures Dot(x, MatVec(a, x)) > 0.0
  { }

  /** The upper-left 2-by-2 block, `make_tensor<2, 2>([A](int i, int j) { return A(i, j); })`. */
  function Leading2(a: Mat): (b: Mat)
    requires IsMatrix(a, 3, 3)
    ensures IsMatrix(b, 2, 2) && forall i, j :: 0 <= i < 2 && 0 <= j < 2 ==> b[i][j] == a[i][j]
  {
    [[a[0][0], a[0][1]], [a[1][0], a[1][1]]]
  }

  /**
   * `is_symmetric_and_positive_definite` of a 2-by-2 matrix as written: it rejects only a negative
   * `A(0, 0)` or a negative determinant, so zero pivots get through.
   */
  predicate IsSpd2AsWritten(a: Mat)
    requires IsMatrix(a, 2, 2)
  {
    SymmetricWithin(a, DefaultTolerance) && !(a[0][0] < 0.0) && !(Det2(a) < 0.0)
  }

  /** The 3-by-3 overload as written: the full determinant, then the 2-by-2 test on the leading block. */
  predicate IsSpd3AsWritten(a: Mat)
    requires IsMatrix(a, 3, 3)
  {
    SymmetricWithin(a, DefaultTolerance) && !(Det3(a) < 0.0) && IsSpd2AsWritten(Leading2(a))
  }

  /** Sylvester's criterion as documented: every leading minor strictly greater than zero. */
  predicate IsSpd2(a: Mat)
    requires IsMatrix(a, 2, 2)
  {
    SymmetricWithin(a, DefaultTolerance) && a[0][0] > 0.0 && Det2(a) > 0.0
  }

  /** The 3-by-3 criterion with strict comparisons. */
  predicate IsSpd3(a: Mat)
    requires IsMatrix(a, 3, 3)
  {
    SymmetricWithin(a, DefaultTolerance) && Det3(a) > 0.0 && IsSpd2(Leading2(a))
  }

  /** The strict tests accept only what the tests as written accept. */
  lemma SpdStricterThanAsWritten(a: Mat, b: Mat)
    requires IsMatrix(a, 2, 2) && IsMatrix(b, 3, 3)
    ensures IsSpd2(a) ==> IsSpd2AsWritten(a)
    ensures IsSpd3(b) ==> IsSpd3AsWritten(b)
  { }

  /** A matrix equal to its transpose has mirrored entries equal. */
  lemma TransposeFixedEntries(a: Mat, n: nat)
    requires IsMatrix(a, n, n) && Transpose(a, n) == a
    ensures forall i, j :: 0 <= i < n && 0 <= j < n ==> a[i][j] == a[j][i]
  {
    forall i, j | 0 <= i < n && 0 <= j < n ensures a[i][j] == a[j][i] {
      assert Transpose(a, n)[i][j] == a[j][i];
    }
  }

  /** A matrix with mirrored entries equal passes the symmetry check at the default tolerance. */
  lemma ExactlySymmetric(a: Mat)
    requires IsMatrix(a, |a|, |a|) && forall i, j :: 0 <= i < |a| && 0 <= j < |a| ==> a[i][j] == a[j][i]
    ensures SymmetricWithin(a, DefaultTolerance)
  {
    forall i, j | 0 <= i < j < |a| ensures Abs(a[i][j] - a[j][i]) <= DefaultTolerance {
      assert a[i][j] - a[j][i] == 0.0;
    }
  }

  /** The quadratic form of a 2-by-2 matrix, written out. */
  lemma QuadraticForm2(a: Mat, x: Vec)
    requires IsMatrix(a, 2, 2) && |x| == 2
    ensures Dot(x, MatVec(a, x)) == x[0] * (a[0][0] * x[0] + a[0][1] * x[1]) + x[1] * (a[1][0] * x[0] + a[1][1] * x[1])
  {
    Dot2(a[0], x);
    Dot2(a[1], x);
    Dot2(x, MatVec(a, x));
  }

  /** Completing the square for `[[a, b], [b, d]]`: `a . q == (a x0 + b x1)^2 + det . x1^2`. */
  lemma CompletedSquare2(a: real, b: real, d: real, x0: real, x1: real)
    ensures a * (x0 * (a * x0 + b * x1) + x1 * (b * x0 + d * x1)) == Sq(a * x0 + b * x1) + (a * d - b * b) * Sq(x1)
  { }

  /** Sufficiency for 2-by-2: positive leading minors make the quadratic form positive. */
  lemma Sylvester2Sufficient(a: Mat, x: Vec)
    requires IsMatrix(a, 2, 2) && a[0][1] == a[1][0] && a[0][0] > 0.0 && Det2(a) > 0.0
    requires |x| == 2 && x != Zeros(2)
    ensures Dot(x, MatVec(a, x)) > 0.0
  {
    QuadraticForm2(a, x);
    var q := Dot(x, MatVec(a, x));
    var y := a[0][0] * x[0] + a[0][1] * x[1];
    CompletedSquare2(a[0][0], a[0][1], a[1][1], x[0], x[1]);
    SquareSigns(y);
    SquareSigns(x[1]);
    ProductSigns(Det2(a), Sq(x[1]), Det2(a) * Sq(x[1]));
    if x[1] == 0.0 {
      assert x[0] != 0.0;
      ProductSigns(a[0][0], x[0], y);
    }
    ProductSigns(a[0][0], q, a[0][0] * q);
  }

  /** The quadratic form at `(1, 0)` is the first pivot. */
  lemma QuadraticForm2AtE0(a: Mat)
    requires IsMatrix(a, 2, 2)
    ensures [1.0, 0.0] != Zeros(2) && Dot([1.0, 0.0], MatVec(a, [1.0, 0.0])) == a[0][0]
  {
    assert [1.0, 0.0][0] != Zeros(2)[0];
    QuadraticForm2(a, [1.0, 0.0]);
  }

  /** The quadratic form at `(-A01, A00)` is `A00 . det(A)`, so it is positive only if `det(A)` is. */
  lemma QuadraticForm2AtCofactor(a: Mat)
    requires IsMatrix(a, 2, 2) && a[0][1] == a[1][0] && a[0][0] > 0.0
    ensures Dot([-a[0][1], a[0][0]], MatVec(a, [-a[0][1], a[0][0]])) > 0.0 ==> Det2(a) > 0.0
  {
    QuadraticForm2(a, [-a[0][1], a[0][0]]);
    assert Dot([-a[0][1], a[0][0]], MatVec(a, [-a[0][1], a[0][0]])) == a[0][0] * Det2(a);
    ProductSigns(a[0][0], Det2(a), a[0][0] * Det2(a));
  }

  /** Necessity for 2-by-2: a positive definite matrix has positive leading minors. */
  lemma Sylvester2Necessary(a: Mat)
    requires IsMatrix(a, 2, 2) && a[0][1] == a[1][0] && PositiveDefinite(a, 2)
    ensures a[0][0] > 0.0 && Det2(a) > 0.0
  {
    var e0: Vec := [1.0, 0.0];
    QuadraticForm2AtE0(a);
    PositiveDefiniteAt(a, 2, e0);
    var x: Vec := [-a[0][1], a[0][0]];
    assert x != Zeros(2) by { assert x[1] != Zeros(2)[1]; }
    PositiveDefiniteAt(a, 2, x);
    QuadraticForm2AtCofactor(a);
  }

  /** Sylvester's criterion for 2-by-2: for a symmetric matrix, the strict test holds exactly when it is positive definite. */
  lemma Sylvester2(a: Mat)
    requires IsMatrix(a, 2, 2) && Transpose(a, 2) == a
    ensures IsSpd2(a) <==> PositiveDefinite(a, 2)
  {
    TransposeFixedEntries(a, 2);
    ExactlySymmetric(a);
    if IsSpd2(a) {
      forall x: Vec | |x| == 2 && x != Zeros(2) ensures Dot(x, MatVec(a, x)) > 0.0 {
        Sylvester2Sufficient(a, x);
      }
    }
    if PositiveDefinite(a, 2) {
      Sylvester2Necessary(a);
    }
  }

  /** The quadratic form of a 3-by-3 matrix, written out. */
  lemma QuadraticForm3(a: Mat, x: Vec)
    requires IsMatrix(a, 3, 3) && |x| == 3
    ensures Dot(x, MatVec(a, x)) ==
      x[0] * (a[0][0] * x[0] + a[0][1] * x[1] + a[0][2] * x[2]) +
      x[1] * (a[1][0] * x[0] + a[1][1] * x[1] + a[1][2] * x[2]) +
      x[2] * (a[2][0] * x[0] + a[2][1] * x[1] + a[2][2] * x[2])
  {
    Dot3(a[0], x);
    Dot3(a[1], x);
    Dot3(a[2], x);
    Dot3(x, MatVec(a, x));
  }

  /**
   * Completing the square twice for `[[a, b, c], [b, d, e], [c, e, f]]`, with `p` its leading 2-by-2
   * minor: `a . p . q == p . y^2 + (p x1 + r x2)^2 + a . det . x2^2`.
   */
  lemma CompletedSquare3(a: real, b: real, c: real, d: real, e: real, f: real, x0: real, x1: real, x2: real)
    ensures var p := a * d - b * b; var r := a * e - b * c;
      var det := a * d * f + b * e * c + c * b * e - a * e * e - b * b * f - c * d * c;
      var form := x0 * (a * x0 + b * x1 + c * x2) + x1 * (b * x0 + d * x1 + e * x2) + x2 * (c * x0 + e * x1 + f * x2);
      a * p * form == p * Sq(a * x0 + b * x1 + c * x2) + Sq(p * x1 + r * x2) + a * det * Sq(x2)
  { }

  /**
   * The completed square with its minors, its form and its first square given names: positive minors and
   * a nonzero `(x0, x1, x2)` make the form positive.
   */
  lemma CompletedSquare3Positive(a: real, b: real, c: real, d: real, e: real, f: real, x0: real, x1: real, x2: real,
                                 p: real, r: real, det: real, form: real, y: real)
    requires p == a * d - b * b && r == a * e - b * c && y == a * x0 + b * x1 + c * x2
    requires det == a * d * f + b * e * c + c * b * e - a * e * e - b * b * f - c * d * c
    requires form == x0 * (a * x0 + b * x1 + c * x2) + x1 * (b * x0 + d * x1 + e * x2) + x2 * (c * x0 + e * x1 + f * x2)
    requires a > 0.0 && p > 0.0 && det > 0.0 && (x0 != 0.0 || x1 != 0.0 || x2 != 0.0)
    ensures form > 0.0
  {
    CompletedSquare3(a, b, c, d, e, f, x0, x1, x2);
    assert a * p * form == p * Sq(y) + Sq(p * x1 + r * x2) + a * det * Sq(x2);
    PositiveCombination(a, p, det, r, x0, x1, x2, y, form);
  }

  /** The quadratic form, `det2` of the leading block and `det3` of a symmetric 3-by-3 matrix over six entries. */
  lemma SymmetricEntries3(a: Mat, x: Vec)
    requires IsMatrix(a, 3, 3) && a[0][1] == a[1][0] && a[0][2] == a[2][0] && a[1][2] == a[2][1] && |x| == 3
    ensures var a0, b, c, d, e, f := a[0][0], a[0][1], a[0][2], a[1][1], a[1][2], a[2][2];
      Dot(x, MatVec(a, x)) == x[0] * (a0 * x[0] + b * x[1] + c * x[2]) + x[1] * (b * x[0] + d * x[1] + e * x[2]) + x[2] * (c * x[0] + e * x[1] + f * x[2]) &&
      Det2(Leading2(a)) == a0 * d - b * b &&
      Det3(a) == a0 * d * f + b * e * c + c * b * e - a0 * e * e - b * b * f - c * d * c
  {
    QuadraticForm3(a, x);
  }

  /** A nonzero 3-vector has a nonzero entry. */
  lemma NonzeroHasNonzeroEntry3(x: Vec)
    requires |x| == 3 && x != Zeros(3)
    ensures x[0] != 0.0 || x[1] != 0.0 || x[2] != 0.0
  {
    if x[0] == 0.0 && x[1] == 0.0 && x[2] == 0.0 {
      VecEq(x, Zeros(3));
      assert false;
    }
  }

  /** Sufficiency for 3-by-3: positive leading minors make the quadratic form positive. */
  lemma Sylvester3Sufficient(a: Mat, x: Vec)
    requires IsMatrix(a, 3, 3) && a[0][1] == a[1][0] && a[0][2] == a[2][0] && a[1][2] == a[2][1]
    requires a[0][0] > 0.0 && Det2(Leading2(a)) > 0.0 && Det3(a) > 0.0
    requires |x| == 3 && x != Zeros(3)
    ensures Dot(x, MatVec(a, x)) > 0.0
  {
    SymmetricEntries3(a, x);
    NonzeroHasNonzeroEntry3(x);
    var a0, b, c, d, e, f := a[0][0], a[0][1], a[0][2], a[1][1], a[1][2], a[2][2];
    var x0, x1, x2 := x[0], x[1], x[2];
    var p, det, q := Det2(Leading2(a)), Det3(a), Dot(x, MatVec(a, x));
    var y, r := a0 * x0 + b * x1 + c * x2, a0 * e - b * c;
    CompletedSquare3Positive(a0, b, c, d, e, f, x0, x1, x2, p, r, det, q, y);
  }

  /**
   * The sign argument after completing the square: with `a`, `p`, `det` positive and `(x0, x1, x2)` nonzero,
   * `a . p . q == p . y^2 + (p x1 + r x2)^2 + a . det . x2^2` forces `q > 0`.
   */
  lemma PositiveCombination(a: real, p: real, det: real, r: real, x0: real, x1: real, x2: real, y: real, q: real)
    requires a > 0.0 && p > 0.0 && det > 0.0 && (x0 != 0.0 || x1 != 0.0 || x2 != 0.0)
    requires x2 == 0.0 && x1 == 0.0 ==> y == a * x0
    requires a * p * q == p * Sq(y) + Sq(p * x1 + r * x2) + a * det * Sq(x2)
    ensures q > 0.0
  {
    var z := p * x1 + r * x2;
    SquareSigns(y);
    SquareSigns(z);
    SquareSigns(x2);
    ProductSigns(p, Sq(y), p * Sq(y));
    ProductSigns(a, det, a * det);
    ProductSigns(a * det, Sq(x2), a * det * Sq(x2));
    if x2 == 0.0 {
      if x1 != 0.0 {
        assert z == p * x1;
        ProductSigns(p, x1, z);
      } else {
        ProductSigns(a, x0, y);
      }
    }
    ProductSigns(a, p, a * p);
    ProductSigns(a * p, q, a * p * q);
  }

  /** The form of the leading block at `y` is the form of `A` at `(y0, y1, 0)`. */
  lemma LeadingBlockForm(a: Mat, y: Vec)
    requires IsMatrix(a, 3, 3) && |y| == 2
    ensures [y[0], y[1], 0.0] != Zeros(3) <== y != Zeros(2)
    ensures Dot(y, MatVec(Leading2(a), y)) == Dot([y[0], y[1], 0.0], MatVec(a, [y[0], y[1], 0.0]))
  {
    var x: Vec := [y[0], y[1], 0.0];
    if y != Zeros(2) {
      if y[0] == 0.0 {
        assert y[1] != 0.0 by { if y[1] == 0.0 { VecEq(y, Zeros(2)); } }
        assert x[1] != Zeros(3)[1];
      } else {
        assert x[0] != Zeros(3)[0];
      }
    }
    QuadraticForm3(a, x);
    QuadraticForm2(Leading2(a), y);
  }

  /** A positive definite 3-by-3 matrix has a positive definite leading block. */
  lemma LeadingBlockPositiveDefinite(a: Mat)
    requires IsMatrix(a, 3, 3) && PositiveDefinite(a, 3)
    ensures PositiveDefinite(Leading2(a), 2)
  {
    forall y: Vec | |y| == 2 && y != Zeros(2) ensures Dot(y, MatVec(Leading2(a), y)) > 0.0 {
      LeadingBlockForm(a, y);
      PositiveDefiniteAt(a, 3, [y[0], y[1], 0.0]);
    }
  }

  /** A sum of three products whose first two right factors vanish is its last product. */
  lemma LastTermOnly(u0: real, u1: real, u2: real, v0: real, v1: real, v2: real, q: real)
    requires v0 == 0.0 && v1 == 0.0 && q == u0 * v0 + u1 * v1 + u2 * v2
    ensures q == u2 * v2
  { }

  /** `A` sends the last column of its adjugate to `(0, 0, det A)`. */
  lemma AdjugateColumnImage(a: Mat)
    requires IsMatrix(a, 3, 3)
    ensures var ax := MatVec(a, Column(Adj3(a), 3, 2)); |ax| == 3 && ax[0] == 0.0 && ax[1] == 0.0 && ax[2] == Det3(a)
  {
    var ax := MatVec(a, Column(Adj3(a), 3, 2));
    AdjugateRight(a);
    assert ax[0] == MatMul(a, Adj3(a), 3)[0][2];
    assert ax[1] == MatMul(a, Adj3(a), 3)[1][2];
    assert ax[2] == MatMul(a, Adj3(a), 3)[2][2];
  }

  /**
   * The quadratic form at the last column of the adjugate (the cross product of the first two rows) is
   * `det2(leading block) . det3(A)`, since `A` maps that column to `det3(A)` times the last unit vector.
   */
  lemma QuadraticForm3AtAdjugateColumn(a: Mat)
    requires IsMatrix(a, 3, 3)
    ensures Column(Adj3(a), 3, 2)[2] == Det2(Leading2(a))
    ensures Dot(Column(Adj3(a), 3, 2), MatVec(a, Column(Adj3(a), 3, 2))) == Det2(Leading2(a)) * Det3(a)
    ensures Det2(Leading2(a)) > 0.0 && Dot(Column(Adj3(a), 3, 2), MatVec(a, Column(Adj3(a), 3, 2))) > 0.0 ==> Det3(a) > 0.0
  {
    var x := Column(Adj3(a), 3, 2);
    var ax := MatVec(a, x);
    var p, d := Det2(Leading2(a)), Det3(a);
    assert x[2] == p;
    AdjugateColumnImage(a);
    Dot3(x, ax);
    LastTermOnly(x[0], x[1], x[2], ax[0], ax[1], ax[2], Dot(x, ax));
    ProductSigns(p, d, p * d);
  }

  /** Necessity for 3-by-3: a positive definite matrix has positive leading minors. */
  lemma Sylvester3Necessary(a: Mat)
    requires IsMatrix(a, 3, 3) && a[0][1] == a[1][0] && PositiveDefinite(a, 3)
    ensures a[0][0] > 0.0 && Det2(Leading2(a)) > 0.0 && Det3(a) > 0.0
  {
    LeadingBlockPositiveDefinite(a);
    Sylvester2Necessary(Leading2(a));
    var x := Column(Adj3(a), 3, 2);
    QuadraticForm3AtAdjugateColumn(a);
    assert x != Zeros(3) by { assert x[2] != Zeros(3)[2]; }
    PositiveDefiniteAt(a, 3, x);
  }

  /** Sylvester's criterion for 3-by-3: for a symmetric matrix, the strict test holds exactly when it is positive definite. */
  lemma Sylvester3(a: Mat)
    requires IsMatrix(a, 3, 3) && Transpose(a, 3) == a
    ensures IsSpd3(a) <==> PositiveDefinite(a, 3)
  {
    TransposeFixedEntries(a, 3);
    ExactlySymmetric(a);
    ExactlySymmetric(Leading2(a));
    if IsSpd3(a) {
      forall x: Vec | |x| == 3 && x != Zeros(3) ensures Dot(x, MatVec(a, x)) > 0.0 {
        Sylvester3Sufficient(a, x);
      }
    }
    if PositiveDefinite(a, 3) {
      Sylvester3Necessary(a);
    }
  }

  // ---------------------------------------------------------------------------------------------
  // What the non-strict comparisons let through.
  // ---------------------------------------------------------------------------------------------

  /** `[[0, 0], [0, -1]]` passes the 2-by-2 test as written, yet `(0, 1)` gives it a negative form. */
  lemma Spd2AsWrittenAcceptsIndefinite()
    ensures var a := [[0.0, 0.0], [0.0, -1.0]];
      IsSpd2AsWritten(a) && !PositiveDefinite(a, 2) && !IsSpd2(a)
  {
    var a := [[0.0, 0.0], [0.0, -1.0]];
    var x: Vec := [0.0, 1.0];
    assert x != Zeros(2) by { assert x[1] != Zeros(2)[1]; }
    QuadraticForm2(a, x);
    assert Dot(x, MatVec(a, x)) == -1.0;
  }

  /** `diag(0, 0, -1)` passes the 3-by-3 test as written, yet the last unit vector gives it a negative form. */
  lemma Spd3AsWrittenAcceptsIndefinite()
    ensures var a := [[0.0, 0.0, 0.0], [0.0, 0.0, 0.0], [0.0, 0.0, -1.0]];
      IsSpd3AsWritten(a) && !PositiveDefinite(a, 3) && !IsSpd3(a)
  {
    var a := [[0.0, 0.0, 0.0], [0.0, 0.0, 0.0], [0.0, 0.0, -1.0]];
    assert Leading2(a) == [[0.0, 0.0], [0.0, 0.0]];
    var x: Vec := [0.0, 0.0, 1.0];
    assert x != Zeros(3) by { assert x[2] != Zeros(3)[2]; }
    QuadraticForm3(a, x);
    assert Dot(x, MatVec(a, x)) == -1.0;
  }
}
