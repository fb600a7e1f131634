/**
 * The rank-1 and rank-2 operations of `tensor.hpp` as the source writes them: a zero-initialised result
 * and nested loops. Each method is proved to compute the linear-algebra function of `Matrices` that
 * specifies it; the properties of those functions are lemmas there.
 */
module MatrixOps {
  import opened Matrices

  /** `dot(A, B)` of two vectors. */
  method DotVV(a: Vec, b: Vec) returns (ab: real)
    requires |a| == |b|
    ensures ab == Dot(a, b)
  {
    ab := 0.0;
    for i := 0 to |a|
      invariant ab == DotTo(a, b, i)
    {
      ab := ab + a[i] * b[i];
    }
  }

  /** `dot(A, B)` of an `m`-by-`n` matrix and a vector. */
  method DotMV(a: Mat, b: Vec) returns (ab: Vec)
    requires IsMatrix(a, |a|, |b|)
    ensures ab == MatVec(a, b)
  {
    var m, n := |a|, |b|;
    ab := Zeros(m);
    for i := 0 to m
      invariant |ab| == m
      invariant forall r :: 0 <= r < i ==> ab[r] == Dot(a[r], b)
      invariant forall r :: i <= r < m ==> ab[r] == 0.0
    {
      for j := 0 to n
        invariant |ab| == m
        invariant forall r :: 0 <= r < i ==> ab[r] == Dot(a[r], b)
        invariant forall r :: i < r < m ==> ab[r] == 0.0
        invariant ab[i] == DotTo(a[i], b, j)
      {
        ab := ab[i := ab[i] + a[i][j] * b[j]];
      }
    }
    VecEq(ab, MatVec(a, b));
  }

  /** `dot(A, B)` of a vector and an `m`-by-`n` matrix. */
  method DotVM(a: Vec, b: Mat, n: nat) returns (ab: Vec)
    requires IsMatrix(b, |a|, n)
    ensures ab == VecMat(a, b, n)
  {
    var m := |a|;
    ab := Zeros(n);
    for i := 0 to n
      invariant |ab| == n
      invariant forall c :: 0 <= c < i ==> ab[c] == Dot(a, Column(b, n, c))
      invariant forall c :: i <= c < n ==> ab[c] == 0.0
    {
      for j := 0 to m
        invariant |ab| == n
        invariant forall c :: 0 <= c < i ==> ab[c] == Dot(a, Column(b, n, c))
        invariant forall c :: i < c < n ==> ab[c] == 0.0
        invariant ab[i] == DotTo(a, Column(b, n, i), j)
      {
        ab := ab[i := ab[i] + a[j] * b[j][i]];
      }
    }
    VecEq(ab, VecMat(a, b, n));
  }

  /** `dot(A, B)` of an `m`-by-`n` and an `n`-by-`p` matrix: `AB[i][j] = AB[i][j] + A[i][k] * B[k][j]`. */
  method DotMM(a: Mat, b: Mat, p: nat) returns (ab: Mat)
    requires IsMatrix(a, |a|, |b|) && IsMatrix(b, |b|, p)
    ensures ab == MatMul(a, b, p)
  {
    var m, n := |a|, |b|;
    ab := ZeroMat(m, p);
    for i := 0 to m
      invariant IsMatrix(ab, m, p)
      invariant forall r, c :: 0 <= r < i && 0 <= c < p ==> ab[r][c] == Dot(a[r], Column(b, p, c))
      invariant forall r, c :: i <= r < m && 0 <= c < p ==> ab[r][c] == 0.0
    {
      for j := 0 to p
        invariant IsMatrix(ab, m, p)
        invariant forall r, c :: 0 <= r < i && 0 <= c < p ==> ab[r][c] == Dot(a[r], Column(b, p, c))
        invariant forall r, c :: i < r < m && 0 <= c < p ==> ab[r][c] == 0.0
        invariant forall c :: 0 <= c < j ==> ab[i][c] == Dot(a[i], Column(b, p, c))
        invariant forall c :: j <= c < p ==> ab[i][c] == 0.0
      {
        var col := Column(b, p, j);
        for k := 0 to n
          invariant IsMatrix(ab, m, p)
          invariant forall r, c :: 0 <= r < i && 0 <= c < p ==> ab[r][c] == Dot(a[r], Column(b, p, c))
          invariant forall r, c :: i < r < m && 0 <= c < p ==> ab[r][c] == 0.0
          invariant forall c :: 0 <= c < j ==> ab[i][c] == Dot(a[i], Column(b, p, c))
          invariant forall c :: j < c < p ==> ab[i][c] == 0.0
          invariant ab[i][j] == DotTo(a[i], col, k)
        {
          ab := ab[i := ab[i][j := ab[i][j] + a[i][k] * b[k][j]]];
        }
      }
    }
    MatEq(ab, MatMul(a, b, p), m, p);
  }

  /** `dot(u, A, v)`: `uAv += u[i] * A[i][j] * v[j]`. */
  method DotVMV(u: Vec, a: Mat, v: Vec) returns (uav: real)
    requires IsMatrix(a, |u|, |v|)
    ensures uav == Dot(u, MatVec(a, v))
  {
    var av := MatVec(a, v);
    uav := 0.0;
    for i := 0 to |u|
      invariant uav == DotTo(u, av, i)
    {
      ghost var before := uav;
      for j := 0 to |v|
        invariant uav == before + u[i] * DotTo(a[i], v, j)
      {
        uav := uav + u[i] * a[i][j] * v[j];
      }
    }
  }

  /** `outer(A, B)` of two vectors: `AB[i][j] = A[i] * B[j]`. */
  method OuterVV(a: Vec, b: Vec) returns (ab: Mat)
    ensures ab == Outer(a, b)
  {
    var m, n := |a|, |b|;
    ab := ZeroMat(m, n);
    for i := 0 to m
      invariant IsMatrix(ab, m, n)
      invariant forall r, c :: 0 <= r < i && 0 <= c < n ==> ab[r][c] == a[r] * b[c]
    {
      for j := 0 to n
        invariant IsMatrix(ab, m, n)
        invariant forall r, c :: 0 <= r < i && 0 <= c < n ==> ab[r][c] == a[r] * b[c]
        invariant forall c :: 0 <= c < j ==> ab[i][c] == a[i] * b[c]
      {
        ab := ab[i := ab[i][j := a[i] * b[j]]];
      }
    }
    MatEq(ab, Outer(a, b), m, n);
  }

  /** `outer(A, B)` of a scalar and a vector: the vector scaled. */
  method OuterSV(s: real, b: Vec) returns (ab: Vec)
    ensures ab == VScale(s, b)
  {
    ab := Zeros(|b|);
    for i := 0 to |b|
      invariant |ab| == |b|
      invariant forall r :: 0 <= r < i ==> ab[r] == s * b[r]
    {
      ab := ab[i := s * b[i]];
    }
    VecEq(ab, VScale(s, b));
  }

  /** `outer(A, B)` of a vector and a scalar: `AB[i] = A[i] * B`, the vector scaled. */
  method OuterVS(a: Vec, s: real) returns (ab: Vec)
    ensures ab == VScale(s, a)
  {
    ab := Zeros(|a|);
    for i := 0 to |a|
      invariant |ab| == |a|
      invariant forall r :: 0 <= r < i ==> ab[r] == s * a[r]
    {
      ab := ab[i := a[i] * s];
    }
    VecEq(ab, VScale(s, a));
  }

  /** The double loop `sum += A[i][j] * B[i][j]` shared by `inner(A, B)` and `ddot(A, B)` of matrices. */
  method Inner(a: Mat, b: Mat, n: nat) returns (sum: real)
    requires IsMatrix(a, |a|, n) && IsMatrix(b, |a|, n)
    ensures sum == Frobenius(a, b)
  {
    sum := 0.0;
    for i := 0 to |a|
      invariant sum == FrobeniusTo(a, b, i)
    {
      ghost var before := sum;
      for j := 0 to n
        invariant sum == before + DotTo(a[i], b[i], j)
      {
        sum := sum + a[i][j] * b[i][j];
      }
    }
  }

  /** `ddot(A, B)` of two `m`-by-`n` matrices, written out like `inner`. */
  method DdotMM(a: Mat, b: Mat, n: nat) returns (ab: real)
    requires IsMatrix(a, |a|, n) && IsMatrix(b, |a|, n)
    ensures ab == Frobenius(a, b)
  {
    ab := Inner(a, b, n);
  }

  /** `sqnorm(A)` of a vector: `total += A[i] * A[i]`. */
  method SqNormV(a: Vec) returns (total: real)
    ensures total == Dot(a, a) && total >= 0.0
  {
    total := 0.0;
    for i := 0 to |a|
      invariant total == DotTo(a, a, i)
    {
      total := total + a[i] * a[i];
    }
    DotToSelf(a, |a|);
  }

  /** `sqnorm(A)` of a matrix: `total += A[i][j] * A[i][j]`. */
  method SqNormM(a: Mat, n: nat) returns (total: real)
    requires IsMatrix(a, |a|, n)
    ensures total == Frobenius(a, a) && total >= 0.0
  {
    total := Inner(a, a, n);
    FrobeniusSelf(a);
  }

  /** `tr(A)`: `trA = trA + A[i][i]`. */
  method Tr(a: Mat) returns (tra: real)
    requires IsMatrix(a, |a|, |a|)
    ensures tra == Trace(a)
  {
    tra := 0.0;
    for i := 0 to |a|
      invariant tra == DiagonalSum(a, i)
    {
      tra := tra + a[i][i];
    }
  }

  /** `sym(A)`: `symA[i][j] = 0.5 * (A[i][j] + A[j][i])`. */
  method SymOp(a: Mat) returns (syma: Mat)
    requires IsMatrix(a, |a|, |a|)
    ensures syma == Sym(a)
  {
    var n := |a|;
    syma := ZeroMat(n, n);
    for i := 0 to n
      invariant IsMatrix(syma, n, n)
      invariant forall r, c :: 0 <= r < i && 0 <= c < n ==> syma[r][c] == 0.5 * (a[r][c] + a[c][r])
    {
      for j := 0 to n
        invariant IsMatrix(syma, n, n)
        invariant forall r, c :: 0 <= r < i && 0 <= c < n ==> syma[r][c] == 0.5 * (a[r][c] + a[c][r])
        invariant forall c :: 0 <= c < j ==> syma[i][c] == 0.5 * (a[i][c] + a[c][i])
      {
        syma := syma[i := syma[i][j := 0.5 * (a[i][j] + a[j][i])]];
      }
    }
    MatEq(syma, Sym(a), n, n);
  }

  /** `antisym(A)`: `antisymA[i][j] = 0.5 * (A[i][j] - A[j][i])`. */
  method AntisymOp(a: Mat) returns (antisyma: Mat)
    requires IsMatrix(a, |a|, |a|)
    ensures antisyma == Antisym(a)
  {
    var n := |a|;
    antisyma := ZeroMat(n, n);
    for i := 0 to n
      invariant IsMatrix(antisyma, n, n)
      invariant forall r, c :: 0 <= r < i && 0 <= c < n ==> antisyma[r][c] == 0.5 * (a[r][c] - a[c][r])
    {
      for j := 0 to n
        invariant IsMatrix(antisyma, n, n)
        invariant forall r, c :: 0 <= r < i && 0 <= c < n ==> antisyma[r][c] == 0.5 * (a[r][c] - a[c][r])
        invariant forall c :: 0 <= c < j ==> antisyma[i][c] == 0.5 * (a[i][c] - a[c][i])
      {
        antisyma := antisyma[i := antisyma[i][j := 0.5 * (a[i][j] - a[j][i])]];
      }
    }
    MatEq(antisyma, Antisym(a), n, n);
  }

  /** `dev(A)`: a copy of `A` with `devA[i][i] -= trA / n`. */
  method DevOp(a: Mat) returns (deva: Mat)
    requires IsMatrix(a, |a|, |a|)
    ensures deva == Dev(a)
  {
    var n := |a|;
    deva := a;
    var tra := Tr(a);
    for i := 0 to n
      invariant IsMatrix(deva, n, n)
      invariant forall r, c :: 0 <= r < n && 0 <= c < n ==>
        deva[r][c] == if r == c && r < i then a[r][c] - tra / n as real else a[r][c]
    {
      deva := deva[i := deva[i][i := deva[i][i] - tra / n as real]];
    }
    MatEq(deva, Dev(a), n, n);
  }

  /** `DenseIdentity<dim>()`: `I[i][j] = (i == j)`. */
  method DenseIdentity(dim: nat) returns (e: Mat)
    ensures e == Identity(dim)
  {
    e := ZeroMat(dim, dim);
    for i := 0 to dim
      invariant IsMatrix(e, dim, dim)
      invariant forall r, c :: 0 <= r < i && 0 <= c < dim ==> e[r][c] == if r == c then 1.0 else 0.0
    {
      for j := 0 to dim
        invariant IsMatrix(e, dim, dim)
        invariant forall r, c :: 0 <= r < i && 0 <= c < dim ==> e[r][c] == if r == c then 1.0 else 0.0
        invariant forall c :: 0 <= c < j ==> e[i][c] == if i == c then 1.0 else 0.0
      {
        e := e[i := e[i][j := if i == j then 1.0 else 0.0]];
      }
    }
    MatEq(e, Identity(dim), dim, dim);
  }

  /** `transpose(A)` of an `m`-by-`n` matrix: `AT[i][j] = A[j][i]`. */
  method TransposeOp(a: Mat, n: nat) returns (at: Mat)
    requires IsMatrix(a, |a|, n)
    ensures at == Transpose(a, n)
  {
    var m := |a|;
    at := ZeroMat(n, m);
    for i := 0 to n
      invariant IsMatrix(at, n, m)
      invariant forall r, c :: 0 <= r < i && 0 <= c < m ==> at[r][c] == a[c][r]
    {
      for j := 0 to m
        invariant IsMatrix(at, n, m)
        invariant forall r, c :: 0 <= r < i && 0 <= c < m ==> at[r][c] == a[c][r]
        invariant forall c :: 0 <= c < j ==> at[i][c] == a[c][i]
      {
        at := at[i := at[i][j := a[j][i]]];
      }
    }
    MatEq(at, Transpose(a, n), n, m);
  }

  function Abs(x: real): real { if x < 0.0 then -x else x }

  /** Every pair of mirrored entries of `A` differs by at most `tolerance`. */
  predicate SymmetricWithin(a: Mat, tolerance: real)
    requires IsMatrix(a, |a|, |a|)
  {
    forall i, j :: 0 <= i < j < |a| ==> Abs(a[i][j] - a[j][i]) <= tolerance
  }

  /**
   * `is_symmetric(A, tolerance)`: false as soon as some `|A(i, j) - A(j, i)| > tolerance` with `i < j`.
   * The source's default tolerance, `1.0e-8`, is the caller's to pass.
   */
  method IsSymmetric(a: Mat, tolerance: real) returns (r: bool)
    requires IsMatrix(a, |a|, |a|)
    ensures r <==> SymmetricWithin(a, tolerance)
  {
    var n := |a|;
    for i := 0 to n
      invariant forall p, q :: 0 <= p < i && p < q < n ==> Abs(a[p][q] - a[q][p]) <= tolerance
    {
      for j := i + 1 to n
        invariant forall p, q :: 0 <= p < i && p < q < n ==> Abs(a[p][q] - a[q][p]) <= tolerance
        invariant forall q :: i < q < j ==> Abs(a[i][q] - a[q][i]) <= tolerance
      {
        if Abs(a[i][j] - a[j][i]) > tolerance {
          return false;
        }
      }
    }
    return true;
  }

  /** With zero tolerance, `is_symmetric` holds exactly of the matrices equal to their transpose. */
  lemma SymmetricWithinZero(a: Mat)
    requires IsMatrix(a, |a|, |a|)
    ensures SymmetricWithin(a, 0.0) <==> Transpose(a, |a|) == a
  {
    var n := |a|;
    if SymmetricWithin(a, 0.0) {
      forall i, j | 0 <= i < n && 0 <= j < n ensures Transpose(a, n)[i][j] == a[i][j] {
        if i < j {
          assert Abs(a[i][j] - a[j][i]) <= 0.0;
        } else if j < i {
          assert Abs(a[j][i] - a[i][j]) <= 0.0;
        }
      }
      MatEq(Transpose(a, n), a, n, n);
    }
    if Transpose(a, n) == a {
      forall i, j | 0 <= i < j < n ensures Abs(a[i][j] - a[j][i]) <= 0.0 {
        assert Transpose(a, n)[j][i] == a[j][i];
      }
    }
  }
}
