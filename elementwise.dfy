/**
 * The elementwise arithmetic of `tensor.hpp`: `A + B`, `-A`, `A - B`, `s * A`, `A * s`, `s / A`, `A / s`,
 * `A += B` and `A -= B`. Each operator loops over the leading index and applies the operator of the
 * next lower rank to the sub-tensors, down to the scalar operator on the entries; each method below does
 * the same and is proved equal to an entrywise specification function.
 */
module Elementwise {
  import opened Tensors

  function Plus(x: real, y: real): real { x + y }
  function Minus(x: real, y: real): real { x - y }
  function Neg(x: real): real { -x }

  /** `A + B` entry by entry. */
  function Sum(a: Tensor<real>, b: Tensor<real>, dims: seq<nat>): Tensor<real>
    requires HasShape(a, dims) && HasShape(b, dims)
  {
    Zip(a, b, dims, Plus)
  }

  /** `A - B` entry by entry. */
  function Difference(a: Tensor<real>, b: Tensor<real>, dims: seq<nat>): Tensor<real>
    requires HasShape(a, dims) && HasShape(b, dims)
  {
    Zip(a, b, dims, Minus)
  }

  /** `-A` entry by entry. */
  function Negated(a: Tensor<real>, dims: seq<nat>): Tensor<real>
    requires HasShape(a, dims)
  {
    Map(a, dims, Neg)
  }

  /** `s * A`: every entry multiplied on the left by `s`. */
  function ScaledLeft(s: real, a: Tensor<real>, dims: seq<nat>): Tensor<real>
    requires HasShape(a, dims)
  {
    Map(a, dims, x => s * x)
  }

  /** `A * s`: every entry multiplied on the right by `s`. */
  function ScaledRight(a: Tensor<real>, dims: seq<nat>, s: real): Tensor<real>
    requires HasShape(a, dims)
  {
    Map(a, dims, x => x * s)
  }

  /** `A / s`: every entry divided by `s`. */
  function Quotient(a: Tensor<real>, dims: seq<nat>, s: real): Tensor<real>
    requires HasShape(a, dims) && s != 0.0
  {
    Map(a, dims, x => x / s)
  }

  /** No entry of `a` is zero. */
  predicate NonzeroEntries(a: Tensor<real>, dims: seq<nat>)
    requires HasShape(a, dims)
    decreases |dims|
  {
    if |dims| == 0 then a.x != 0.0
    else forall i :: 0 <= i < dims[0] ==> NonzeroEntries(a.elems[i], dims[1..])
  }

  /** `s / A`: `s` divided by every entry. */
  function Over(s: real, a: Tensor<real>, dims: seq<nat>): (r: Tensor<real>)
    requires HasShape(a, dims) && NonzeroEntries(a, dims)
    ensures HasShape(r, dims)
    decreases |dims|
  {
    if |dims| == 0 then Leaf(s / a.x)
    else Array(seq(dims[0], i requires 0 <= i < dims[0] => Over(s, a.elems[i], dims[1..])))
  }

  // ---------------------------------------------------------------------------------------------
  // The operators, as the source writes them: `C{}` zero-initialised, then `C[i] = A[i] op B[i]`.
  // ---------------------------------------------------------------------------------------------

  /** `operator+(A, B)`. */
  method Add(a: Tensor<real>, b: Tensor<real>, dims: seq<nat>) returns (c: Tensor<real>)
    requires HasShape(a, dims) && HasShape(b, dims)
    ensures c == Sum(a, b, dims)
    decreases |dims|
  {
    if |dims| == 0 {
      return Leaf(a.x + b.x);
    }
    var elems := Fill(dims, 0.0).elems;
    for i := 0 to dims[0]
      invariant |elems| == dims[0]
      invariant forall k :: 0 <= k < i ==> elems[k] == Sum(a.elems[k], b.elems[k], dims[1..])
    {
      var sub := Add(a.elems[i], b.elems[i], dims[1..]);
      elems := elems[i := sub];
    }
    c := Array(elems);
  }

  /** `operator-(A)`. */
  method Negate(a: Tensor<real>, dims: seq<nat>) returns (c: Tensor<real>)
    requires HasShape(a, dims)
    ensures c == Negated(a, dims)
    decreases |dims|
  {
    if |dims| == 0 {
      return Leaf(-a.x);
    }
    var elems := Fill(dims, 0.0).elems;
    for i := 0 to dims[0]
      invariant |elems| == dims[0]
      invariant forall k :: 0 <= k < i ==> elems[k] == Negated(a.elems[k], dims[1..])
    {
      var sub := Negate(a.elems[i], dims[1..]);
      elems := elems[i := sub];
    }
    c := Array(elems);
  }

  /** `operator-(A, B)`. */
  method Subtract(a: Tensor<real>, b: Tensor<real>, dims: seq<nat>) returns (c: Tensor<real>)
    requires HasShape(a, dims) && HasShape(b, dims)
    ensures c == Difference(a, b, dims)
    decreases |dims|
  {
    if |dims| == 0 {
      return Leaf(a.x - b.x);
    }
    var elems := Fill(dims, 0.0).elems;
    for i := 0 to dims[0]
      invariant |elems| == dims[0]
      invariant forall k :: 0 <= k < i ==> elems[k] == Difference(a.elems[k], b.elems[k], dims[1..])
    {
      var sub := Subtract(a.elems[i], b.elems[i], dims[1..]);
      elems := elems[i := sub];
    }
    c := Array(elems);
  }

  /** `operator*(scale, A)`. */
  method ScaleLeft(s: real, a: Tensor<real>, dims: seq<nat>) returns (c: Tensor<real>)
    requires HasShape(a, dims)
    ensures c == ScaledLeft(s, a, dims)
    decreases |dims|
  {
    if |dims| == 0 {
      return Leaf(s * a.x);
    }
    var elems := Fill(dims, 0.0).elems;
    for i := 0 to dims[0]
      invariant |elems| == dims[0]
      invariant forall k :: 0 <= k < i ==> elems[k] == ScaledLeft(s, a.elems[k], dims[1..])
    {
      var sub := ScaleLeft(s, a.elems[i], dims[1..]);
      elems := elems[i := sub];
    }
    c := Array(elems);
  }

  /** `operator*(A, scale)`. */
  method ScaleRight(a: Tensor<real>, dims: seq<nat>, s: real) returns (c: Tensor<real>)
    requires HasShape(a, dims)
    ensures c == ScaledRight(a, dims, s)
    decreases |dims|
  {
    if |dims| == 0 {
      return Leaf(a.x * s);
    }
    var elems := Fill(dims, 0.0).elems;
    for i := 0 to dims[0]
      invariant |elems| == dims[0]
      invariant forall k :: 0 <= k < i ==> elems[k] == ScaledRight(a.elems[k], dims[1..], s)
    {
      var sub := ScaleRight(a.elems[i], dims[1..], s);
      elems := elems[i := sub];
    }
    c := Array(elems);
  }

  /** `operator/(scale, A)`. */
  method DivideLeft(s: real, a: Tensor<real>, dims: seq<nat>) returns (c: Tensor<real>)
    requires HasShape(a, dims) && NonzeroEntries(a, dims)
    ensures c == Over(s, a, dims)
    decreases |dims|
  {
    if |dims| == 0 {
      return Leaf(s / a.x);
    }
    var elems := Fill(dims, 0.0).elems;
    for i := 0 to dims[0]
      invariant |elems| == dims[0]
      invariant forall k :: 0 <= k < i ==> elems[k] == Over(s, a.elems[k], dims[1..])
    {
      var sub := DivideLeft(s, a.elems[i], dims[1..]);
      elems := elems[i := sub];
    }
    c := Array(elems);
  }

  /** `operator/(A, scale)`. */
  method DivideRight(a: Tensor<real>, dims: seq<nat>, s: real) returns (c: Tensor<real>)
    requires HasShape(a, dims) && s != 0.0
    ensures c == Quotient(a, dims, s)
    decreases |dims|
  {
    if |dims| == 0 {
      return Leaf(a.x / s);
    }
    var elems := Fill(dims, 0.0).elems;
    for i := 0 to dims[0]
      invariant |elems| == dims[0]
      invariant forall k :: 0 <= k < i ==> elems[k] == Quotient(a.elems[k], dims[1..], s)
    {
      var sub := DivideRight(a.elems[i], dims[1..], s);
      elems := elems[i := sub];
    }
    c := Array(elems);
  }

  /**
   * `operator+=(A, B)`: `A[i] += B[i]` for each leading index. The reference parameter `A` is passed in
   * as `a` and its new value returned as `r`.
   */
  method AddAssign(a: Tensor<real>, b: Tensor<real>, dims: seq<nat>) returns (r: Tensor<real>)
    requires HasShape(a, dims) && HasShape(b, dims)
    ensures r == Sum(a, b, dims)
    decreases |dims|
  {
    if |dims| == 0 {
      return Leaf(a.x + b.x);
    }
    r := a;
    for i := 0 to dims[0]
      invariant r.Array? && |r.elems| == dims[0]
      invariant forall k :: 0 <= k < i ==> r.elems[k] == Sum(a.elems[k], b.elems[k], dims[1..])
      invariant forall k :: i <= k < dims[0] ==> r.elems[k] == a.elems[k]
    {
      var sub := AddAssign(r.elems[i], b.elems[i], dims[1..]);
      r := Array(r.elems[i := sub]);
    }
  }

  /** `operator-=(A, B)`: `A[i] -= B[i]` for each leading index. */
  method SubtractAssign(a: Tensor<real>, b: Tensor<real>, dims: seq<nat>) returns (r: Tensor<real>)
    requires HasShape(a, dims) && HasShape(b, dims)
    ensures r == Difference(a, b, dims)
    decreases |dims|
  {
    if |dims| == 0 {
      return Leaf(a.x - b.x);
    }
    r := a;
    for i := 0 to dims[0]
      invariant r.Array? && |r.elems| == dims[0]
      invariant forall k :: 0 <= k < i ==> r.elems[k] == Difference(a.elems[k], b.elems[k], dims[1..])
      invariant forall k :: i <= k < dims[0] ==> r.elems[k] == a.elems[k]
    {
      var sub := SubtractAssign(r.elems[i], b.elems[i], dims[1..]);
      r := Array(r.elems[i := sub]);
    }
  }

  /** `operator+=(tensor<T, 1>& A, T B)`: adds `B` to the only entry. */
  method AddAssignScalarVec(a: Tensor<real>, b: real) returns (r: Tensor<real>)
    requires HasShape(a, [1])
    ensures HasShape(r, [1]) && ToScalar(r) == ToScalar(a) + b
  {
    VecShape(a, 1);
    r := Array(a.elems[0 := Leaf(a.elems[0].x + b)]);
    VecShape(r, 1);
  }

  /** `operator+=(tensor<T, 1, 1>& A, T B)`: adds `B` to the only entry. */
  method AddAssignScalarMat(a: Tensor<real>, b: real) returns (r: Tensor<real>)
    requires HasShape(a, [1, 1])
    ensures HasShape(r, [1, 1]) && At(r, [1, 1], [0, 0]) == At(a, [1, 1], [0, 0]) + b
  {
    MatShape(a, 1, 1);
    MatAt(a, 1, 1, 0, 0);
    var row := Array(a.elems[0].elems[0 := Leaf(a.elems[0].elems[0].x + b)]);
    r := Array(a.elems[0 := row]);
    MatShape(r, 1, 1);
    MatAt(r, 1, 1, 0, 0);
  }

  // ---------------------------------------------------------------------------------------------
  // What the operators mean: entrywise formulas and the algebra that follows.
  // ---------------------------------------------------------------------------------------------

  lemma SumAt(a: Tensor<real>, b: Tensor<real>, dims: seq<nat>, idx: seq<nat>)
    requires HasShape(a, dims) && HasShape(b, dims) && ValidIndex(dims, idx)
    ensures At(Sum(a, b, dims), dims, idx) == At(a, dims, idx) + At(b, dims, idx)
  {
    ZipAt(a, b, dims, Plus, idx);
  }

  lemma DifferenceAt(a: Tensor<real>, b: Tensor<real>, dims: seq<nat>, idx: seq<nat>)
    requires HasShape(a, dims) && HasShape(b, dims) && ValidIndex(dims, idx)
    ensures At(Difference(a, b, dims), dims, idx) == At(a, dims, idx) - At(b, dims, idx)
  {
    ZipAt(a, b, dims, Minus, idx);
  }

  lemma NegatedAt(a: Tensor<real>, dims: seq<nat>, idx: seq<nat>)
    requires HasShape(a, dims) && ValidIndex(dims, idx)
    ensures At(Negated(a, dims), dims, idx) == -At(a, dims, idx)
  {
    MapAt(a, dims, Neg, idx);
  }

  lemma ScaledLeftAt(s: real, a: Tensor<real>, dims: seq<nat>, idx: seq<nat>)
    requires HasShape(a, dims) && ValidIndex(dims, idx)
    ensures At(ScaledLeft(s, a, dims), dims, idx) == s * At(a, dims, idx)
  {
    MapAt(a, dims, x => s * x, idx);
  }

  lemma ScaledRightAt(a: Tensor<real>, dims: seq<nat>, s: real, idx: seq<nat>)
    requires HasShape(a, dims) && ValidIndex(dims, idx)
    ensures At(ScaledRight(a, dims, s), dims, idx) == At(a, dims, idx) * s
  {
    MapAt(a, dims, x => x * s, idx);
  }

  lemma QuotientAt(a: Tensor<real>, dims: seq<nat>, s: real, idx: seq<nat>)
    requires HasShape(a, dims) && s != 0.0 && ValidIndex(dims, idx)
    ensures At(Quotient(a, dims, s), dims, idx) == At(a, dims, idx) / s
  {
    MapAt(a, dims, x => x / s, idx);
  }

  lemma {:induction false} OverAt(s: real, a: Tensor<real>, dims: seq<nat>, idx: seq<nat>)
    requires HasShape(a, dims) && NonzeroEntries(a, dims) && ValidIndex(dims, idx)
    ensures At(a, dims, idx) != 0.0 && At(Over(s, a, dims), dims, idx) == s / At(a, dims, idx)
    decreases |dims|
  {
    if |dims| > 0 {
      ValidIndexTail(dims, idx);
      OverAt(s, a.elems[idx[0]], dims[1..], idx[1..]);
    }
  }

  /** `A + B == B + A`. */
  lemma SumCommutes(a: Tensor<real>, b: Tensor<real>, dims: seq<nat>)
    requires HasShape(a, dims) && HasShape(b, dims)
    ensures Sum(a, b, dims) == Sum(b, a, dims)
  {
    forall idx | ValidIndex(dims, idx) ensures At(Sum(a, b, dims), dims, idx) == At(Sum(b, a, dims), dims, idx) {
      SumAt(a, b, dims, idx);
      SumAt(b, a, dims, idx);
    }
    Extensionality(Sum(a, b, dims), Sum(b, a, dims), dims);
  }

  /** `A + tensor{}`: adding the zero-initialised tensor changes nothing. */
  lemma SumZero(a: Tensor<real>, dims: seq<nat>)
    requires HasShape(a, dims)
    ensures Sum(a, Fill(dims, 0.0), dims) == a
  {
    forall idx | ValidIndex(dims, idx) ensures At(Sum(a, Fill(dims, 0.0), dims), dims, idx) == At(a, dims, idx) {
      SumAt(a, Fill(dims, 0.0), dims, idx);
      FillAt(dims, 0.0, idx);
    }
    Extensionality(Sum(a, Fill(dims, 0.0), dims), a, dims);
  }

  /** Subtraction undoes addition: `(A - B) + B == A`. */
  lemma DifferenceThenSum(a: Tensor<real>, b: Tensor<real>, dims: seq<nat>)
    requires HasShape(a, dims) && HasShape(b, dims)
    ensures Sum(Difference(a, b, dims), b, dims) == a
  {
    var d := Difference(a, b, dims);
    forall idx | ValidIndex(dims, idx) ensures At(Sum(d, b, dims), dims, idx) == At(a, dims, idx) {
      SumAt(d, b, dims, idx);
      DifferenceAt(a, b, dims, idx);
    }
    Extensionality(Sum(d, b, dims), a, dims);
  }

  /** `A - B == A + (-B)`. */
  lemma DifferenceIsSumOfNegated(a: Tensor<real>, b: Tensor<real>, dims: seq<nat>)
    requires HasShape(a, dims) && HasShape(b, dims)
    ensures Difference(a, b, dims) == Sum(a, Negated(b, dims), dims)
  {
    var n := Negated(b, dims);
    forall idx | ValidIndex(dims, idx)
      ensures At(Difference(a, b, dims), dims, idx) == At(Sum(a, n, dims), dims, idx)
    {
      DifferenceAt(a, b, dims, idx);
      SumAt(a, n, dims, idx);
      NegatedAt(b, dims, idx);
    }
    Extensionality(Difference(a, b, dims), Sum(a, n, dims), dims);
  }

  /** `-(-A) == A`. */
  lemma NegatedTwice(a: Tensor<real>, dims: seq<nat>)
    requires HasShape(a, dims)
    ensures Negated(Negated(a, dims), dims) == a
  {
    var n := Negated(a, dims);
    forall idx | ValidIndex(dims, idx) ensures At(Negated(n, dims), dims, idx) == At(a, dims, idx) {
      NegatedAt(n, dims, idx);
      NegatedAt(a, dims, idx);
    }
    Extensionality(Negated(n, dims), a, dims);
  }

  /** Scaling commutes: `s * A == A * s`. */
  lemma ScaledLeftIsScaledRight(s: real, a: Tensor<real>, dims: seq<nat>)
    requires HasShape(a, dims)
    ensures ScaledLeft(s, a, dims) == ScaledRight(a, dims, s)
  {
    forall idx | ValidIndex(dims, idx)
      ensures At(ScaledLeft(s, a, dims), dims, idx) == At(ScaledRight(a, dims, s), dims, idx)
    {
      ScaledLeftAt(s, a, dims, idx);
      ScaledRightAt(a, dims, s, idx);
    }
    Extensionality(ScaledLeft(s, a, dims), ScaledRight(a, dims, s), dims);
  }

  lemma DivisionUndoesProduct(x: real, s: real, y: real)
    requires s != 0.0 && y == x * s
    ensures y / s == x
  {
  }

  /** Division by a nonzero scalar undoes scaling: `(A * s) / s == A`. */
  lemma {:induction false} QuotientUndoesScaling(a: Tensor<real>, dims: seq<nat>, s: real)
    requires HasShape(a, dims) && s != 0.0
    ensures Quotient(ScaledRight(a, dims, s), dims, s) == a
  {
    var m := ScaledRight(a, dims, s);
    forall idx | ValidIndex(dims, idx) ensures At(Quotient(m, dims, s), dims, idx) == At(a, dims, idx) {
      QuotientAt(m, dims, s, idx);
      ScaledRightAt(a, dims, s, idx);
      DivisionUndoesProduct(At(a, dims, idx), s, At(m, dims, idx));
    }
    Extensionality(Quotient(m, dims, s), a, dims);
  }

  /** `s / A` times `A` entrywise is `s`: with `B = s / A`, `B(i...) * A(i...) == s`. */
  lemma OverTimesEntry(s: real, a: Tensor<real>, dims: seq<nat>, idx: seq<nat>)
    requires HasShape(a, dims) && NonzeroEntries(a, dims) && ValidIndex(dims, idx)
    ensures At(Over(s, a, dims), dims, idx) * At(a, dims, idx) == s
  {
    OverAt(s, a, dims, idx);
  }
}
