/**
 * The contractions of `tensor.hpp` over tensors of any rank: the full contraction behind `sqnorm` and
 * the same-shape `chain_rule`, its partial form behind `dot(tensor3D, vector)`, the `ddot` overloads and
 * the higher-rank `chain_rule` overloads, and the leading contraction behind `dot(vector, tensor)`.
 * Each loop of the source is a method proved equal to one of these functions; the lemmas tie the
 * functions to the vector and matrix forms of `Matrices` and state their algebra.
 */
module Contractions {
  import opened Tensors
  import opened Elementwise
  import opened Matrices

  /** The full contraction `A(i...) * B(i...)` summed over every index of two tensors of one shape. */
  function Inner(a: Tensor<real>, b: Tensor<real>, dims: seq<nat>): real
    requires HasShape(a, dims) && HasShape(b, dims)
    decreases |dims|, 1, 0
  {
    if |dims| == 0 then a.x * b.x else InnerTo(a, b, dims, dims[0])
  }

  /** The terms of `Inner` whose leading index is below `k`. */
  function InnerTo(a: Tensor<real>, b: Tensor<real>, dims: seq<nat>, k: nat): real
    requires |dims| > 0 && HasShape(a, dims) && HasShape(b, dims) && k <= dims[0]
    decreases |dims|, 0, k
  {
    if k == 0 then 0.0 else InnerTo(a, b, dims, k - 1) + Inner(a.elems[k - 1], b.elems[k - 1], dims[1..])
  }

  /** `A[i][j]...`: the sub-tensor of shape `trail` reached by the leading indices `idx`. */
  function Slice(t: Tensor<real>, lead: seq<nat>, trail: seq<nat>, idx: seq<nat>): (s: Tensor<real>)
    requires HasShape(t, lead + trail) && ValidIndex(lead, idx)
    ensures HasShape(s, trail)
    decreases |lead|
  {
    if |lead| == 0 then
      assert lead + trail == trail;
      t
    else
      ValidIndexTail(lead, idx);
      assert (lead + trail)[1..] == lead[1..] + trail;
      Slice(t.elems[idx[0]], lead[1..], trail, idx[1..])
  }

  /**
   * The contraction of the trailing indices of `A` (shape `lead + trail`) with all of `B` (shape
   * `trail`): a tensor of shape `lead`.
   */
  function ContractTrailing(a: Tensor<real>, lead: seq<nat>, trail: seq<nat>, b: Tensor<real>): (r: Tensor<real>)
    requires HasShape(a, lead + trail) && HasShape(b, trail)
    ensures HasShape(r, lead)
    decreases |lead|
  {
    if |lead| == 0 then
      assert lead + trail == trail;
      Leaf(Inner(a, b, trail))
    else
      assert (lead + trail)[1..] == lead[1..] + trail;
      Array(seq(lead[0], i requires 0 <= i < lead[0] => ContractTrailing(a.elems[i], lead[1..], trail, b)))
  }

  /** The first `k` steps of `AB = AB + A[j] * B[j]`, from `AB` zero-initialised. */
  function LeadingDotTo(u: Vec, b: Tensor<real>, rest: seq<nat>, k: nat): (r: Tensor<real>)
    requires HasShape(b, [|u|] + rest) && k <= |u|
    ensures HasShape(r, rest)
    decreases k
  {
    if k == 0 then Fill(rest, 0.0)
    else
      assert ([|u|] + rest)[1..] == rest;
      Sum(LeadingDotTo(u, b, rest, k - 1), ScaledLeft(u[k - 1], b.elems[k - 1], rest), rest)
  }

  /** `dot(u, B)` of a vector with a tensor whose leading dimension is `|u|`. */
  function LeadingDot(u: Vec, b: Tensor<real>, rest: seq<nat>): (r: Tensor<real>)
    requires HasShape(b, [|u|] + rest)
    ensures HasShape(r, rest)
  {
    LeadingDotTo(u, b, rest, |u|)
  }

  /** The entries `B(j, idx...)` for `j < n`: the vector a leading contraction dots with. */
  function Fiber(b: Tensor<real>, n: nat, rest: seq<nat>, idx: seq<nat>): (f: Vec)
    requires HasShape(b, [n] + rest) && ValidIndex(rest, idx)
    ensures |f| == n
  {
    assert ([n] + rest)[1..] == rest;
    seq(n, j requires 0 <= j < n => At(b.elems[j], rest, idx))
  }

  /**
   * `dot(A, B)` in general: the last index of `A` (shape `lead + [k]`) contracted with the first index
   * of `B` (shape `[k] + rest`), a tensor of shape `lead + rest`.
   */
  function TensorDot(a: Tensor<real>, lead: seq<nat>, k: nat, b: Tensor<real>, rest: seq<nat>): (r: Tensor<real>)
    requires HasShape(a, lead + [k]) && HasShape(b, [k] + rest)
    ensures HasShape(r, lead + rest)
    decreases |lead|
  {
    if |lead| == 0 then
      assert lead + [k] == [k] && lead + rest == rest;
      LeadingDot(ToVec(a, k), b, rest)
    else
      assert (lead + [k])[1..] == lead[1..] + [k] && (lead + rest)[1..] == lead[1..] + rest;
      assert (lead + rest)[0] == lead[0];
      Array(seq(lead[0], i requires 0 <= i < lead[0] => TensorDot(a.elems[i], lead[1..], k, b, rest)))
  }

  /** `outer(A, B)`: the tensor of shape `da + db` whose entry at `i + j` is `A(i...) * B(j...)`. */
  function OuterProduct(a: Tensor<real>, da: seq<nat>, b: Tensor<real>, db: seq<nat>): (r: Tensor<real>)
    requires HasShape(a, da) && HasShape(b, db)
    ensures HasShape(r, da + db)
    decreases |da|
  {
    if |da| == 0 then
      assert da + db == db;
      ScaledLeft(a.x, b, db)
    else
      assert (da + db)[1..] == da[1..] + db && (da + db)[0] == da[0];
      Array(seq(da[0], i requires 0 <= i < da[0] => OuterProduct(a.elems[i], da[1..], b, db)))
  }

  /** One level of `ContractTrailing`: row `i` of the result contracts row `i` of `A`. */
  lemma ContractTrailingRow(a: Tensor<real>, lead: seq<nat>, trail: seq<nat>, b: Tensor<real>, i: nat)
    requires HasShape(a, lead + trail) && HasShape(b, trail) && |lead| > 0 && i < lead[0]
    ensures (lead + trail)[1..] == lead[1..] + trail && HasShape(a.elems[i], lead[1..] + trail)
    ensures ContractTrailing(a, lead, trail, b).elems[i] == ContractTrailing(a.elems[i], lead[1..], trail, b)
  {
    assert (lead + trail)[1..] == lead[1..] + trail;
  }

  /** With no leading index left, `ContractTrailing` is the full contraction. */
  lemma ContractTrailingLeaf(a: Tensor<real>, trail: seq<nat>, b: Tensor<real>)
    requires HasShape(a, trail) && HasShape(b, trail)
    ensures [] + trail == trail
    ensures ContractTrailing(a, [], trail, b) == Leaf(Inner(a, b, trail))
  {
    assert [] + trail == trail;
  }

  // ---------------------------------------------------------------------------------------------
  // The loops of the source.
  // ---------------------------------------------------------------------------------------------

  /**
   * `total += A(i...) * B(i...)` over every multi-index in row-major order, as `for_constexpr` visits
   * them: one loop over the leading index, recursing on the rest.
   */
  method AccumulateInner(a: Tensor<real>, b: Tensor<real>, dims: seq<nat>, total: real) returns (r: real)
    requires HasShape(a, dims) && HasShape(b, dims)
    ensures r == total + Inner(a, b, dims)
    decreases |dims|
  {
    if |dims| == 0 {
      return total + a.x * b.x;
    }
    r := total;
    for i := 0 to dims[0]
      invariant r == total + InnerTo(a, b, dims, i)
    {
      r := AccumulateInner(a.elems[i], b.elems[i], dims[1..], r);
    }
  }

  /** `chain_rule(df_dx, dx)` for a scalar-valued function of a tensor: the inner product. */
  method ChainRuleInner(df_dx: Tensor<real>, dx: Tensor<real>, dims: seq<nat>) returns (total: real)
    requires HasShape(df_dx, dims) && HasShape(dx, dims)
    ensures total == Inner(df_dx, dx, dims)
  {
    total := AccumulateInner(df_dx, dx, dims, 0.0);
  }

  /** `sqnorm(A)` of a tensor of any rank: nonnegative, and zero exactly for the zero tensor. */
  method SqNorm(a: Tensor<real>, dims: seq<nat>) returns (total: real)
    requires HasShape(a, dims)
    ensures total == Inner(a, a, dims)
    ensures total >= 0.0 && (total == 0.0 <==> a == Fill(dims, 0.0))
  {
    total := AccumulateInner(a, a, dims, 0.0);
    InnerSelfNonnegative(a, dims);
    if total == 0.0 {
      InnerSelfZero(a, dims);
    } else {
      if a == Fill(dims, 0.0) {
        InnerZeroRight(a, dims);
        assert false;
      }
    }
  }

  /** `chain_rule(df_dx, dx)` for a vector-valued function: `total[i] = chain_rule(df_dx[i], dx)`. */
  method ChainRuleVector(df_dx: Tensor<real>, m: nat, dims: seq<nat>, dx: Tensor<real>) returns (total: Tensor<real>)
    requires HasShape(df_dx, [m] + dims) && HasShape(dx, dims)
    ensures total == ContractTrailing(df_dx, [m], dims, dx)
  {
    assert ([m] + dims)[1..] == dims;
    ghost var spec := ContractTrailing(df_dx, [m], dims, dx);
    assert [m][1..] == [] && [] + dims == dims;
    var elems: seq<Tensor<real>> := Fill([m], 0.0).elems;
    for i := 0 to m
      invariant |elems| == m
      invariant forall k :: 0 <= k < i ==> elems[k] == spec.elems[k]
    {
      var t := ChainRuleInner(df_dx.elems[i], dx, dims);
      ContractTrailingRow(df_dx, [m], dims, dx, i);
      ContractTrailingLeaf(df_dx.elems[i], dims, dx);
      elems := elems[i := Leaf(t)];
    }
    total := Array(elems);
  }

  /** `chain_rule(df_dx, dx)` for a matrix-valued function: `total[i][j] = chain_rule(df_dx[i][j], dx)`. */
  method ChainRuleMatrix(df_dx: Tensor<real>, m: nat, n: nat, dims: seq<nat>, dx: Tensor<real>)
    returns (total: Tensor<real>)
    requires HasShape(df_dx, [m, n] + dims) && HasShape(dx, dims)
    ensures total == ContractTrailing(df_dx, [m, n], dims, dx)
  {
    assert ([m, n] + dims)[1..] == [n] + dims && [m, n][1..] == [n];
    ghost var spec := ContractTrailing(df_dx, [m, n], dims, dx);
    var rows: seq<Tensor<real>> := Fill([m, n], 0.0).elems;
    for i := 0 to m
      invariant |rows| == m
      invariant forall k :: 0 <= k < i ==> rows[k] == spec.elems[k]
    {
      var row := df_dx.elems[i];
      assert ([n] + dims)[1..] == dims && [n][1..] == [] && [] + dims == dims;
      ghost var rowSpec := ContractTrailing(row, [n], dims, dx);
      var entries: seq<Tensor<real>> := Fill([n], 0.0).elems;
      for j := 0 to n
        invariant |entries| == n
        invariant forall k :: 0 <= k < j ==> entries[k] == rowSpec.elems[k]
      {
        var t := ChainRuleInner(row.elems[j], dx, dims);
        ContractTrailingRow(row, [n], dims, dx, j);
        ContractTrailingLeaf(row.elems[j], dims, dx);
        entries := entries[j := Leaf(t)];
      }
      ContractTrailingRow(df_dx, [m, n], dims, dx, i);
      assert Array(entries) == rowSpec;
      rows := rows[i := Array(entries)];
    }
    total := Array(rows);
  }

  /** The innermost loop of `dot(A, B)` for a 3rd-order `A`: `AB[i][j] += A[i][j][k] * B[k]`. */
  method DotEntry(x: Tensor<real>, p: nat, b: Tensor<real>) returns (acc: real)
    requires HasShape(x, [p]) && HasShape(b, [p])
    ensures acc == Inner(x, b, [p])
  {
    assert [p][1..] == [];
    acc := 0.0;
    for k := 0 to p
      invariant acc == InnerTo(x, b, [p], k)
    {
      acc := acc + x.elems[k].x * b.elems[k].x;
    }
  }

  /** The two innermost loops of the `ddot` overloads: `AB[...] += A[...][k][l] * B[k][l]`. */
  method DdotEntry(x: Tensor<real>, p: nat, q: nat, b: Tensor<real>) returns (acc: real)
    requires HasShape(x, [p, q]) && HasShape(b, [p, q])
    ensures acc == Inner(x, b, [p, q])
  {
    assert [p, q][1..] == [q] && [q][1..] == [];
    acc := 0.0;
    for k := 0 to p
      invariant acc == InnerTo(x, b, [p, q], k)
    {
      ghost var before := acc;
      assert HasShape(x.elems[k], [q]) && HasShape(b.elems[k], [q]);
      VecShape(x.elems[k], q);
      VecShape(b.elems[k], q);
      for l := 0 to q
        invariant acc == before + InnerTo(x.elems[k], b.elems[k], [q], l)
      {
        acc := acc + x.elems[k].elems[l].x * b.elems[k].elems[l].x;
      }
    }
  }

  /** `dot(A, B)` of a 3rd-order tensor `A` (`m`-by-`n`-by-`p`) with a vector `B`. */
  method DotTensor3Vec(a: Tensor<real>, m: nat, n: nat, p: nat, b: Tensor<real>) returns (ab: Tensor<real>)
    requires HasShape(a, [m, n] + [p]) && HasShape(b, [p])
    ensures ab == ContractTrailing(a, [m, n], [p], b)
  {
    assert ([m, n] + [p])[1..] == [n] + [p] && [m, n][1..] == [n];
    assert ([n] + [p])[1..] == [p] && [n][1..] == [] && [] + [p] == [p];
    ghost var spec := ContractTrailing(a, [m, n], [p], b);
    var rows: seq<Tensor<real>> := Fill([m, n], 0.0).elems;
    for i := 0 to m
      invariant |rows| == m
      invariant forall k :: 0 <= k < i ==> rows[k] == spec.elems[k]
    {
      var entries: seq<Tensor<real>> := Fill([n], 0.0).elems;
      for j := 0 to n
        invariant |entries| == n
        invariant forall k :: 0 <= k < j ==> entries[k] == spec.elems[i].elems[k]
      {
        var acc := DotEntry(a.elems[i].elems[j], p, b);
        ContractTrailingRow(a.elems[i], [n], [p], b, j);
        ContractTrailingLeaf(a.elems[i].elems[j], [p], b);
        entries := entries[j := Leaf(acc)];
      }
      ContractTrailingRow(a, [m, n], [p], b, i);
      assert Array(entries) == spec.elems[i];
      rows := rows[i := Array(entries)];
    }
    ab := Array(rows);
  }

  /** `ddot(A, B)` of a 4th-order tensor `A` (`m`-by-`n`-by-`p`-by-`q`) with a `p`-by-`q` matrix `B`. */
  method Ddot42(a: Tensor<real>, m: nat, n: nat, p: nat, q: nat, b: Tensor<real>) returns (ab: Tensor<real>)
    requires HasShape(a, [m, n] + [p, q]) && HasShape(b, [p, q])
    ensures ab == ContractTrailing(a, [m, n], [p, q], b)
  {
    assert ([m, n] + [p, q])[1..] == [n] + [p, q] && [m, n][1..] == [n];
    assert ([n] + [p, q])[1..] == [p, q] && [n][1..] == [] && [] + [p, q] == [p, q];
    ghost var spec := ContractTrailing(a, [m, n], [p, q], b);
    var rows: seq<Tensor<real>> := Fill([m, n], 0.0).elems;
    for i := 0 to m
      invariant |rows| == m
      invariant forall k :: 0 <= k < i ==> rows[k] == spec.elems[k]
    {
      var entries: seq<Tensor<real>> := Fill([n], 0.0).elems;
      for j := 0 to n
        invariant |entries| == n
        invariant forall k :: 0 <= k < j ==> entries[k] == spec.elems[i].elems[k]
      {
        var acc := DdotEntry(a.elems[i].elems[j], p, q, b);
        ContractTrailingRow(a.elems[i], [n], [p, q], b, j);
        ContractTrailingLeaf(a.elems[i].elems[j], [p, q], b);
        entries := entries[j := Leaf(acc)];
      }
      ContractTrailingRow(a, [m, n], [p, q], b, i);
      assert Array(entries) == spec.elems[i];
      rows := rows[i := Array(entries)];
    }
    ab := Array(rows);
  }

  /** `ddot(A, B)` of a 3rd-order tensor `A` (`m`-by-`n`-by-`p`) with an `n`-by-`p` matrix `B`. */
  method Ddot32(a: Tensor<real>, m: nat, n: nat, p: nat, b: Tensor<real>) returns (ab: Tensor<real>)
    requires HasShape(a, [m] + [n, p]) && HasShape(b, [n, p])
    ensures ab == ContractTrailing(a, [m], [n, p], b)
  {
    assert ([m] + [n, p])[1..] == [n, p] && [m][1..] == [] && [] + [n, p] == [n, p];
    ghost var spec := ContractTrailing(a, [m], [n, p], b);
    var entries: seq<Tensor<real>> := Fill([m], 0.0).elems;
    for i := 0 to m
      invariant |entries| == m
      invariant forall k :: 0 <= k < i ==> entries[k] == spec.elems[k]
    {
      var acc := DdotEntry(a.elems[i], n, p, b);
      ContractTrailingRow(a, [m], [n, p], b, i);
      ContractTrailingLeaf(a.elems[i], [n, p], b);
      entries := entries[i := Leaf(acc)];
    }
    ab := Array(entries);
  }

  /** `dot(A, B)` of a vector `A` with a 3rd- or 4th-order tensor `B`: `AB = AB + A[j] * B[j]`. */
  method DotVecTensor(u: Vec, b: Tensor<real>, rest: seq<nat>) returns (ab: Tensor<real>)
    requires HasShape(b, [|u|] + rest)
    ensures ab == LeadingDot(u, b, rest)
  {
    assert ([|u|] + rest)[1..] == rest;
    ab := Fill(rest, 0.0);
    for j := 0 to |u|
      invariant ab == LeadingDotTo(u, b, rest, j)
    {
      var term := ScaleLeft(u[j], b.elems[j], rest);
      ab := Add(ab, term, rest);
    }
  }

  // ---------------------------------------------------------------------------------------------
  // What the contractions mean.
  // ---------------------------------------------------------------------------------------------

  /** Entry `i...` of the partial contraction is the full contraction of `A[i...]` with `B`. */
  lemma {:induction false} ContractTrailingAt(a: Tensor<real>, lead: seq<nat>, trail: seq<nat>, b: Tensor<real>, idx: seq<nat>)
    requires HasShape(a, lead + trail) && HasShape(b, trail) && ValidIndex(lead, idx)
    ensures At(ContractTrailing(a, lead, trail, b), lead, idx) == Inner(Slice(a, lead, trail, idx), b, trail)
    decreases |lead|
  {
    if |lead| > 0 {
      ValidIndexTail(lead, idx);
      assert (lead + trail)[1..] == lead[1..] + trail;
      ContractTrailingAt(a.elems[idx[0]], lead[1..], trail, b, idx[1..]);
    }
  }

  lemma {:induction false} InnerCommutes(a: Tensor<real>, b: Tensor<real>, dims: seq<nat>)
    requires HasShape(a, dims) && HasShape(b, dims)
    ensures Inner(a, b, dims) == Inner(b, a, dims)
    decreases |dims|, 1, 0
  {
    if |dims| > 0 {
      InnerToCommutes(a, b, dims, dims[0]);
    }
  }

  lemma {:induction false} InnerToCommutes(a: Tensor<real>, b: Tensor<real>, dims: seq<nat>, k: nat)
    requires |dims| > 0 && HasShape(a, dims) && HasShape(b, dims) && k <= dims[0]
    ensures InnerTo(a, b, dims, k) == InnerTo(b, a, dims, k)
    decreases |dims|, 0, k
  {
    if k > 0 {
      InnerToCommutes(a, b, dims, k - 1);
      InnerCommutes(a.elems[k - 1], b.elems[k - 1], dims[1..]);
    }
  }

  /** Contracting with the zero tensor gives zero. */
  lemma {:induction false} InnerZeroRight(a: Tensor<real>, dims: seq<nat>)
    requires HasShape(a, dims)
    ensures Inner(a, Fill(dims, 0.0), dims) == 0.0
    decreases |dims|, 1, 0
  {
    if |dims| > 0 {
      InnerToZeroRight(a, dims, dims[0]);
    }
  }

  lemma {:induction false} InnerToZeroRight(a: Tensor<real>, dims: seq<nat>, k: nat)
    requires |dims| > 0 && HasShape(a, dims) && k <= dims[0]
    ensures InnerTo(a, Fill(dims, 0.0), dims, k) == 0.0
    decreases |dims|, 0, k
  {
    if k > 0 {
      InnerToZeroRight(a, dims, k - 1);
      InnerZeroRight(a.elems[k - 1], dims[1..]);
    }
  }

  /** `inner(A, s * B) == s * inner(A, B)`: the first-order change is linear in the scaling of `dx`. */
  lemma {:induction false} InnerScaled(a: Tensor<real>, s: real, b: Tensor<real>, dims: seq<nat>)
    requires HasShape(a, dims) && HasShape(b, dims)
    ensures Inner(a, ScaledLeft(s, b, dims), dims) == s * Inner(a, b, dims)
    decreases |dims|, 1, 0
  {
    if |dims| > 0 {
      InnerToScaled(a, s, b, dims, dims[0]);
    }
  }

  lemma {:induction false} InnerToScaled(a: Tensor<real>, s: real, b: Tensor<real>, dims: seq<nat>, k: nat)
    requires |dims| > 0 && HasShape(a, dims) && HasShape(b, dims) && k <= dims[0]
    ensures InnerTo(a, ScaledLeft(s, b, dims), dims, k) == s * InnerTo(a, b, dims, k)
    decreases |dims|, 0, k
  {
    if k > 0 {
      InnerToScaled(a, s, b, dims, k - 1);
      InnerScaled(a.elems[k - 1], s, b.elems[k - 1], dims[1..]);
      assert ScaledLeft(s, b, dims).elems[k - 1] == ScaledLeft(s, b.elems[k - 1], dims[1..]);
    }
  }

  /** `inner(A, B + C) == inner(A, B) + inner(A, C)`: the first-order change is additive in `dx`. */
  lemma {:induction false} InnerSum(a: Tensor<real>, b: Tensor<real>, c: Tensor<real>, dims: seq<nat>)
    requires HasShape(a, dims) && HasShape(b, dims) && HasShape(c, dims)
    ensures Inner(a, Sum(b, c, dims), dims) == Inner(a, b, dims) + Inner(a, c, dims)
    decreases |dims|, 1, 0
  {
    if |dims| > 0 {
      InnerToSum(a, b, c, dims, dims[0]);
    }
  }

  lemma {:induction false} InnerToSum(a: Tensor<real>, b: Tensor<real>, c: Tensor<real>, dims: seq<nat>, k: nat)
    requires |dims| > 0 && HasShape(a, dims) && HasShape(b, dims) && HasShape(c, dims) && k <= dims[0]
    ensures InnerTo(a, Sum(b, c, dims), dims, k) == InnerTo(a, b, dims, k) + InnerTo(a, c, dims, k)
    decreases |dims|, 0, k
  {
    if k > 0 {
      InnerToSum(a, b, c, dims, k - 1);
      InnerSum(a.elems[k - 1], b.elems[k - 1], c.elems[k - 1], dims[1..]);
      assert Sum(b, c, dims).elems[k - 1] == Sum(b.elems[k - 1], c.elems[k - 1], dims[1..]);
    }
  }

  /** `sqnorm(A) >= 0`. */
  lemma {:induction false} InnerSelfNonnegative(a: Tensor<real>, dims: seq<nat>)
    requires HasShape(a, dims)
    ensures Inner(a, a, dims) >= 0.0
    decreases |dims|, 1, 0
  {
    if |dims| == 0 {
      SquareSigns(a.x);
    } else {
      InnerToSelfNonnegative(a, dims, dims[0]);
    }
  }

  lemma {:induction false} InnerToSelfNonnegative(a: Tensor<real>, dims: seq<nat>, k: nat)
    requires |dims| > 0 && HasShape(a, dims) && k <= dims[0]
    ensures InnerTo(a, a, dims, k) >= 0.0
    decreases |dims|, 0, k
  {
    if k > 0 {
      InnerToSelfNonnegative(a, dims, k - 1);
      InnerSelfNonnegative(a.elems[k - 1], dims[1..]);
    }
  }

  /** `sqnorm(A) == 0` only for the zero tensor. */
  lemma {:induction false} InnerSelfZero(a: Tensor<real>, dims: seq<nat>)
    requires HasShape(a, dims) && Inner(a, a, dims) == 0.0
    ensures a == Fill(dims, 0.0)
    decreases |dims|, 1, 0
  {
    if |dims| == 0 {
      SquareSigns(a.x);
    } else {
      InnerToSelfZero(a, dims, dims[0]);
      assert a.elems == Fill(dims, 0.0).elems;
    }
  }

  lemma {:induction false} InnerToSelfZero(a: Tensor<real>, dims: seq<nat>, k: nat)
    requires |dims| > 0 && HasShape(a, dims) && k <= dims[0] && InnerTo(a, a, dims, k) == 0.0
    ensures forall i :: 0 <= i < k ==> a.elems[i] == Fill(dims[1..], 0.0)
    decreases |dims|, 0, k
  {
    if k > 0 {
      InnerToSelfNonnegative(a, dims, k - 1);
      InnerSelfNonnegative(a.elems[k - 1], dims[1..]);
      InnerToSelfZero(a, dims, k - 1);
      InnerSelfZero(a.elems[k - 1], dims[1..]);
    }
  }

  /** The full contraction of two vectors is their dot product (`dot(u, v)`, `chain_rule` on vectors). */
  lemma InnerVec(u: Vec, v: Vec)
    requires |u| == |v|
    ensures Inner(FromVec(u), FromVec(v), [|u|]) == Dot(u, v)
  {
    InnerToVec(u, v, |u|);
  }

  lemma {:induction false} InnerToVec(u: Vec, v: Vec, k: nat)
    requires |u| == |v| && k <= |u|
    ensures InnerTo(FromVec(u), FromVec(v), [|u|], k) == DotTo(u, v, k)
    decreases k
  {
    if k > 0 {
      InnerToVec(u, v, k - 1);
      assert [|u|][1..] == [];
    }
  }

  /** The full contraction of two matrices is `inner(A, B)`, the 2:2 `ddot`. */
  lemma InnerMat(a: Mat, b: Mat, n: nat)
    requires IsMatrix(a, |a|, n) && IsMatrix(b, |a|, n)
    ensures Inner(FromMat(a, n), FromMat(b, n), [|a|, n]) == Frobenius(a, b)
  {
    InnerToMat(a, b, n, |a|);
  }

  lemma {:induction false} InnerToMat(a: Mat, b: Mat, n: nat, k: nat)
    requires IsMatrix(a, |a|, n) && IsMatrix(b, |a|, n) && k <= |a|
    ensures InnerTo(FromMat(a, n), FromMat(b, n), [|a|, n], k) == FrobeniusTo(a, b, k)
    decreases k
  {
    if k > 0 {
      InnerToMat(a, b, n, k - 1);
      assert [|a|, n][1..] == [n];
      InnerVec(a[k - 1], b[k - 1]);
    }
  }

  /** Contracting the trailing index of a matrix with a vector is `dot(A, v)`. */
  lemma ContractMatVec(a: Mat, v: Vec)
    requires IsMatrix(a, |a|, |v|)
    ensures [|a|] + [|v|] == [|a|, |v|]
    ensures ContractTrailing(FromMat(a, |v|), [|a|], [|v|], FromVec(v)) == FromVec(MatVec(a, v))
  {
    assert [|a|] + [|v|] == [|a|, |v|];
    var c := ContractTrailing(FromMat(a, |v|), [|a|], [|v|], FromVec(v));
    assert [|a|][1..] == [] && [] + [|v|] == [|v|];
    forall i | 0 <= i < |a| ensures c.elems[i] == FromVec(MatVec(a, v)).elems[i] {
      InnerVec(a[i], v);
    }
  }

  lemma {:induction false} LeadingDotToAt(u: Vec, b: Tensor<real>, rest: seq<nat>, k: nat, idx: seq<nat>)
    requires HasShape(b, [|u|] + rest) && k <= |u| && ValidIndex(rest, idx)
    ensures At(LeadingDotTo(u, b, rest, k), rest, idx) == DotTo(u, Fiber(b, |u|, rest, idx), k)
    decreases k
  {
    FillAt(rest, 0.0, idx);
    if k > 0 {
      assert ([|u|] + rest)[1..] == rest;
      LeadingDotToAt(u, b, rest, k - 1, idx);
      var prev := LeadingDotTo(u, b, rest, k - 1);
      var term := ScaledLeft(u[k - 1], b.elems[k - 1], rest);
      SumAt(prev, term, rest, idx);
      ScaledLeftAt(u[k - 1], b.elems[k - 1], rest, idx);
    }
  }

  /** Entry `idx` of `dot(u, B)` is the dot product of `u` with the entries `B(j, idx...)`. */
  lemma LeadingDotAt(u: Vec, b: Tensor<real>, rest: seq<nat>, idx: seq<nat>)
    requires HasShape(b, [|u|] + rest) && ValidIndex(rest, idx)
    ensures At(LeadingDot(u, b, rest), rest, idx) == Dot(u, Fiber(b, |u|, rest, idx))
  {
    LeadingDotToAt(u, b, rest, |u|, idx);
  }

  /** The leading contraction of a vector with a matrix is `dot(u, A)`. */
  lemma LeadingDotVecMat(u: Vec, a: Mat, n: nat)
    requires IsMatrix(a, |u|, n)
    ensures [|u|] + [n] == [|u|, n]
    ensures LeadingDot(u, FromMat(a, n), [n]) == FromVec(VecMat(u, a, n))
  {
    assert [|u|] + [n] == [|u|, n];
    var d := LeadingDot(u, FromMat(a, n), [n]);
    var w := VecMat(u, a, n);
    forall idx | ValidIndex([n], idx) ensures At(d, [n], idx) == At(FromVec(w), [n], idx) {
      var j := idx[0];
      assert idx == [j];
      LeadingDotAt(u, FromMat(a, n), [n], idx);
      var f := Fiber(FromMat(a, n), |u|, [n], idx);
      forall i | 0 <= i < |u| ensures f[i] == Column(a, n, j)[i] {
        assert [|u|, n][1..] == [n];
        FromVecAt(a[i], j);
      }
      VecEq(f, Column(a, n, j));
      FromVecAt(w, j);
    }
    Extensionality(d, FromVec(w), [n]);
  }

  /** The full contraction of two rank-1 tensors is the dot product of their entries. */
  lemma InnerAsDot(a: Tensor<real>, b: Tensor<real>, k: nat)
    requires HasShape(a, [k]) && HasShape(b, [k])
    ensures Inner(a, b, [k]) == Dot(ToVec(a, k), ToVec(b, k))
  {
    FromVecToVec(a, k);
    FromVecToVec(b, k);
    InnerVec(ToVec(a, k), ToVec(b, k));
  }

  /** `dot` of a vector with a vector-shaped tensor, as a leading contraction, is the dot product. */
  lemma LeadingDotScalar(u: Vec, b: Tensor<real>)
    requires HasShape(b, [|u|] + [])
    ensures [|u|] + [] == [|u|]
    ensures LeadingDot(u, b, []) == Leaf(Dot(u, ToVec(b, |u|)))
  {
    assert [|u|] + [] == [|u|];
    var d := LeadingDot(u, b, []);
    LeadingDotAt(u, b, [], []);
    var f := Fiber(b, |u|, [], []);
    forall j | 0 <= j < |u| ensures f[j] == ToVec(b, |u|)[j] {
      assert [|u|][1..] == [] && [j][1..] == [];
    }
    VecEq(f, ToVec(b, |u|));
  }

  /** With a vector on the right, the general `dot` is the trailing contraction (`dot(tensor3D, vector)`, `dot(A, v)`). */
  lemma {:induction false} TensorDotVector(a: Tensor<real>, lead: seq<nat>, k: nat, b: Tensor<real>)
    requires HasShape(a, lead + [k]) && HasShape(b, [k] + [])
    ensures [k] + [] == [k] && lead + [] == lead
    ensures TensorDot(a, lead, k, b, []) == ContractTrailing(a, lead, [k], b)
    decreases |lead|
  {
    assert [k] + [] == [k] && lead + [] == lead;
    if |lead| == 0 {
      assert lead + [k] == [k];
      LeadingDotScalar(ToVec(a, k), b);
      InnerAsDot(a, b, k);
    } else {
      assert (lead + [k])[1..] == lead[1..] + [k];
      forall i | 0 <= i < lead[0]
        ensures TensorDot(a, lead, k, b, []).elems[i] == ContractTrailing(a, lead, [k], b).elems[i]
      {
        TensorDotVector(a.elems[i], lead[1..], k, b);
      }
    }
  }

  /** With a vector on the left, the general `dot` is the leading contraction (`dot(vector, tensor)`). */
  lemma TensorDotLeading(u: Vec, b: Tensor<real>, rest: seq<nat>)
    requires HasShape(b, [|u|] + rest)
    ensures [] + [|u|] == [|u|] && [] + rest == rest
    ensures TensorDot(FromVec(u), [], |u|, b, rest) == LeadingDot(u, b, rest)
  {
    assert [] + [|u|] == [|u|] && [] + rest == rest;
    ToVecFromVec(u);
  }

  /** One level of `OuterProduct`: row `i` of the result is the outer product of row `i` of `A`. */
  lemma OuterProductRow(a: Tensor<real>, da: seq<nat>, b: Tensor<real>, db: seq<nat>, i: nat)
    requires HasShape(a, da) && HasShape(b, db) && |da| > 0 && i < da[0]
    ensures (da + db)[1..] == da[1..] + db && HasShape(a.elems[i], da[1..])
    ensures OuterProduct(a, da, b, db).elems[i] == OuterProduct(a.elems[i], da[1..], b, db)
  {
    assert (da + db)[1..] == da[1..] + db;
  }

  /** The entries of an outer product whose left factor is a scalar. */
  lemma {:induction false} OuterProductAtLeaf(a: Tensor<real>, b: Tensor<real>, db: seq<nat>, j: seq<nat>)
    requires a.Leaf? && HasShape(b, db) && ValidIndex(db, j)
    ensures At(OuterProduct(a, [], b, db), db, j) == a.x * At(b, db, j)
  {
    assert [] + db == db;
    ScaledLeftAt(a.x, b, db, j);
  }

  /** One level of `OuterProductAt`: from the entry of row `i[0]` to the entry of the whole product. */
  lemma {:induction false} OuterProductAtStep(a: Tensor<real>, da: seq<nat>, b: Tensor<real>, db: seq<nat>, i: seq<nat>, j: seq<nat>)
    requires HasShape(a, da) && HasShape(b, db) && ValidIndex(da, i) && ValidIndex(db, j) && |da| > 0
    requires HasShape(a.elems[i[0]], da[1..]) && ValidIndex(da[1..] + db, i[1..] + j)
    requires At(OuterProduct(a.elems[i[0]], da[1..], b, db), da[1..] + db, i[1..] + j) ==
      At(a.elems[i[0]], da[1..], i[1..]) * At(b, db, j)
    ensures ValidIndex(da + db, i + j)
    ensures At(OuterProduct(a, da, b, db), da + db, i + j) == At(a, da, i) * At(b, db, j)
  {
    ValidIndexConcat(da, db, i, j);
    var o, d := OuterProduct(a, da, b, db), da + db;
    var i0, rest := i[0], i[1..] + j;
    assert i + j == [i0] + rest by { assert i == [i0] + i[1..]; }
    assert d[0] == da[0];
    OuterProductRow(a, da, b, db, i0);
    AtCons(o, d, i0, rest);
  }

  lemma {:induction false} OuterProductAt(a: Tensor<real>, da: seq<nat>, b: Tensor<real>, db: seq<nat>, i: seq<nat>, j: seq<nat>)
    requires HasShape(a, da) && HasShape(b, db) && ValidIndex(da, i) && ValidIndex(db, j)
    ensures ValidIndex(da + db, i + j)
    ensures At(OuterProduct(a, da, b, db), da + db, i + j) == At(a, da, i) * At(b, db, j)
    decreases |da|
  {
    if |da| == 0 {
      assert da == [] && i == [] && da + db == db && i + j == j;
      OuterProductAtLeaf(a, b, db, j);
    } else {
      ValidIndexTail(da, i);
      OuterProductRow(a, da, b, db, i[0]);
      OuterProductAt(a.elems[i[0]], da[1..], b, db, i[1..], j);
      OuterProductAtStep(a, da, b, db, i, j);
    }
  }

  /** `outer(u, v)` of two vectors is the matrix `AB[i][j] == u[i] * v[j]`. */
  lemma OuterProductVectors(u: Vec, v: Vec)
    ensures [|u|] + [|v|] == [|u|, |v|]
    ensures OuterProduct(FromVec(u), [|u|], FromVec(v), [|v|]) == FromMat(Outer(u, v), |v|)
  {
    var m, n := |u|, |v|;
    assert [m] + [n] == [m, n];
    var o := OuterProduct(FromVec(u), [m], FromVec(v), [n]);
    var c := FromMat(Outer(u, v), n);
    forall idx | ValidIndex([m, n], idx) ensures At(o, [m, n], idx) == At(c, [m, n], idx) {
      var i, j := idx[0], idx[1];
      assert idx == [i] + [j];
      assert ValidIndex([m], [i]) && ValidIndex([n], [j]);
      OuterProductAt(FromVec(u), [m], FromVec(v), [n], [i], [j]);
      FromVecAt(u, i);
      FromVecAt(v, j);
      FromMatAt(Outer(u, v), n, i, j);
    }
    Extensionality(o, c, [m, n]);
  }

  /** `outer(A, s)` of a vector with a scalar scales the vector on the right. */
  lemma OuterProductScalarRight(a: Tensor<real>, m: nat, s: real)
    requires HasShape(a, [m])
    ensures [m] + [] == [m]
    ensures OuterProduct(a, [m], Leaf(s), []) == ScaledRight(a, [m], s)
  {
    assert [m] + [] == [m];
    var o := OuterProduct(a, [m], Leaf(s), []);
    forall idx | ValidIndex([m], idx) ensures At(o, [m], idx) == At(ScaledRight(a, [m], s), [m], idx) {
      assert idx + [] == idx;
      OuterProductAt(a, [m], Leaf(s), [], idx, []);
      ScaledRightAt(a, [m], s, idx);
    }
    Extensionality(o, ScaledRight(a, [m], s), [m]);
  }

  /** Entry `j` of the sub-tensor `A[i...]` is entry `i + j` of `A`. */
  lemma {:induction false} SliceAt(t: Tensor<real>, lead: seq<nat>, trail: seq<nat>, i: seq<nat>, j: seq<nat>)
    requires HasShape(t, lead + trail) && ValidIndex(lead, i) && ValidIndex(trail, j)
    ensures ValidIndex(lead + trail, i + j)
    ensures At(Slice(t, lead, trail, i), trail, j) == At(t, lead + trail, i + j)
    decreases |lead|
  {
    ValidIndexConcat(lead, trail, i, j);
    if |lead| == 0 {
      assert lead + trail == trail && i + j == j;
    } else {
      ValidIndexTail(lead, i);
      var i0, rest := i[0], i[1..] + j;
      assert i + j == [i0] + rest by { assert i == [i0] + i[1..]; }
      assert (lead + trail)[1..] == lead[1..] + trail;
      SliceAt(t.elems[i0], lead[1..], trail, i[1..], j);
      AtCons(t, lead + trail, i0, rest);
    }
  }

  /** A sub-tensor of a constant tensor is constant. */
  lemma SliceFill(lead: seq<nat>, trail: seq<nat>, v: real, i: seq<nat>)
    requires ValidIndex(lead, i)
    ensures Slice(Fill(lead + trail, v), lead, trail, i) == Fill(trail, v)
  {
    var s := Slice(Fill(lead + trail, v), lead, trail, i);
    forall j | ValidIndex(trail, j) ensures At(s, trail, j) == At(Fill(trail, v), trail, j) {
      SliceAt(Fill(lead + trail, v), lead, trail, i, j);
      FillAt(lead + trail, v, i + j);
      FillAt(trail, v, j);
    }
    Extensionality(s, Fill(trail, v), trail);
  }
}
