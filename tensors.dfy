/**
 * The fixed-shape tensor value of `tensor.hpp`: a `tensor<T, m, n...>` holds `data[m]` sub-tensors of
 * shape `n...`, and a rank-0 entry is the scalar itself. The static shape becomes the explicit `dims`
 * argument, checked by `HasShape`; element access `A(i, j, ...)` is `At`.
 */
module Tensors {

  datatype Tensor<T> = Leaf(x: T) | Array(elems: seq<Tensor<T>>)

  /** `t` has the shape `dims` (row-major nesting, leading index outermost). */
  predicate HasShape<T>(t: Tensor<T>, dims: seq<nat>)
    decreases t
  {
    if |dims| == 0 then t.Leaf?
    else
      t.Array? && |t.elems| == dims[0] &&
      forall i :: 0 <= i < |t.elems| ==> HasShape(t.elems[i], dims[1..])
  }

  /** `idx` is a multi-index in range for the shape `dims`. */
  predicate ValidIndex(dims: seq<nat>, idx: seq<nat>) {
    |idx| == |dims| && forall k :: 0 <= k < |idx| ==> idx[k] < dims[k]
  }

  /** `A(i, j, ...)`: the entry at a full multi-index. */
  function At<T>(t: Tensor<T>, dims: seq<nat>, idx: seq<nat>): T
    requires HasShape(t, dims) && ValidIndex(dims, idx)
    decreases |dims|
  {
    if |dims| == 0 then t.x
    else At(t.elems[idx[0]], dims[1..], idx[1..])
  }

  /** The number of entries of a tensor of shape `dims`. */
  function Size(dims: seq<nat>): nat
    decreases |dims|
  {
    if |dims| == 0 then 1 else dims[0] * Size(dims[1..])
  }

  /** A tensor of shape `dims` whose every entry is `v`; `tensor<T, n...>{}` is `Fill(dims, 0.0)`. */
  function Fill<T>(dims: seq<nat>, v: T): (t: Tensor<T>)
    ensures HasShape(t, dims)
    decreases |dims|
  {
    if |dims| == 0 then Leaf(v)
    else Array(seq(dims[0], i => Fill(dims[1..], v)))
  }

  /** The assignment `A(i...) = v`: `t` with its entry at `idx` replaced. */
  function Update<T>(t: Tensor<T>, dims: seq<nat>, idx: seq<nat>, v: T): (r: Tensor<T>)
    requires HasShape(t, dims) && ValidIndex(dims, idx)
    ensures HasShape(r, dims)
    decreases |dims|
  {
    if |dims| == 0 then Leaf(v)
    else
      var i := idx[0];
      Array(t.elems[i := Update(t.elems[i], dims[1..], idx[1..], v)])
  }

  lemma ValidIndexTail(dims: seq<nat>, idx: seq<nat>)
    requires |dims| > 0 && ValidIndex(dims, idx)
    ensures ValidIndex(dims[1..], idx[1..]) && idx[0] < dims[0]
  {
    assert idx[0] < dims[0];
    forall k | 0 <= k < |idx[1..]| ensures idx[1..][k] < dims[1..][k] {
      assert idx[1..][k] == idx[k + 1];
    }
  }

  lemma ValidIndexCons(dims: seq<nat>, i: nat, idx: seq<nat>)
    requires |dims| > 0 && i < dims[0] && ValidIndex(dims[1..], idx)
    ensures ValidIndex(dims, [i] + idx) && ([i] + idx)[0] == i && ([i] + idx)[1..] == idx
  {
    var full := [i] + idx;
    assert full[1..] == idx;
    forall k | 0 <= k < |full| ensures full[k] < dims[k] {
      if k > 0 { assert full[k] == idx[k - 1]; }
    }
  }

  /** Indices of two shapes, concatenated, index the concatenated shape. */
  lemma ValidIndexConcat(da: seq<nat>, db: seq<nat>, i: seq<nat>, j: seq<nat>)
    requires ValidIndex(da, i) && ValidIndex(db, j)
    ensures ValidIndex(da + db, i + j)
  {
    forall k | 0 <= k < |i + j| ensures (i + j)[k] < (da + db)[k] {
      if k >= |i| {
        assert (i + j)[k] == j[k - |i|] && (da + db)[k] == db[k - |i|];
      }
    }
  }

  /** An index of the concatenated shape splits into an index of each part. */
  lemma ValidIndexSplit(da: seq<nat>, db: seq<nat>, idx: seq<nat>)
    requires ValidIndex(da + db, idx)
    ensures ValidIndex(da, idx[..|da|]) && ValidIndex(db, idx[|da|..]) && idx == idx[..|da|] + idx[|da|..]
  {
    var i, j := idx[..|da|], idx[|da|..];
    forall m | 0 <= m < |i| ensures i[m] < da[m] { assert i[m] == idx[m] && da[m] == (da + db)[m]; }
    forall m | 0 <= m < |j| ensures j[m] < db[m] { assert j[m] == idx[|da| + m] && db[m] == (da + db)[|da| + m]; }
  }

  /** The entry of a sub-tensor is the entry of the whole at the extended index. */
  lemma AtCons<T>(t: Tensor<T>, dims: seq<nat>, i: nat, idx: seq<nat>)
    requires HasShape(t, dims) && |dims| > 0 && i < dims[0] && ValidIndex(dims[1..], idx)
    ensures ValidIndex(dims, [i] + idx)
    ensures At(t, dims, [i] + idx) == At(t.elems[i], dims[1..], idx)
  {
    ValidIndexCons(dims, i, idx);
  }

  lemma {:induction false} FillAt<T>(dims: seq<nat>, v: T, idx: seq<nat>)
    requires ValidIndex(dims, idx)
    ensures At(Fill(dims, v), dims, idx) == v
    decreases |dims|
  {
    if |dims| > 0 {
      ValidIndexTail(dims, idx);
      FillAt(dims[1..], v, idx[1..]);
    }
  }

  /** After `A(i...) = v`, reading `A(i...)` gives `v` and every other entry is unchanged. */
  lemma {:induction false} UpdateAt<T>(t: Tensor<T>, dims: seq<nat>, idx: seq<nat>, v: T, jdx: seq<nat>)
    requires HasShape(t, dims) && ValidIndex(dims, idx) && ValidIndex(dims, jdx)
    ensures At(Update(t, dims, idx, v), dims, jdx) == if jdx == idx then v else At(t, dims, jdx)
    decreases |dims|
  {
    if |dims| == 0 {
      assert idx == [] && jdx == [];
    } else {
      ValidIndexTail(dims, idx);
      ValidIndexTail(dims, jdx);
      var i, j := idx[0], jdx[0];
      UpdateAt(t.elems[i], dims[1..], idx[1..], v, jdx[1..]);
      if i == j {
        assert jdx == idx <==> jdx[1..] == idx[1..] by {
          if jdx[1..] == idx[1..] { assert jdx == [j] + jdx[1..] && idx == [i] + idx[1..]; }
        }
      } else {
        assert jdx != idx by { assert jdx[0] != idx[0]; }
      }
    }
  }

  /** Two tensors of the same shape with the same entries are equal. */
  lemma {:induction false} Extensionality<T>(a: Tensor<T>, b: Tensor<T>, dims: seq<nat>)
    requires HasShape(a, dims) && HasShape(b, dims)
    requires forall idx :: ValidIndex(dims, idx) ==> At(a, dims, idx) == At(b, dims, idx)
    ensures a == b
    decreases |dims|
  {
    if |dims| == 0 {
      assert At(a, dims, []) == At(b, dims, []);
    } else {
      forall i | 0 <= i < dims[0] ensures a.elems[i] == b.elems[i] {
        forall idx | ValidIndex(dims[1..], idx)
          ensures At(a.elems[i], dims[1..], idx) == At(b.elems[i], dims[1..], idx)
        {
          AtCons(a, dims, i, idx);
          AtCons(b, dims, i, idx);
        }
        Extensionality(a.elems[i], b.elems[i], dims[1..]);
      }
      assert a.elems == b.elems;
    }
  }

  /** A rank-`|dims|` tensor is given by its entries: the entry at `idx` of the generated tensor is `f(idx)`. */
  function Generate<T>(dims: seq<nat>, f: seq<nat> -> T, prefix: seq<nat>): (t: Tensor<T>)
    ensures HasShape(t, dims)
    decreases |dims|
  {
    if |dims| == 0 then Leaf(f(prefix))
    else Array(seq(dims[0], i requires 0 <= i < dims[0] => Generate(dims[1..], f, prefix + [i as nat])))
  }

  lemma {:induction false} GenerateAt<T>(dims: seq<nat>, f: seq<nat> -> T, prefix: seq<nat>, idx: seq<nat>)
    requires ValidIndex(dims, idx)
    ensures At(Generate(dims, f, prefix), dims, idx) == f(prefix + idx)
    decreases |dims|
  {
    if |dims| == 0 {
      assert prefix + idx == prefix;
    } else {
      ValidIndexTail(dims, idx);
      GenerateAt(dims[1..], f, prefix + [idx[0]], idx[1..]);
      assert prefix + [idx[0]] + idx[1..] == prefix + idx by {
        assert idx == [idx[0]] + idx[1..];
      }
    }
  }

  /**
   * `make_tensor<n1, ..., nk>(f)`: fills `A{}` entry by entry with `A(i...) = f(i...)`, one loop per index.
   * The model writes the nested loops as one loop over the leading index that recurses on the rest.
   */
  method MakeTensor<T>(dims: seq<nat>, f: seq<nat> -> T) returns (t: Tensor<T>)
    ensures HasShape(t, dims)
    ensures forall idx :: ValidIndex(dims, idx) ==> At(t, dims, idx) == f(idx)
  {
    t := MakeTensorFrom(dims, f, []);
    forall idx | ValidIndex(dims, idx) ensures At(t, dims, idx) == f(idx) {
      GenerateAt(dims, f, [], idx);
      assert [] + idx == idx;
    }
  }

  method MakeTensorFrom<T>(dims: seq<nat>, f: seq<nat> -> T, prefix: seq<nat>) returns (t: Tensor<T>)
    ensures t == Generate(dims, f, prefix)
    decreases |dims|
  {
    if |dims| == 0 {
      return Leaf(f(prefix));
    }
    var elems: seq<Tensor<T>> := [];
    for i := 0 to dims[0]
      invariant |elems| == i
      invariant forall k :: 0 <= k < i ==> elems[k] == Generate(dims[1..], f, prefix + [k])
    {
      var sub := MakeTensorFrom(dims[1..], f, prefix + [i]);
      elems := elems + [sub];
    }
    t := Array(elems);
  }

  /** The implicit conversion `operator T()` of a `tensor<T, 1>`: its only entry. */
  function ToScalar<T>(t: Tensor<T>): (s: T)
    requires HasShape(t, [1])
    ensures s == At(t, [1], [0])
  {
    VecShape(t, 1);
    assert [0][1..] == [];
    t.elems[0].x
  }

  /** A `tensor<double, n>` built from a vector of entries. */
  function FromVec(v: seq<real>): (t: Tensor<real>)
    ensures HasShape(t, [|v|])
  {
    Array(seq(|v|, i requires 0 <= i < |v| => Leaf(v[i])))
  }

  /** A `tensor<double, m, n>` built from its rows. */
  function FromMat(a: seq<seq<real>>, n: nat): (t: Tensor<real>)
    requires forall i :: 0 <= i < |a| ==> |a[i]| == n
    ensures HasShape(t, [|a|, n])
  {
    var t := Array(seq(|a|, i requires 0 <= i < |a| => FromVec(a[i])));
    assert forall i :: 0 <= i < |a| ==> HasShape(t.elems[i], [|a|, n][1..]) by {
      assert [|a|, n][1..] == [n];
    }
    t
  }

  /** `A(j)` of a vector-shaped tensor built from entries. */
  lemma FromVecAt(v: seq<real>, j: nat)
    requires j < |v|
    ensures ValidIndex([|v|], [j]) && At(FromVec(v), [|v|], [j]) == v[j]
  {
    assert [|v|][1..] == [] && [j][1..] == [];
  }

  /** The entries of a `tensor<double, n>`. */
  function ToVec(t: Tensor<real>, n: nat): (v: seq<real>)
    requires HasShape(t, [n])
    ensures |v| == n
    ensures forall j :: 0 <= j < n ==> ValidIndex([n], [j]) && v[j] == At(t, [n], [j])
  {
    VecShape(t, n);
    assert [n][1..] == [];
    assert forall j :: 0 <= j < n ==> [j][1..] == [];
    seq(n, j requires 0 <= j < n => t.elems[j].x)
  }

  lemma FromVecToVec(t: Tensor<real>, n: nat)
    requires HasShape(t, [n])
    ensures FromVec(ToVec(t, n)) == t
  {
    VecShape(t, n);
    assert FromVec(ToVec(t, n)).elems == t.elems;
  }

  lemma ToVecFromVec(v: seq<real>)
    ensures ToVec(FromVec(v), |v|) == v
  {
  }

  /** What `HasShape(t, [n])` says about a vector-shaped tensor. */
  lemma VecShape<T>(t: Tensor<T>, n: nat)
    ensures HasShape(t, [n]) <==>
      t.Array? && |t.elems| == n && forall j :: 0 <= j < n ==> t.elems[j].Leaf?
  {
    assert [n][1..] == [];
    if t.Array? && |t.elems| == n {
      forall j | 0 <= j < n ensures HasShape(t.elems[j], []) <==> t.elems[j].Leaf? { }
    }
  }

  /** What `HasShape(t, [m, n])` says about the nesting of a matrix-shaped tensor. */
  lemma MatShape<T>(t: Tensor<T>, m: nat, n: nat)
    ensures HasShape(t, [m, n]) <==>
      t.Array? && |t.elems| == m &&
      forall i :: 0 <= i < m ==>
        t.elems[i].Array? && |t.elems[i].elems| == n &&
        forall j :: 0 <= j < n ==> t.elems[i].elems[j].Leaf?
  {
    assert [m, n][1..] == [n];
    if t.Array? && |t.elems| == m {
      forall i | 0 <= i < m { VecShape(t.elems[i], n); }
    }
  }

  /** `A(i, j)` of a matrix-shaped tensor. */
  lemma MatAt<T>(t: Tensor<T>, m: nat, n: nat, i: nat, j: nat)
    requires HasShape(t, [m, n]) && i < m && j < n
    ensures ValidIndex([m, n], [i, j])
    ensures t.elems[i].Array? && j < |t.elems[i].elems| && t.elems[i].elems[j].Leaf?
    ensures At(t, [m, n], [i, j]) == t.elems[i].elems[j].x
  {
    MatShape(t, m, n);
    assert [m, n][1..] == [n] && [n][1..] == [] && [i, j][1..] == [j] && [j][1..] == [];
    assert At(t.elems[i], [n], [j]) == At(t.elems[i].elems[j], [], []);
  }

  /** The rows of a `tensor<double, m, n>`. */
  function ToMat(t: Tensor<real>, m: nat, n: nat): (a: seq<seq<real>>)
    requires HasShape(t, [m, n])
    ensures |a| == m && forall i :: 0 <= i < m ==> |a[i]| == n
    ensures forall i, j :: 0 <= i < m && 0 <= j < n ==>
      ValidIndex([m, n], [i, j]) && a[i][j] == At(t, [m, n], [i, j])
  {
    MatShape(t, m, n);
    forall i, j | 0 <= i < m && 0 <= j < n
      ensures ValidIndex([m, n], [i, j]) && At(t, [m, n], [i, j]) == t.elems[i].elems[j].x
    {
      MatAt(t, m, n, i, j);
    }
    seq(m, i requires 0 <= i < m => seq(n, j requires 0 <= j < n => t.elems[i].elems[j].x))
  }

  lemma FromMatAt(a: seq<seq<real>>, n: nat, i: nat, j: nat)
    requires forall r :: 0 <= r < |a| ==> |a[r]| == n
    requires i < |a| && j < n
    ensures ValidIndex([|a|, n], [i, j]) && At(FromMat(a, n), [|a|, n], [i, j]) == a[i][j]
  {
    MatAt(FromMat(a, n), |a|, n, i, j);
  }

  lemma ToMatFromMat(a: seq<seq<real>>, n: nat)
    requires forall r :: 0 <= r < |a| ==> |a[r]| == n
    ensures ToMat(FromMat(a, n), |a|, n) == a
  {
    var b := ToMat(FromMat(a, n), |a|, n);
    forall i | 0 <= i < |a| ensures b[i] == a[i] {
      MatShape(FromMat(a, n), |a|, n);
    }
  }

  lemma FromMatToMat(t: Tensor<real>, m: nat, n: nat)
    requires HasShape(t, [m, n])
    ensures FromMat(ToMat(t, m, n), n) == t
  {
    var a := ToMat(t, m, n);
    MatShape(t, m, n);
    forall i | 0 <= i < m ensures FromMat(a, n).elems[i] == t.elems[i] {
      assert FromVec(a[i]).elems == t.elems[i].elems;
    }
  }

  /** The tensor of shape `dims` whose entries are `f` of the entries of `t`. */
  function Map<T, U>(t: Tensor<T>, dims: seq<nat>, f: T -> U): (r: Tensor<U>)
    requires HasShape(t, dims)
    ensures HasShape(r, dims)
    decreases |dims|
  {
    if |dims| == 0 then Leaf(f(t.x))
    else Array(seq(dims[0], i requires 0 <= i < dims[0] => Map(t.elems[i], dims[1..], f)))
  }

  /** The tensor of shape `dims` whose entries combine the entries of `a` and `b` at the same index by `f`. */
  function Zip<T>(a: Tensor<T>, b: Tensor<T>, dims: seq<nat>, f: (T, T) -> T): (r: Tensor<T>)
    requires HasShape(a, dims) && HasShape(b, dims)
    ensures HasShape(r, dims)
    decreases |dims|
  {
    if |dims| == 0 then Leaf(f(a.x, b.x))
    else Array(seq(dims[0], i requires 0 <= i < dims[0] => Zip(a.elems[i], b.elems[i], dims[1..], f)))
  }

  lemma {:induction false} MapAt<T, U>(t: Tensor<T>, dims: seq<nat>, f: T -> U, idx: seq<nat>)
    requires HasShape(t, dims) && ValidIndex(dims, idx)
    ensures At(Map(t, dims, f), dims, idx) == f(At(t, dims, idx))
    decreases |dims|
  {
    if |dims| > 0 {
      ValidIndexTail(dims, idx);
      MapAt(t.elems[idx[0]], dims[1..], f, idx[1..]);
    }
  }

  lemma {:induction false} ZipAt<T>(a: Tensor<T>, b: Tensor<T>, dims: seq<nat>, f: (T, T) -> T, idx: seq<nat>)
    requires HasShape(a, dims) && HasShape(b, dims) && ValidIndex(dims, idx)
    ensures At(Zip(a, b, dims, f), dims, idx) == f(At(a, dims, idx), At(b, dims, idx))
    decreases |dims|
  {
    if |dims| > 0 {
      ValidIndexTail(dims, idx);
      ZipAt(a.elems[idx[0]], b.elems[idx[0]], dims[1..], f, idx[1..]);
    }
  }
}
