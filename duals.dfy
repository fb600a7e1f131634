/**
 * The forward-mode entry points of `tensor.hpp`: `make_dual` turns a tensor of values into a tensor of
 * dual numbers whose gradients seed the identity, `get_value` and `get_gradient` take them apart again.
 * A dual number is a value with a gradient; the gradient is a `double` in `dual<double>` and a tensor
 * in `dual<tensor<double, n...>>`.
 */
module Duals {
  import opened Tensors
  import opened ZeroSentinel

  datatype Dual<G> = Dual(value: real, gradient: G)

  /** The gradient seeded at `idx`: `1.0` there and `0.0` at every other index. */
  function Seed(dims: seq<nat>, idx: seq<nat>): (g: Tensor<real>)
    ensures HasShape(g, dims)
  {
    Generate(dims, j => if j == idx then 1.0 else 0.0, [])
  }

  lemma SeedAt(dims: seq<nat>, idx: seq<nat>, jdx: seq<nat>)
    requires ValidIndex(dims, jdx)
    ensures At(Seed(dims, idx), dims, jdx) == if jdx == idx then 1.0 else 0.0
  {
    GenerateAt(dims, j => if j == idx then 1.0 else 0.0, [], jdx);
    assert [] + jdx == jdx;
  }

  /** The seed is what `A_dual(i...).gradient(i...) = 1.0` leaves in a zero-initialised gradient. */
  lemma SeedIsUpdate(dims: seq<nat>, idx: seq<nat>)
    requires ValidIndex(dims, idx)
    ensures Seed(dims, idx) == Update(Fill(dims, 0.0), dims, idx, 1.0)
  {
    var u := Update(Fill(dims, 0.0), dims, idx, 1.0);
    forall jdx | ValidIndex(dims, jdx) ensures At(Seed(dims, idx), dims, jdx) == At(u, dims, jdx) {
      SeedAt(dims, idx, jdx);
      UpdateAt(Fill(dims, 0.0), dims, idx, 1.0, jdx);
      FillAt(dims, 0.0, jdx);
    }
    Extensionality(Seed(dims, idx), u, dims);
  }

  /** The part of `make_dual(A)` below the leading indices `prefix` of the full shape `full`. */
  function SeededDuals(a: Tensor<real>, rest: seq<nat>, full: seq<nat>, prefix: seq<nat>): (d: Tensor<Dual<Tensor<real>>>)
    requires HasShape(a, rest)
    ensures HasShape(d, rest)
    decreases |rest|
  {
    if |rest| == 0 then Leaf(Dual(a.x, Seed(full, prefix)))
    else Array(seq(rest[0], i requires 0 <= i < rest[0] => SeededDuals(a.elems[i], rest[1..], full, prefix + [i])))
  }

  lemma {:induction false} SeededDualsAt(a: Tensor<real>, rest: seq<nat>, full: seq<nat>, prefix: seq<nat>, idx: seq<nat>)
    requires HasShape(a, rest) && ValidIndex(rest, idx)
    ensures At(SeededDuals(a, rest, full, prefix), rest, idx) == Dual(At(a, rest, idx), Seed(full, prefix + idx))
    decreases |rest|
  {
    if |rest| == 0 {
      assert prefix + idx == prefix;
    } else {
      ValidIndexTail(rest, idx);
      SeededDualsAt(a.elems[idx[0]], rest[1..], full, prefix + [idx[0]], idx[1..]);
      assert prefix + [idx[0]] + idx[1..] == prefix + idx by {
        assert idx == [idx[0]] + idx[1..];
      }
    }
  }

  /** Every dual number of `arg` carries a gradient of shape `m`. */
  predicate GradientsShaped(arg: Tensor<Dual<Tensor<real>>>, n: seq<nat>, m: seq<nat>)
    requires HasShape(arg, n)
    decreases |n|
  {
    if |n| == 0 then HasShape(arg.x.gradient, m)
    else forall i :: 0 <= i < n[0] ==> GradientsShaped(arg.elems[i], n[1..], m)
  }

  lemma {:induction false} SeededDualsShaped(a: Tensor<real>, rest: seq<nat>, full: seq<nat>, prefix: seq<nat>)
    requires HasShape(a, rest)
    ensures GradientsShaped(SeededDuals(a, rest, full, prefix), rest, full)
    decreases |rest|
  {
    if |rest| > 0 {
      forall i | 0 <= i < rest[0] ensures GradientsShaped(SeededDuals(a, rest, full, prefix).elems[i], rest[1..], full) {
        SeededDualsShaped(a.elems[i], rest[1..], full, prefix + [i]);
      }
    }
  }

  /** `get_value`: the tensor of values. */
  function Values<G>(arg: Tensor<Dual<G>>, dims: seq<nat>): (v: Tensor<real>)
    requires HasShape(arg, dims)
    ensures HasShape(v, dims)
  {
    Map(arg, dims, (e: Dual<G>) => e.value)
  }

  /** `get_gradient` of a tensor of `dual<double>`: the tensor of the scalar gradients. */
  function ScalarGradients(arg: Tensor<Dual<real>>, dims: seq<nat>): (g: Tensor<real>)
    requires HasShape(arg, dims)
    ensures HasShape(g, dims)
  {
    Map(arg, dims, (e: Dual<real>) => e.gradient)
  }

  /**
   * `get_gradient` of a `tensor<dual<tensor<double, m...>>, n...>`: the tensor of shape `n... m...`
   * whose sub-tensor at `i...` is the gradient of entry `i...`.
   */
  function StackedGradients(arg: Tensor<Dual<Tensor<real>>>, n: seq<nat>, m: seq<nat>): (g: Tensor<real>)
    requires HasShape(arg, n) && GradientsShaped(arg, n, m)
    ensures HasShape(g, n + m)
    decreases |n|
  {
    if |n| == 0 then
      assert n + m == m;
      arg.x.gradient
    else
      assert (n + m)[1..] == n[1..] + m && (n + m)[0] == n[0];
      Array(seq(n[0], i requires 0 <= i < n[0] => StackedGradients(arg.elems[i], n[1..], m)))
  }

  /** `get_gradient(double)` and `get_gradient(tensor<double, n...>)`: a plain value has a zero derivative. */
  function ConstantGradient<T>(arg: T): (g: Operand)
    ensures forall dims :: Fits(g, dims) && Densify(g, dims) == Fill(dims, 0.0)
  {
    Zero
  }

  // ---------------------------------------------------------------------------------------------
  // The loops of the source.
  // ---------------------------------------------------------------------------------------------

  /** `make_dual(A)`: `A_dual(i...).value = A(i...)` and `A_dual(i...).gradient(i...) = 1.0`. */
  method MakeDual(a: Tensor<real>, dims: seq<nat>) returns (d: Tensor<Dual<Tensor<real>>>)
    requires HasShape(a, dims)
    ensures d == SeededDuals(a, dims, dims, [])
    ensures HasShape(d, dims)
    ensures forall idx :: ValidIndex(dims, idx) ==>
      At(d, dims, idx).value == At(a, dims, idx) && HasShape(At(d, dims, idx).gradient, dims)
    ensures forall idx, jdx :: ValidIndex(dims, idx) && ValidIndex(dims, jdx) ==>
      At(At(d, dims, idx).gradient, dims, jdx) == if jdx == idx then 1.0 else 0.0
  {
    assert dims[..0] == [] && dims[0..] == dims;
    d := MakeDualFrom(a, dims, dims, []);
    forall idx | ValidIndex(dims, idx)
      ensures At(d, dims, idx) == Dual(At(a, dims, idx), Seed(dims, idx))
    {
      SeededDualsAt(a, dims, dims, [], idx);
      assert [] + idx == idx;
    }
    forall idx, jdx | ValidIndex(dims, idx) && ValidIndex(dims, jdx)
      ensures At(At(d, dims, idx).gradient, dims, jdx) == if jdx == idx then 1.0 else 0.0
    {
      SeedAt(dims, idx, jdx);
    }
  }

  /** The loops of `make_dual` below the leading indices `prefix` of the full shape `full`. */
  method MakeDualFrom(a: Tensor<real>, rest: seq<nat>, full: seq<nat>, prefix: seq<nat>)
    returns (d: Tensor<Dual<Tensor<real>>>)
    requires HasShape(a, rest)
    requires |prefix| <= |full| && full[|prefix|..] == rest && ValidIndex(full[..|prefix|], prefix)
    ensures d == SeededDuals(a, rest, full, prefix)
    decreases |rest|
  {
    if |rest| == 0 {
      assert full[..|prefix|] == full;
      var gradient := Fill(full, 0.0);
      gradient := Update(gradient, full, prefix, 1.0);
      SeedIsUpdate(full, prefix);
      return Leaf(Dual(a.x, gradient));
    }
    var elems: seq<Tensor<Dual<Tensor<real>>>> := [];
    for i := 0 to rest[0]
      invariant |elems| == i
      invariant forall k :: 0 <= k < i ==> elems[k] == SeededDuals(a.elems[k], rest[1..], full, prefix + [k])
    {
      var next := prefix + [i];
      assert full[|next|..] == rest[1..];
      assert ValidIndex(full[..|next|], next) by {
        assert full[|prefix|] == rest[0];
        forall k | 0 <= k < |next| ensures next[k] < full[..|next|][k] {
          if k < |prefix| {
            assert next[k] == prefix[k] && full[..|next|][k] == full[..|prefix|][k];
          }
        }
      }
      var sub := MakeDualFrom(a.elems[i], rest[1..], full, next);
      elems := elems + [sub];
    }
    d := Array(elems);
  }

  /** `get_value(arg)`: `value(i...) = arg(i...).value`. */
  method GetValue<G>(arg: Tensor<Dual<G>>, dims: seq<nat>) returns (value: Tensor<real>)
    requires HasShape(arg, dims)
    ensures value == Values(arg, dims)
    decreases |dims|
  {
    if |dims| == 0 {
      return Leaf(arg.x.value);
    }
    var elems: seq<Tensor<real>> := [];
    for i := 0 to dims[0]
      invariant |elems| == i
      invariant forall k :: 0 <= k < i ==> elems[k] == Values(arg.elems[k], dims[1..])
    {
      var sub := GetValue(arg.elems[i], dims[1..]);
      elems := elems + [sub];
    }
    value := Array(elems);
  }

  /** `get_gradient(arg)` of a tensor of `dual<double>`: `g(i...) = arg(i...).gradient`. */
  method GetScalarGradient(arg: Tensor<Dual<real>>, dims: seq<nat>) returns (g: Tensor<real>)
    requires HasShape(arg, dims)
    ensures g == ScalarGradients(arg, dims)
    decreases |dims|
  {
    if |dims| == 0 {
      return Leaf(arg.x.gradient);
    }
    var elems: seq<Tensor<real>> := [];
    for i := 0 to dims[0]
      invariant |elems| == i
      invariant forall k :: 0 <= k < i ==> elems[k] == ScalarGradients(arg.elems[k], dims[1..])
    {
      var sub := GetScalarGradient(arg.elems[i], dims[1..]);
      elems := elems + [sub];
    }
    g := Array(elems);
  }

  /** `get_gradient(arg)` of a tensor of `dual<tensor<double, m...>>`: `g(i...) = arg(i...).gradient`. */
  method GetTensorGradient(arg: Tensor<Dual<Tensor<real>>>, n: seq<nat>, m: seq<nat>) returns (g: Tensor<real>)
    requires HasShape(arg, n) && GradientsShaped(arg, n, m)
    ensures g == StackedGradients(arg, n, m)
    decreases |n|
  {
    if |n| == 0 {
      return arg.x.gradient;
    }
    var elems: seq<Tensor<real>> := [];
    for i := 0 to n[0]
      invariant |elems| == i
      invariant forall k :: 0 <= k < i ==> elems[k] == StackedGradients(arg.elems[k], n[1..], m)
    {
      var sub := GetTensorGradient(arg.elems[i], n[1..], m);
      elems := elems + [sub];
    }
    g := Array(elems);
  }

  // ---------------------------------------------------------------------------------------------
  // What they mean.
  // ---------------------------------------------------------------------------------------------

  /** Entry `i + j` of the stacked gradient is entry `j` of the gradient of entry `i`. */
  lemma {:induction false} StackedGradientsAt(arg: Tensor<Dual<Tensor<real>>>, n: seq<nat>, m: seq<nat>, i: seq<nat>, j: seq<nat>)
    requires HasShape(arg, n) && GradientsShaped(arg, n, m) && ValidIndex(n, i) && ValidIndex(m, j)
    ensures HasShape(At(arg, n, i).gradient, m) && ValidIndex(n + m, i + j)
    ensures At(StackedGradients(arg, n, m), n + m, i + j) == At(At(arg, n, i).gradient, m, j)
    decreases |n|
  {
    ValidIndexConcat(n, m, i, j);
    if |n| == 0 {
      assert n + m == m && i + j == j;
    } else {
      ValidIndexTail(n, i);
      var i0, rest := i[0], i[1..] + j;
      assert i + j == [i0] + rest by { assert i == [i0] + i[1..]; }
      assert (n + m)[1..] == n[1..] + m;
      StackedGradientsAt(arg.elems[i0], n[1..], m, i[1..], j);
      AtCons(StackedGradients(arg, n, m), n + m, i0, rest);
    }
  }

  /** `get_value(make_dual(A)) == A`. */
  lemma ValuesOfMakeDual(a: Tensor<real>, dims: seq<nat>)
    requires HasShape(a, dims)
    ensures Values(SeededDuals(a, dims, dims, []), dims) == a
  {
    var d := SeededDuals(a, dims, dims, []);
    forall idx | ValidIndex(dims, idx) ensures At(Values(d, dims), dims, idx) == At(a, dims, idx) {
      MapAt(d, dims, (e: Dual<Tensor<real>>) => e.value, idx);
      SeededDualsAt(a, dims, dims, [], idx);
    }
    Extensionality(Values(d, dims), a, dims);
  }

  /**
   * `get_gradient(make_dual(A))` is the identity of order `2d`: its entry at `i... j...` is `1.0`
   * exactly when `i... == j...`.
   */
  lemma GradientOfMakeDual(a: Tensor<real>, dims: seq<nat>, i: seq<nat>, j: seq<nat>)
    requires HasShape(a, dims) && ValidIndex(dims, i) && ValidIndex(dims, j)
    ensures GradientsShaped(SeededDuals(a, dims, dims, []), dims, dims) && ValidIndex(dims + dims, i + j)
    ensures At(StackedGradients(SeededDuals(a, dims, dims, []), dims, dims), dims + dims, i + j)
      == if i == j then 1.0 else 0.0
  {
    var d := SeededDuals(a, dims, dims, []);
    SeededDualsShaped(a, dims, dims, []);
    StackedGradientsAt(d, dims, dims, i, j);
    SeededDualsAt(a, dims, dims, [], i);
    assert [] + i == i;
    SeedAt(dims, i, j);
  }
}
