/**
 * The `zero` sentinel of `tensor.hpp`: a value that stands for an identically zero operand of any shape
 * and lets the operators skip work. `zero` converts to `0.0` and to `tensor<T, n...>{}`; `+` and `-`
 * return the other operand (negated where it is subtracted), and `*`, `/`, `dot`, `outer` and
 * `chain_rule` with a `zero` operand return `zero`. Each shortcut is proved sound: converting the
 * result to a dense value gives what the dense operator computes on the converted operands.
 */
module ZeroSentinel {
  import opened Tensors
  import opened Elementwise
  import opened Matrices
  import opened Contractions

  /** An operand that is either `zero` or a dense value; a `double` is a dense value of rank 0. */
  datatype Operand = Zero | Dense(t: Tensor<real>)

  /** `x` can stand where a value of shape `dims` is expected; `zero` converts to every shape. */
  predicate Fits(x: Operand, dims: seq<nat>) {
    x.Zero? || HasShape(x.t, dims)
  }

  /** `operator double()` and `operator tensor<T, n...>()`: `zero` becomes `0.0` or `tensor<T, n...>{}`. */
  function Densify(x: Operand, dims: seq<nat>): (t: Tensor<real>)
    requires Fits(x, dims)
    ensures HasShape(t, dims)
  {
    if x.Zero? then Fill(dims, 0.0) else x.t
  }

  /** `operator+`: `zero + zero`, `zero + B`, `A + zero` and the dense sum. */
  function Plus(x: Operand, y: Operand, dims: seq<nat>): (r: Operand)
    requires Fits(x, dims) && Fits(y, dims)
    ensures Fits(r, dims)
  {
    if x.Zero? then y
    else if y.Zero? then x
    else Dense(Sum(x.t, y.t, dims))
  }

  /** Unary `operator-`: `-zero` is `zero`. */
  function Negative(x: Operand, dims: seq<nat>): (r: Operand)
    requires Fits(x, dims)
    ensures Fits(r, dims)
  {
    if x.Zero? then Zero else Dense(Negated(x.t, dims))
  }

  /** `operator-`: `zero - zero` is `zero`, `zero - B` is `-B`, `A - zero` is `A`. */
  function Minus(x: Operand, y: Operand, dims: seq<nat>): (r: Operand)
    requires Fits(x, dims) && Fits(y, dims)
    ensures Fits(r, dims)
  {
    if x.Zero? && y.Zero? then Zero
    else if x.Zero? then Negative(y, dims)
    else if y.Zero? then x
    else Dense(Difference(x.t, y.t, dims))
  }

  /** `s * B` for a scalar `s`: `zero` on either side gives `zero`. */
  function TimesLeft(s: Operand, y: Operand, dims: seq<nat>): (r: Operand)
    requires Fits(s, []) && Fits(y, dims)
    ensures Fits(r, dims)
  {
    if s.Zero? || y.Zero? then Zero else Dense(ScaledLeft(s.t.x, y.t, dims))
  }

  /** `A * s` for a scalar `s`: `zero` on either side gives `zero`. */
  function TimesRight(x: Operand, dims: seq<nat>, s: Operand): (r: Operand)
    requires Fits(x, dims) && Fits(s, [])
    ensures Fits(r, dims)
  {
    if x.Zero? || s.Zero? then Zero else Dense(ScaledRight(x.t, dims, s.t.x))
  }

  /** `A / s`: `zero / s` is `zero` whatever `s` is; a dense `A` needs `s != 0`. */
  function Divide(x: Operand, dims: seq<nat>, s: real): (r: Operand)
    requires Fits(x, dims) && (x.Dense? ==> s != 0.0)
    ensures Fits(r, dims)
  {
    if x.Zero? then Zero else Dense(Quotient(x.t, dims, s))
  }

  /**
   * `operator+=`: `zero += zero` is `zero`, `A += zero` leaves `A`, `A += B` is the dense sum. There is no
   * overload adding a tensor into `zero`.
   */
  function PlusAssign(x: Operand, y: Operand, dims: seq<nat>): (r: Operand)
    requires Fits(x, dims) && Fits(y, dims) && (x.Zero? ==> y.Zero?)
    ensures Fits(r, dims)
  {
    if y.Zero? then x else Dense(Sum(x.t, y.t, dims))
  }

  /** `operator-=`, with the same cases as `operator+=`. */
  function MinusAssign(x: Operand, y: Operand, dims: seq<nat>): (r: Operand)
    requires Fits(x, dims) && Fits(y, dims) && (x.Zero? ==> y.Zero?)
    ensures Fits(r, dims)
  {
    if y.Zero? then x else Dense(Difference(x.t, y.t, dims))
  }

  /** `dot(A, zero)` and `dot(zero, B)` are `zero`; otherwise the dense `dot`. */
  function DotOperands(x: Operand, lead: seq<nat>, k: nat, y: Operand, rest: seq<nat>): (r: Operand)
    requires Fits(x, lead + [k]) && Fits(y, [k] + rest)
    ensures Fits(r, lead + rest)
  {
    if x.Zero? || y.Zero? then Zero else Dense(TensorDot(x.t, lead, k, y.t, rest))
  }

  /** `outer(zero, B)` and `outer(A, zero)` are `zero`; otherwise the dense `outer`. */
  function OuterOperands(x: Operand, da: seq<nat>, y: Operand, db: seq<nat>): (r: Operand)
    requires Fits(x, da) && Fits(y, db)
    ensures Fits(r, da + db)
  {
    if x.Zero? || y.Zero? then Zero else Dense(OuterProduct(x.t, da, y.t, db))
  }

  /**
   * `chain_rule(df_dx, dx)`: `zero` when either argument is `zero`; otherwise `df_dx` (shape `lead + trail`)
   * contracted over all indices of `dx` (shape `trail`). The overloads are the cases of `lead` and `trail`:
   * both empty for `double * double`, `trail` empty for a tensor times a `double`, `lead` empty for the
   * inner product of same-shape tensors, and `lead` of length one or two for the vector- and
   * matrix-valued overloads.
   */
  function ChainRule(df_dx: Operand, lead: seq<nat>, dx: Operand, trail: seq<nat>): (r: Operand)
    requires Fits(df_dx, lead + trail) && Fits(dx, trail)
    ensures Fits(r, lead)
  {
    if df_dx.Zero? || dx.Zero? then Zero else Dense(ContractTrailing(df_dx.t, lead, trail, dx.t))
  }

  // ---------------------------------------------------------------------------------------------
  // Dense operators with an all-zero operand.
  // ---------------------------------------------------------------------------------------------

  lemma DifferenceZeroRight(a: Tensor<real>, dims: seq<nat>)
    requires HasShape(a, dims)
    ensures Difference(a, Fill(dims, 0.0), dims) == a
  {
    var d := Difference(a, Fill(dims, 0.0), dims);
    forall idx | ValidIndex(dims, idx) ensures At(d, dims, idx) == At(a, dims, idx) {
      DifferenceAt(a, Fill(dims, 0.0), dims, idx);
      FillAt(dims, 0.0, idx);
    }
    Extensionality(d, a, dims);
  }

  lemma DifferenceZeroLeft(b: Tensor<real>, dims: seq<nat>)
    requires HasShape(b, dims)
    ensures Difference(Fill(dims, 0.0), b, dims) == Negated(b, dims)
  {
    var d := Difference(Fill(dims, 0.0), b, dims);
    forall idx | ValidIndex(dims, idx) ensures At(d, dims, idx) == At(Negated(b, dims), dims, idx) {
      DifferenceAt(Fill(dims, 0.0), b, dims, idx);
      NegatedAt(b, dims, idx);
      FillAt(dims, 0.0, idx);
    }
    Extensionality(d, Negated(b, dims), dims);
  }

  lemma NegatedZero(dims: seq<nat>)
    ensures Negated(Fill(dims, 0.0), dims) == Fill(dims, 0.0)
  {
    var n := Negated(Fill(dims, 0.0), dims);
    forall idx | ValidIndex(dims, idx) ensures At(n, dims, idx) == At(Fill(dims, 0.0), dims, idx) {
      NegatedAt(Fill(dims, 0.0), dims, idx);
      FillAt(dims, 0.0, idx);
    }
    Extensionality(n, Fill(dims, 0.0), dims);
  }

  /** `s * 0 == 0` and `0 * B == 0` entrywise. */
  lemma ScaledLeftZero(s: real, b: Tensor<real>, dims: seq<nat>)
    requires HasShape(b, dims)
    ensures ScaledLeft(s, Fill(dims, 0.0), dims) == Fill(dims, 0.0)
    ensures ScaledLeft(0.0, b, dims) == Fill(dims, 0.0)
  {
    var z := Fill(dims, 0.0);
    forall idx | ValidIndex(dims, idx)
      ensures At(ScaledLeft(s, z, dims), dims, idx) == At(z, dims, idx)
      ensures At(ScaledLeft(0.0, b, dims), dims, idx) == At(z, dims, idx)
    {
      ScaledLeftAt(s, z, dims, idx);
      ScaledLeftAt(0.0, b, dims, idx);
      FillAt(dims, 0.0, idx);
    }
    Extensionality(ScaledLeft(s, z, dims), z, dims);
    Extensionality(ScaledLeft(0.0, b, dims), z, dims);
  }

  lemma ScaledRightZero(a: Tensor<real>, dims: seq<nat>, s: real)
    requires HasShape(a, dims)
    ensures ScaledRight(Fill(dims, 0.0), dims, s) == Fill(dims, 0.0)
    ensures ScaledRight(a, dims, 0.0) == Fill(dims, 0.0)
  {
    ScaledLeftIsScaledRight(s, Fill(dims, 0.0), dims);
    ScaledLeftIsScaledRight(0.0, a, dims);
    ScaledLeftZero(s, a, dims);
  }

  lemma QuotientZero(dims: seq<nat>, s: real)
    requires s != 0.0
    ensures Quotient(Fill(dims, 0.0), dims, s) == Fill(dims, 0.0)
  {
    var q := Quotient(Fill(dims, 0.0), dims, s);
    forall idx | ValidIndex(dims, idx) ensures At(q, dims, idx) == At(Fill(dims, 0.0), dims, idx) {
      QuotientAt(Fill(dims, 0.0), dims, s, idx);
      FillAt(dims, 0.0, idx);
    }
    Extensionality(q, Fill(dims, 0.0), dims);
  }

  lemma LeadingDotZeroLeft(u: Vec, b: Tensor<real>, rest: seq<nat>)
    requires HasShape(b, [|u|] + rest) && forall j :: 0 <= j < |u| ==> u[j] == 0.0
    ensures LeadingDot(u, b, rest) == Fill(rest, 0.0)
  {
    var d := LeadingDot(u, b, rest);
    forall idx | ValidIndex(rest, idx) ensures At(d, rest, idx) == At(Fill(rest, 0.0), rest, idx) {
      LeadingDotAt(u, b, rest, idx);
      DotZerosLeft(u, Fiber(b, |u|, rest, idx));
      FillAt(rest, 0.0, idx);
    }
    Extensionality(d, Fill(rest, 0.0), rest);
  }

  lemma LeadingDotZeroRight(u: Vec, rest: seq<nat>)
    ensures LeadingDot(u, Fill([|u|] + rest, 0.0), rest) == Fill(rest, 0.0)
  {
    var b := Fill([|u|] + rest, 0.0);
    var d := LeadingDot(u, b, rest);
    forall idx | ValidIndex(rest, idx) ensures At(d, rest, idx) == At(Fill(rest, 0.0), rest, idx) {
      LeadingDotAt(u, b, rest, idx);
      var f := Fiber(b, |u|, rest, idx);
      forall j | 0 <= j < |u| ensures f[j] == 0.0 {
        assert ([|u|] + rest)[1..] == rest;
        FillAt(rest, 0.0, idx);
      }
      DotCommutes(u, f);
      DotZerosLeft(f, u);
      FillAt(rest, 0.0, idx);
    }
    Extensionality(d, Fill(rest, 0.0), rest);
  }

  lemma {:induction false} TensorDotZeroLeft(lead: seq<nat>, k: nat, b: Tensor<real>, rest: seq<nat>)
    requires HasShape(b, [k] + rest)
    ensures TensorDot(Fill(lead + [k], 0.0), lead, k, b, rest) == Fill(lead + rest, 0.0)
    decreases |lead|
  {
    if |lead| == 0 {
      assert lead + [k] == [k] && lead + rest == rest;
      var u := ToVec(Fill([k], 0.0), k);
      forall j | 0 <= j < k ensures u[j] == 0.0 {
        FillAt([k], 0.0, [j]);
      }
      LeadingDotZeroLeft(u, b, rest);
    } else {
      assert (lead + [k])[1..] == lead[1..] + [k] && (lead + rest)[1..] == lead[1..] + rest;
      forall i | 0 <= i < lead[0] ensures TensorDot(Fill(lead + [k], 0.0), lead, k, b, rest).elems[i] == Fill(lead + rest, 0.0).elems[i] {
        TensorDotZeroLeft(lead[1..], k, b, rest);
      }
    }
  }

  lemma {:induction false} TensorDotZeroRight(a: Tensor<real>, lead: seq<nat>, k: nat, rest: seq<nat>)
    requires HasShape(a, lead + [k])
    ensures TensorDot(a, lead, k, Fill([k] + rest, 0.0), rest) == Fill(lead + rest, 0.0)
    decreases |lead|
  {
    if |lead| == 0 {
      assert lead + [k] == [k] && lead + rest == rest;
      LeadingDotZeroRight(ToVec(a, k), rest);
    } else {
      assert (lead + [k])[1..] == lead[1..] + [k] && (lead + rest)[1..] == lead[1..] + rest;
      forall i | 0 <= i < lead[0] ensures TensorDot(a, lead, k, Fill([k] + rest, 0.0), rest).elems[i] == Fill(lead + rest, 0.0).elems[i] {
        TensorDotZeroRight(a.elems[i], lead[1..], k, rest);
      }
    }
  }

  lemma OuterProductZero(a: Tensor<real>, da: seq<nat>, b: Tensor<real>, db: seq<nat>)
    requires HasShape(a, da) && HasShape(b, db)
    ensures OuterProduct(Fill(da, 0.0), da, b, db) == Fill(da + db, 0.0)
    ensures OuterProduct(a, da, Fill(db, 0.0), db) == Fill(da + db, 0.0)
  {
    var z := Fill(da + db, 0.0);
    var l := OuterProduct(Fill(da, 0.0), da, b, db);
    forall idx | ValidIndex(da + db, idx) ensures At(l, da + db, idx) == At(z, da + db, idx) {
      ValidIndexSplit(da, db, idx);
      var i, j := idx[..|da|], idx[|da|..];
      OuterProductAt(Fill(da, 0.0), da, b, db, i, j);
      FillAt(da, 0.0, i);
      FillAt(da + db, 0.0, idx);
    }
    Extensionality(l, z, da + db);
    var r := OuterProduct(a, da, Fill(db, 0.0), db);
    forall idx | ValidIndex(da + db, idx) ensures At(r, da + db, idx) == At(z, da + db, idx) {
      ValidIndexSplit(da, db, idx);
      var i, j := idx[..|da|], idx[|da|..];
      OuterProductAt(a, da, Fill(db, 0.0), db, i, j);
      FillAt(db, 0.0, j);
      FillAt(da + db, 0.0, idx);
    }
    Extensionality(r, z, da + db);
  }

  lemma ContractTrailingZero(a: Tensor<real>, lead: seq<nat>, trail: seq<nat>, b: Tensor<real>)
    requires HasShape(a, lead + trail) && HasShape(b, trail)
    ensures ContractTrailing(Fill(lead + trail, 0.0), lead, trail, b) == Fill(lead, 0.0)
    ensures ContractTrailing(a, lead, trail, Fill(trail, 0.0)) == Fill(lead, 0.0)
  {
    var z := Fill(lead, 0.0);
    var l := ContractTrailing(Fill(lead + trail, 0.0), lead, trail, b);
    var r := ContractTrailing(a, lead, trail, Fill(trail, 0.0));
    forall idx | ValidIndex(lead, idx)
      ensures At(l, lead, idx) == At(z, lead, idx) && At(r, lead, idx) == At(z, lead, idx)
    {
      ContractTrailingAt(Fill(lead + trail, 0.0), lead, trail, b, idx);
      ContractTrailingAt(a, lead, trail, Fill(trail, 0.0), idx);
      SliceFill(lead, trail, 0.0, idx);
      InnerCommutes(Fill(trail, 0.0), b, trail);
      InnerZeroRight(b, trail);
      InnerZeroRight(Slice(a, lead, trail, idx), trail);
      FillAt(lead, 0.0, idx);
    }
    Extensionality(l, z, lead);
    Extensionality(r, z, lead);
  }

  // ---------------------------------------------------------------------------------------------
  // Soundness of the shortcuts: converting to dense values commutes with every operator.
  // ---------------------------------------------------------------------------------------------

  /** `zero + B == B`, `A + zero == A`: the sentinel behaves as the zero tensor under `+`. */
  lemma PlusSound(x: Operand, y: Operand, dims: seq<nat>)
    requires Fits(x, dims) && Fits(y, dims)
    ensures Densify(Plus(x, y, dims), dims) == Sum(Densify(x, dims), Densify(y, dims), dims)
  {
    var a, b := Densify(x, dims), Densify(y, dims);
    if x.Zero? {
      SumCommutes(a, b, dims);
      SumZero(b, dims);
    } else if y.Zero? {
      SumZero(a, dims);
    }
  }

  /** `-zero == zero`. */
  lemma NegativeSound(x: Operand, dims: seq<nat>)
    requires Fits(x, dims)
    ensures Densify(Negative(x, dims), dims) == Negated(Densify(x, dims), dims)
  {
    if x.Zero? {
      NegatedZero(dims);
    }
  }

  /** `zero - B == -B`, `A - zero == A`. */
  lemma MinusSound(x: Operand, y: Operand, dims: seq<nat>)
    requires Fits(x, dims) && Fits(y, dims)
    ensures Densify(Minus(x, y, dims), dims) == Difference(Densify(x, dims), Densify(y, dims), dims)
  {
    var a, b := Densify(x, dims), Densify(y, dims);
    if x.Zero? {
      DifferenceZeroLeft(b, dims);
      NegativeSound(y, dims);
      if y.Zero? {
        NegatedZero(dims);
      }
    } else if y.Zero? {
      DifferenceZeroRight(a, dims);
    }
  }

  /** `zero * B == zero` and `s * zero == zero`. */
  lemma TimesLeftSound(s: Operand, y: Operand, dims: seq<nat>)
    requires Fits(s, []) && Fits(y, dims)
    ensures Densify(TimesLeft(s, y, dims), dims) == ScaledLeft(Densify(s, []).x, Densify(y, dims), dims)
  {
    ScaledLeftZero(Densify(s, []).x, Densify(y, dims), dims);
  }

  /** `zero * s == zero` and `A * zero == zero`. */
  lemma TimesRightSound(x: Operand, dims: seq<nat>, s: Operand)
    requires Fits(x, dims) && Fits(s, [])
    ensures Densify(TimesRight(x, dims, s), dims) == ScaledRight(Densify(x, dims), dims, Densify(s, []).x)
  {
    ScaledRightZero(Densify(x, dims), dims, Densify(s, []).x);
  }

  /** `zero / s == zero`, which for `s != 0` is the dense quotient. */
  lemma DivideSound(x: Operand, dims: seq<nat>, s: real)
    requires Fits(x, dims) && s != 0.0
    ensures Densify(Divide(x, dims, s), dims) == Quotient(Densify(x, dims), dims, s)
  {
    if x.Zero? {
      QuotientZero(dims, s);
    }
  }

  /** `A += zero` leaves `A` unchanged; `A += B` is `A + B`. */
  lemma PlusAssignSound(x: Operand, y: Operand, dims: seq<nat>)
    requires Fits(x, dims) && Fits(y, dims) && (x.Zero? ==> y.Zero?)
    ensures y.Zero? ==> PlusAssign(x, y, dims) == x
    ensures Densify(PlusAssign(x, y, dims), dims) == Sum(Densify(x, dims), Densify(y, dims), dims)
  {
    SumZero(Densify(x, dims), dims);
  }

  /** `A -= zero` leaves `A` unchanged; `A -= B` is `A - B`. */
  lemma MinusAssignSound(x: Operand, y: Operand, dims: seq<nat>)
    requires Fits(x, dims) && Fits(y, dims) && (x.Zero? ==> y.Zero?)
    ensures y.Zero? ==> MinusAssign(x, y, dims) == x
    ensures Densify(MinusAssign(x, y, dims), dims) == Difference(Densify(x, dims), Densify(y, dims), dims)
  {
    DifferenceZeroRight(Densify(x, dims), dims);
  }

  /** `dot` with `zero` on either side is the dense `dot` with the zero tensor. */
  lemma DotSound(x: Operand, lead: seq<nat>, k: nat, y: Operand, rest: seq<nat>)
    requires Fits(x, lead + [k]) && Fits(y, [k] + rest)
    ensures Densify(DotOperands(x, lead, k, y, rest), lead + rest)
      == TensorDot(Densify(x, lead + [k]), lead, k, Densify(y, [k] + rest), rest)
  {
    if x.Zero? {
      TensorDotZeroLeft(lead, k, Densify(y, [k] + rest), rest);
    } else if y.Zero? {
      TensorDotZeroRight(x.t, lead, k, rest);
    }
  }

  /** `outer` with `zero` on either side is the dense `outer` with the zero tensor. */
  lemma OuterSound(x: Operand, da: seq<nat>, y: Operand, db: seq<nat>)
    requires Fits(x, da) && Fits(y, db)
    ensures Densify(OuterOperands(x, da, y, db), da + db) == OuterProduct(Densify(x, da), da, Densify(y, db), db)
  {
    OuterProductZero(Densify(x, da), da, Densify(y, db), db);
  }

  /** The `zero` overloads of `chain_rule` agree with contracting the zero tensor. */
  lemma ChainRuleSound(df_dx: Operand, lead: seq<nat>, dx: Operand, trail: seq<nat>)
    requires Fits(df_dx, lead + trail) && Fits(dx, trail)
    ensures Densify(ChainRule(df_dx, lead, dx, trail), lead)
      == ContractTrailing(Densify(df_dx, lead + trail), lead, trail, Densify(dx, trail))
  {
    ContractTrailingZero(Densify(df_dx, lead + trail), lead, trail, Densify(dx, trail));
  }

  // ---------------------------------------------------------------------------------------------
  // The dense overloads of `chain_rule`.
  // ---------------------------------------------------------------------------------------------

  /** For a scalar function of a scalar, the chain rule is multiplication. */
  lemma ChainRuleScalars(df_dx: real, dx: real)
    ensures ChainRule(Dense(Leaf(df_dx)), [], Dense(Leaf(dx)), []) == Dense(Leaf(df_dx * dx))
  {
    var none: seq<nat> := [];
    assert none + none == none;
    ContractTrailingLeaf(Leaf(df_dx), none, Leaf(dx));
    assert Inner(Leaf(df_dx), Leaf(dx), none) == df_dx * dx;
  }

  /** For a tensor-valued function of a scalar, the chain rule is `df_dx * dx`. */
  lemma {:induction false} ChainRuleScaling(df_dx: Tensor<real>, dims: seq<nat>, dx: real)
    requires HasShape(df_dx, dims)
    ensures dims + [] == dims
    ensures ChainRule(Dense(df_dx), dims, Dense(Leaf(dx)), []) == Dense(ScaledRight(df_dx, dims, dx))
  {
    assert dims + [] == dims;
    var c := ContractTrailing(df_dx, dims, [], Leaf(dx));
    forall idx | ValidIndex(dims, idx) ensures At(c, dims, idx) == At(ScaledRight(df_dx, dims, dx), dims, idx) {
      ContractTrailingAt(df_dx, dims, [], Leaf(dx), idx);
      SliceAt(df_dx, dims, [], idx, []);
      assert idx + [] == idx;
      ScaledRightAt(df_dx, dims, dx, idx);
    }
    Extensionality(c, ScaledRight(df_dx, dims, dx), dims);
  }

  /** For a scalar function of a tensor, the chain rule is the inner product over all indices. */
  lemma ChainRuleSameShape(df_dx: Tensor<real>, dx: Tensor<real>, dims: seq<nat>)
    requires HasShape(df_dx, dims) && HasShape(dx, dims)
    ensures [] + dims == dims
    ensures ChainRule(Dense(df_dx), [], Dense(dx), dims) == Dense(Leaf(Inner(df_dx, dx, dims)))
  {
    ContractTrailingLeaf(df_dx, dims, dx);
  }

  /** For a higher-rank `df_dx`, entry `i...` is `chain_rule(df_dx[i...], dx)`. */
  lemma ChainRuleLeading(df_dx: Tensor<real>, lead: seq<nat>, dx: Tensor<real>, trail: seq<nat>, idx: seq<nat>)
    requires HasShape(df_dx, lead + trail) && HasShape(dx, trail) && ValidIndex(lead, idx)
    ensures ChainRule(Dense(df_dx), lead, Dense(dx), trail).Dense?
    ensures At(ChainRule(Dense(df_dx), lead, Dense(dx), trail).t, lead, idx)
      == Inner(Slice(df_dx, lead, trail, idx), dx, trail)
  {
    ContractTrailingAt(df_dx, lead, trail, dx, idx);
  }
}
