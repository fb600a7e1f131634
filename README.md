# serac tensor algebra and boundary-condition bookkeeping, in Dafny

This project models two parts of serac, a finite element code for nonlinear solid mechanics and heat transfer.

The first part is the fixed-shape tensor library of `tensor.hpp`. It covers:

- the `zero` sentinel and how the arithmetic, `dot`, `outer` and `chain_rule` operators treat it;
- the elementwise operators and compound assignments;
- `make_tensor`, `outer`, `inner`, `dot` and `ddot` in all their overloads;
- `tr`, `sym`, `antisym`, `dev`, `transpose`, `DenseIdentity` and the 2-by-2 and 3-by-3 `det`;
- `is_symmetric` and `is_symmetric_and_positive_definite`;
- the closed-form 2-by-2 and 3-by-3 `inv`;
- Gaussian elimination with partial pivoting in `linear_solve` and the n-by-n `inv`;
- the dual-number entry points `make_dual`, `get_value`, `get_gradient` and `inv` of a dual matrix;
- every `chain_rule` overload.

The second part is the bookkeeping in `boundary_condition_manager.hpp`: the lazy `FilterView`, and the `BoundaryConditionManager` lists of boundary conditions with their cached degree-of-freedom lists.

Tensors come in two forms:

- `Tensors.Tensor<T>` is a leaf or an array of sub-tensors, checked against a shape `dims` (`tensor<T, m, n...>` holds `m` tensors of shape `n...`). The rank-generic operations use it.
- `Matrices.Vec` (`seq<real>`) and `Matrices.Mat` (`seq<seq<real>>`) serve the rank-1 and rank-2 linear algebra.

`FromVec`, `FromMat`, `ToVec` and `ToMat` convert between the two, with round-trip lemmas. Bridge lemmas show that the rank-specific dots agree with the rank-generic contraction.

Arithmetic is exact over `real`. Where the source fills a result with `for` loops and running sums, the model is a method with loops. Each such method is proved equal to a specification function, and the algebra is proved about those functions.

Elimination needs only that the matrix is nonsingular, meaning no nonzero vector is sent to zero. From that the model proves that every pivot the search picks is nonzero, that `A . x == b`, and that `A . inv(A) == inv(A) . A == I`.

A `FilterView` is a position range over a sequence that it never changes. Its iterator is a class with a cursor field. A range-`for` over the view visits exactly the elements that satisfy the predicate, in order.

`BoundaryConditionManager` is a class with three lists of boundary conditions and two cached degree-of-freedom lists behind a validity flag. The finite element library decides which degrees of freedom a condition constrains. Here that is a pair of functions the manager is given.

Some cases where the code and its documentation differ:

- `linear_solve` declares `b` as `const`, yet swaps and updates its entries (`tensor.hpp:1126`, `1149`, `1156`, `1165`). The model works on a mutable copy, as the code evidently intends.
- The n-by-n `inv` takes `const tensor& A` and swaps and updates its rows (`tensor.hpp:1219`, `1243`, `1248`). The model works on a copy of `A`.
- `operator/(S scale, tensor A)` declares its result with shape `n...`, dropping the leading extent `m` (`tensor.hpp:474`). The model keeps the shape of `A`, as the loop over `m` evidently intends.
- The documentation of `is_symmetric_and_positive_definite` promises a positive-definiteness test. The code compares with `< 0.0`, so it accepts zero leading minors. The model follows the code, and the gap is listed under Findings.

## Model

| member | source | states |
|---|---|---|
| Tensors.AtCons | src/serac/numerics/functional/tensor.hpp:32-35 | indexing `A(i, j...)` is indexing `A[i]` by `j...` |
| Tensors.FillAt | src/serac/numerics/functional/tensor.hpp:238-242 | every entry of a tensor filled with `v` (the value-initialised `tensor_with_shape`) is `v` |
| Tensors.UpdateAt | src/serac/numerics/functional/tensor.hpp:26-41 | assigning through `A(idx...)` changes the entry at `idx` and no other entry |
| Tensors.Extensionality | src/serac/numerics/functional/tensor.hpp:26-59 | two tensors of one shape with equal entries at every index are equal |
| Tensors.GenerateAt | src/serac/numerics/functional/tensor.hpp:298-309 | the nested fill of `make_tensor` puts `f(prefix + idx)` at every index `idx` |
| Tensors.MakeTensor | src/serac/numerics/functional/tensor.hpp:255-370 | `make_tensor<n...>(f)` has shape `n...` and holds `f(i...)` at every index `i...`; stated for every rank, while the source has ranks 0 to 4 |
| Tensors.ToScalar | src/serac/numerics/functional/tensor.hpp:52-56 | the conversion of a `tensor<T, 1>` to `T` yields its only entry |
| Tensors.FromVecToVec | src/serac/numerics/functional/tensor.hpp:69-70 | a rank-1 tensor rebuilt from its entries is the same tensor |
| Tensors.ToVecFromVec | src/serac/numerics/functional/tensor.hpp:69-70 | the tensor deduced from a one-dimensional array gives back that array's entries |
| Tensors.ToMatFromMat | src/serac/numerics/functional/tensor.hpp:80-81 | the tensor deduced from a two-dimensional array gives back that array's rows |
| Tensors.FromMatToMat | src/serac/numerics/functional/tensor.hpp:80-81 | a rank-2 tensor rebuilt from its rows is the same tensor |
| Elementwise.Add | src/serac/numerics/functional/tensor.hpp:380-388 | `A + B` is the entrywise sum of two same-shape tensors |
| Elementwise.Negate | src/serac/numerics/functional/tensor.hpp:396-404 | `-A` negates every entry |
| Elementwise.Subtract | src/serac/numerics/functional/tensor.hpp:414-422 | `A - B` is the entrywise difference |
| Elementwise.ScaleLeft | src/serac/numerics/functional/tensor.hpp:432-441 | `scale * A` multiplies every entry by `scale` |
| Elementwise.ScaleRight | src/serac/numerics/functional/tensor.hpp:451-460 | `A * scale` multiplies every entry by `scale` on the right |
| Elementwise.DivideLeft | src/serac/numerics/functional/tensor.hpp:470-479 | `scale / A` has `scale / A(i...)` at every index, for a tensor with no zero entry, and keeps the shape of `A`; a zero entry, which gives inf or NaN in the source, is excluded (see Left out) |
| Elementwise.DivideRight | src/serac/numerics/functional/tensor.hpp:489-498 | `A / scale` divides every entry by a nonzero `scale`; `scale == 0`, which gives inf or NaN in the source, is excluded (see Left out) |
| Elementwise.AddAssign | src/serac/numerics/functional/tensor.hpp:508-515 | after `A += B`, `A` is the entrywise sum of the old `A` and `B` |
| Elementwise.SubtractAssign | src/serac/numerics/functional/tensor.hpp:575-582 | after `A -= B`, `A` is the entrywise difference |
| Elementwise.AddAssignScalarVec | src/serac/numerics/functional/tensor.hpp:537-541 | `+=` of a scalar on a `tensor<T, 1>` adds it to the only entry |
| Elementwise.AddAssignScalarMat | src/serac/numerics/functional/tensor.hpp:549-553 | `+=` of a scalar on a `tensor<T, 1, 1>` adds it to the only entry |
| Elementwise.SumAt | src/serac/numerics/functional/tensor.hpp:380-388 | entry `i...` of the sum is `A(i...) + B(i...)` |
| Elementwise.DifferenceAt | src/serac/numerics/functional/tensor.hpp:414-422 | entry `i...` of the difference is `A(i...) - B(i...)` |
| Elementwise.NegatedAt | src/serac/numerics/functional/tensor.hpp:396-404 | entry `i...` of `-A` is `-A(i...)` |
| Elementwise.ScaledLeftAt | src/serac/numerics/functional/tensor.hpp:432-441 | entry `i...` of `s * A` is `s * A(i...)` |
| Elementwise.ScaledRightAt | src/serac/numerics/functional/tensor.hpp:451-460 | entry `i...` of `A * s` is `A(i...) * s` |
| Elementwise.QuotientAt | src/serac/numerics/functional/tensor.hpp:489-498 | entry `i...` of `A / s` is `A(i...) / s` |
| Elementwise.OverAt | src/serac/numerics/functional/tensor.hpp:470-479 | entry `i...` of `s / A` is `s / A(i...)`, with a nonzero divisor |
| Elementwise.SumCommutes | src/serac/numerics/functional/tensor.hpp:380-388 | `A + B == B + A` |
| Elementwise.SumZero | src/serac/numerics/functional/tensor.hpp:380-388 | adding the all-zero tensor leaves `A` unchanged |
| Elementwise.DifferenceThenSum | src/serac/numerics/functional/tensor.hpp:380-422 | `(A - B) + B == A`: subtraction is undone by addition |
| Elementwise.DifferenceIsSumOfNegated | src/serac/numerics/functional/tensor.hpp:396-422 | `A - B == A + (-B)` |
| Elementwise.NegatedTwice | src/serac/numerics/functional/tensor.hpp:396-404 | `-(-A) == A` |
| Elementwise.ScaledLeftIsScaledRight | src/serac/numerics/functional/tensor.hpp:432-460 | `s * A == A * s` |
| Elementwise.QuotientUndoesScaling | src/serac/numerics/functional/tensor.hpp:451-498 | `(A * s) / s == A` for a nonzero `s` |
| Elementwise.OverTimesEntry | src/serac/numerics/functional/tensor.hpp:470-479 | `(s / A)(i...) * A(i...) == s` |
| ZeroSentinel.Densify | src/serac/numerics/functional/tensor.hpp:86-95 | `zero` converts to the all-zero tensor of whatever shape it is used at, and a tensor converts to itself |
| ZeroSentinel.PlusSound | src/serac/numerics/functional/tensor.hpp:123-137 | each `+` overload with `zero` gives what dense addition gives with the zero tensor in its place, so `zero + x == x + zero == x` |
| ZeroSentinel.NegativeSound | src/serac/numerics/functional/tensor.hpp:142 | `-zero` means the negated zero tensor |
| ZeroSentinel.MinusSound | src/serac/numerics/functional/tensor.hpp:145-159 | each `-` overload with `zero` agrees with dense subtraction, so `zero - x == -x` and `x - zero == x` |
| ZeroSentinel.TimesLeftSound | src/serac/numerics/functional/tensor.hpp:164-171 | `zero * x` is `zero`, which agrees with scaling |
| ZeroSentinel.TimesRightSound | src/serac/numerics/functional/tensor.hpp:174-178 | `x * zero` is `zero`, which agrees with scaling |
| ZeroSentinel.DivideSound | src/serac/numerics/functional/tensor.hpp:181-185 | `zero / x` is `zero`, which agrees with division; the divisor is a `real`, and `zero / A` with a tensor `A` is not modelled |
| ZeroSentinel.PlusAssignSound | src/serac/numerics/functional/tensor.hpp:561-565 | `A += zero` leaves `A` unchanged, and every `+=` agrees with dense addition |
| ZeroSentinel.MinusAssignSound | src/serac/numerics/functional/tensor.hpp:590-594 | `A -= zero` leaves `A` unchanged, and every `-=` agrees with dense subtraction |
| ZeroSentinel.DotSound | src/serac/numerics/functional/tensor.hpp:208-219 | `dot` with a `zero` operand is `zero`, which agrees with the dense contraction; the model also defines `dot(zero, zero)`, which is ambiguous in the source |
| ZeroSentinel.OuterSound | src/serac/numerics/functional/tensor.hpp:628-642 | `outer` with a `zero` operand is `zero`, which agrees with the dense outer product; stated for all ranks, while the source has rank 0 and 1 operands only |
| ZeroSentinel.ChainRuleSound | src/serac/numerics/functional/tensor.hpp:1483-1503 | `chain_rule` with a `zero` argument is `zero`, which agrees with the dense contraction; stated for every leading rank, while the source has leading ranks 0 to 2 |
| ZeroSentinel.ChainRuleScalars | src/serac/numerics/functional/tensor.hpp:1509 | `chain_rule(double, double)` is the product |
| ZeroSentinel.ChainRuleScaling | src/serac/numerics/functional/tensor.hpp:1515-1519 | `chain_rule(tensor, double)` scales the tensor |
| ZeroSentinel.ChainRuleSameShape | src/serac/numerics/functional/tensor.hpp:1525-1531 | `chain_rule` of two same-shape tensors is their full inner product |
| ZeroSentinel.ChainRuleLeading | src/serac/numerics/functional/tensor.hpp:1537-1561 | for a higher-rank `df_dx`, entry `i...` of the result is the inner product of `df_dx[i...]` with `dx` |
| ZeroSentinel.DifferenceZeroLeft | src/serac/numerics/functional/tensor.hpp:148-152 | the zero tensor minus `B` is `-B` |
| ZeroSentinel.ScaledLeftZero | src/serac/numerics/functional/tensor.hpp:164-171 | scaling the zero tensor, or scaling by zero, gives the zero tensor |
| ZeroSentinel.TensorDotZeroLeft | src/serac/numerics/functional/tensor.hpp:215-219 | contracting the zero tensor with any tensor gives the zero tensor |
| ZeroSentinel.TensorDotZeroRight | src/serac/numerics/functional/tensor.hpp:208-212 | contracting any tensor with the zero tensor gives the zero tensor |
| ZeroSentinel.OuterProductZero | src/serac/numerics/functional/tensor.hpp:628-642 | the outer product with a zero tensor on either side is the zero tensor |
| ZeroSentinel.ContractTrailingZero | src/serac/numerics/functional/tensor.hpp:1489-1503 | contracting trailing indices with a zero tensor on either side gives the zero tensor |
| Contractions.AccumulateInner | src/serac/numerics/functional/tensor.hpp:915-921 | the nested loop adds the entrywise inner product of `A` and `B` to the running total |
| Contractions.SqNorm | src/serac/numerics/functional/tensor.hpp:915-921 | `sqnorm(A)` is the inner product of `A` with itself; it is nonnegative, and zero exactly for the zero tensor |
| Contractions.ChainRuleInner | src/serac/numerics/functional/tensor.hpp:1525-1531 | the loop of `chain_rule` for same-shape tensors sums `df_dx(i...) * dx(i...)` |
| Contractions.ChainRuleVector | src/serac/numerics/functional/tensor.hpp:1537-1545 | `chain_rule` with one leading index contracts the trailing indices with `dx` |
| Contractions.ChainRuleMatrix | src/serac/numerics/functional/tensor.hpp:1551-1561 | `chain_rule` with two leading indices contracts the trailing indices with `dx` |
| Contractions.DotEntry | src/serac/numerics/functional/tensor.hpp:787-799 | the innermost loop of `dot(rank-3, vector)` is the inner product over the last index |
| Contractions.DdotEntry | src/serac/numerics/functional/tensor.hpp:828-842 | the two innermost loops of `ddot` are the inner product over the last two indices |
| Contractions.DotTensor3Vec | src/serac/numerics/functional/tensor.hpp:787-799 | `dot(tensor<m, n, p>, tensor<p>)` contracts the last index |
| Contractions.Ddot42 | src/serac/numerics/functional/tensor.hpp:828-842 | `ddot(tensor<m, n, p, q>, tensor<p, q>)` contracts the last two indices |
| Contractions.Ddot32 | src/serac/numerics/functional/tensor.hpp:848-860 | `ddot(tensor<m, n, p>, tensor<n, p>)` contracts the last two indices |
| Contractions.DotVecTensor | src/serac/numerics/functional/tensor.hpp:737-765 | `dot(vector, rank-3 or rank-4 tensor)` contracts the first index |
| Contractions.ContractTrailingAt | src/serac/numerics/functional/tensor.hpp:787-860 | entry `i...` of a trailing contraction is the inner product of the slice `A[i...]` with `B` |
| Contractions.LeadingDotAt | src/serac/numerics/functional/tensor.hpp:721-765 | entry `j...` of a leading contraction is the dot of `u` with the fibre `B[:, j...]` |
| Contractions.InnerCommutes | src/serac/numerics/functional/tensor.hpp:669-679 | the inner product is symmetric |
| Contractions.InnerScaled | src/serac/numerics/functional/tensor.hpp:669-679 | the inner product is linear under scaling |
| Contractions.InnerSum | src/serac/numerics/functional/tensor.hpp:669-679 | the inner product distributes over addition |
| Contractions.InnerSelfNonnegative | src/serac/numerics/functional/tensor.hpp:891-921 | a tensor's inner product with itself is nonnegative |
| Contractions.InnerSelfZero | src/serac/numerics/functional/tensor.hpp:891-921 | a tensor whose inner product with itself is zero is the zero tensor |
| Contractions.InnerVec | src/serac/numerics/functional/tensor.hpp:707-715 | the rank-generic inner product of two vectors is their dot product |
| Contractions.InnerMat | src/serac/numerics/functional/tensor.hpp:866-876 | the rank-generic inner product of two matrices is their double contraction |
| Contractions.ContractMatVec | src/serac/numerics/functional/tensor.hpp:771-781 | contracting the last index of a matrix with a vector is the matrix-vector product |
| Contractions.LeadingDotVecMat | src/serac/numerics/functional/tensor.hpp:721-731 | contracting the first index of a matrix with a vector is the vector-matrix product |
| Contractions.TensorDotVector | src/serac/numerics/functional/tensor.hpp:771-799 | a general `dot` with a vector on the right is a trailing contraction |
| Contractions.TensorDotLeading | src/serac/numerics/functional/tensor.hpp:721-765 | a general `dot` with a vector on the left is a leading contraction |
| Contractions.OuterProductAt | src/serac/numerics/functional/tensor.hpp:648-658 | entry `(i..., j...)` of `outer(A, B)` is `A(i...) * B(j...)` |
| Contractions.OuterProductVectors | src/serac/numerics/functional/tensor.hpp:648-658 | the outer product of two vectors is the matrix `u[i] * v[j]` |
| Contractions.OuterProductScalarRight | src/serac/numerics/functional/tensor.hpp:614-622 | `outer(A, double)` scales the vector |
| Contractions.SliceAt | src/serac/numerics/functional/tensor.hpp:26-41 | entry `j...` of the slice `A[i...]` is `A(i..., j...)` |
| MatrixOps.DotVV | src/serac/numerics/functional/tensor.hpp:707-715 | `dot(u, v)` is the sum of `u[i] * v[i]` |
| MatrixOps.DotMV | src/serac/numerics/functional/tensor.hpp:771-781 | `dot(A, v)[i]` is the dot of row `i` of `A` with `v` |
| MatrixOps.DotVM | src/serac/numerics/functional/tensor.hpp:721-731 | `dot(u, A)[j]` is the dot of `u` with column `j` of `A` |
| MatrixOps.DotMM | src/serac/numerics/functional/tensor.hpp:689-701 | `dot(A, B)[i][j]` is the sum over `k` of `A[i][k] * B[k][j]` |
| MatrixOps.DotVMV | src/serac/numerics/functional/tensor.hpp:805-815 | `dot(u, A, v)` is `u . (A . v)` |
| MatrixOps.OuterVV | src/serac/numerics/functional/tensor.hpp:648-658 | `outer(u, v)[i][j] == u[i] * v[j]` |
| MatrixOps.OuterSV | src/serac/numerics/functional/tensor.hpp:600-608 | `outer(double, v)` scales `v` |
| MatrixOps.OuterVS | src/serac/numerics/functional/tensor.hpp:614-622 | `outer(u, double)` scales `u` |
| MatrixOps.Inner | src/serac/numerics/functional/tensor.hpp:669-679 | `inner(A, B)` sums the entrywise products of two same-shape matrices |
| MatrixOps.DdotMM | src/serac/numerics/functional/tensor.hpp:866-876 | `ddot(A, B)` of two matrices is the same double contraction |
| MatrixOps.SqNormV | src/serac/numerics/functional/tensor.hpp:891-899 | `sqnorm(u)` is `u . u` and nonnegative |
| MatrixOps.SqNormM | src/serac/numerics/functional/tensor.hpp:902-912 | `sqnorm(A)` of a matrix is `A : A` and nonnegative |
| MatrixOps.Tr | src/serac/numerics/functional/tensor.hpp:950-958 | `tr(A)` is the sum of the diagonal |
| MatrixOps.SymOp | src/serac/numerics/functional/tensor.hpp:965-975 | `sym(A)[i][j] == (A[i][j] + A[j][i]) / 2` |
| MatrixOps.AntisymOp | src/serac/numerics/functional/tensor.hpp:982-992 | `antisym(A)[i][j] == (A[i][j] - A[j][i]) / 2` |
| MatrixOps.DevOp | src/serac/numerics/functional/tensor.hpp:1001-1010 | `dev(A)` is `A` with `tr(A) / n` taken off the diagonal |
| MatrixOps.DenseIdentity | src/serac/numerics/functional/tensor.hpp:1016-1026 | `DenseIdentity<dim>()` is one on the diagonal and zero elsewhere |
| MatrixOps.TransposeOp | src/serac/numerics/functional/tensor.hpp:1032-1042 | `transpose(A)[i][j] == A[j][i]` |
| MatrixOps.IsSymmetric | src/serac/numerics/functional/tensor.hpp:1069-1080 | `is_symmetric(A, tolerance)` holds exactly when every pair `A[i][j]`, `A[j][i]` differs by at most `tolerance` |
| MatrixOps.SymmetricWithinZero | src/serac/numerics/functional/tensor.hpp:1069-1080 | with tolerance zero, `is_symmetric` holds exactly when `transpose(A) == A` |
| Matrices.MatMulAssociative | src/serac/numerics/functional/tensor.hpp:689-701 | `dot` of matrices is associative |
| Matrices.MatMulIdentity | src/serac/numerics/functional/tensor.hpp:1016-1026 | `DenseIdentity` is a two-sided unit of `dot` |
| Matrices.MatVecIdentity | src/serac/numerics/functional/tensor.hpp:1016-1026 | `dot(DenseIdentity, v) == v` |
| Matrices.BilinearGrouping | src/serac/numerics/functional/tensor.hpp:805-815 | `u . (A . v) == (u . A) . v` |
| Matrices.VecMatIsTransposedMatVec | src/serac/numerics/functional/tensor.hpp:721-731 | `dot(u, A) == dot(transpose(A), u)` |
| Matrices.TransposeTwice | src/serac/numerics/functional/tensor.hpp:1032-1042 | `transpose(transpose(A)) == A` |
| Matrices.MatMulRow | src/serac/numerics/functional/tensor.hpp:689-731 | row `i` of `dot(A, B)` is `dot(A[i], B)` |
| Matrices.MatMulColumn | src/serac/numerics/functional/tensor.hpp:689-781 | column `j` of `dot(A, B)` is `dot(A, column j of B)` |
| Matrices.OuterMatVec | src/serac/numerics/functional/tensor.hpp:648-658 | `outer(u, v) . w == (v . w) u` |
| Matrices.OuterTranspose | src/serac/numerics/functional/tensor.hpp:1032-1042 | `transpose(outer(u, v)) == outer(v, u)` |
| Matrices.DotCommutes | src/serac/numerics/functional/tensor.hpp:707-715 | `dot(u, v) == dot(v, u)` |
| Matrices.TraceTranspose | src/serac/numerics/functional/tensor.hpp:1032-1042 | `tr(transpose(A)) == tr(A)` |
| Matrices.DevTraceFree | src/serac/numerics/functional/tensor.hpp:1001-1010 | `tr(dev(A)) == 0` for `n >= 1` |
| Matrices.DevPlusSpherical | src/serac/numerics/functional/tensor.hpp:1001-1010 | `dev(A) + (tr(A) / n) I == A` |
| Matrices.SymPlusAntisym | src/serac/numerics/functional/tensor.hpp:965-992 | `sym(A) + antisym(A) == A` |
| Matrices.SymAntisymTranspose | src/serac/numerics/functional/tensor.hpp:965-992 | `sym(A)` is symmetric and `antisym(A)` is skew |
| Matrices.SymIdempotent | src/serac/numerics/functional/tensor.hpp:965-975 | `sym(sym(A)) == sym(A)`, and `sym` fixes a symmetric matrix |
| Matrices.FrobeniusIdentity | src/serac/numerics/functional/tensor.hpp:669-679 | `inner(A, I) == tr(A)` |
| Matrices.FrobeniusSelf | src/serac/numerics/functional/tensor.hpp:902-912 | `A : A >= 0` |
| SmallMatrices.Inv2IsInverse | src/serac/numerics/functional/tensor.hpp:1177-1189 | for `det(A) != 0`, the 2-by-2 `inv(A)` is a two-sided inverse: `dot(A, inv(A)) == dot(inv(A), A) == DenseIdentity<2>()` |
| SmallMatrices.Inv3IsInverse | src/serac/numerics/functional/tensor.hpp:1195-1212 | for `det(A) != 0`, the 3-by-3 `inv(A)` is a two-sided inverse |
| SmallMatrices.AdjugateRight | src/serac/numerics/functional/tensor.hpp:1195-1212 | `A . adj(A) == det(A) I` for the cofactors the 3-by-3 `inv` builds |
| SmallMatrices.AdjugateLeft | src/serac/numerics/functional/tensor.hpp:1195-1212 | `adj(A) . A == det(A) I` |
| SmallMatrices.TripleProduct | src/serac/numerics/functional/tensor.hpp:1054-1059 | the 3-by-3 `det` is the scalar triple product of the rows |
| SmallMatrices.Sylvester2 | src/serac/numerics/functional/tensor.hpp:1090-1102 | for a symmetric 2-by-2 `A`, the test with strict comparisons holds exactly when `A` is positive definite |
| SmallMatrices.Sylvester3 | src/serac/numerics/functional/tensor.hpp:1104-1117 | the same for 3-by-3 matrices, through the leading 2-by-2 block |
| SmallMatrices.SpdStricterThanAsWritten | src/serac/numerics/functional/tensor.hpp:1090-1117 | whatever the strict test accepts, the test as written accepts too |
| SmallMatrices.Spd2AsWrittenAcceptsIndefinite | src/serac/numerics/functional/tensor.hpp:1090-1102 | the 2-by-2 test as written accepts `[[0, 0], [0, -1]]`, which is not positive definite |
| SmallMatrices.Spd3AsWrittenAcceptsIndefinite | src/serac/numerics/functional/tensor.hpp:1104-1117 | the 3-by-3 test as written accepts `diag(0, 0, -1)`, which is not positive definite |
| SmallMatrices.ExactlySymmetric | src/serac/numerics/functional/tensor.hpp:1069-1080 | an exactly symmetric matrix passes `is_symmetric` at the default tolerance `1.0e-8` |
| Elimination.SelectPivot | src/serac/numerics/functional/tensor.hpp:1139-1147 | the pivot search ends at the first row from `i` down with the largest `abs(A[j][i])`, because a later row wins only when strictly larger |
| Elimination.PivotNonzero | src/serac/numerics/functional/tensor.hpp:1139-1158 | in a nonsingular, partly reduced matrix, the largest pivot candidate is nonzero, so the division is defined |
| Elimination.SwapKeepsSolutions | src/serac/numerics/functional/tensor.hpp:1149-1150 | swapping the same rows of `A` and `b` keeps the solutions of `A . x == b` |
| Elimination.AddKeepsSolutions | src/serac/numerics/functional/tensor.hpp:1153-1158 | adding a multiple of one row to another in both `A` and `b` keeps the solutions |
| Elimination.SwapTwice | src/serac/numerics/functional/tensor.hpp:1128-1133 | `swap` applied twice restores the rows |
| Elimination.AddMultipleUndone | src/serac/numerics/functional/tensor.hpp:1153-1158 | a row addition is undone by adding the opposite multiple |
| Elimination.SwapKeepsNonsingular | src/serac/numerics/functional/tensor.hpp:1149-1150 | a row swap keeps the matrix nonsingular |
| Elimination.AddKeepsNonsingular | src/serac/numerics/functional/tensor.hpp:1153-1158 | a row addition keeps the matrix nonsingular |
| Elimination.ZeroColumnSingular | src/serac/numerics/functional/tensor.hpp:1139-1158 | a reduced matrix whose column `i` is zero from row `i` down is singular |
| Elimination.SolvedSystem | src/serac/numerics/functional/tensor.hpp:1162-1167 | an upper-triangular system solved row by row from the bottom satisfies `U . x == y` |
| Elimination.EliminateSystem | src/serac/numerics/functional/tensor.hpp:1137-1159 | the forward sweep keeps the solutions of `A . x == b` and leaves `A` upper triangular with nonzero pivots |
| Elimination.SolveUpper | src/serac/numerics/functional/tensor.hpp:1162-1167 | the backward sweep solves the upper-triangular system |
| Elimination.LinearSolve | src/serac/numerics/functional/tensor.hpp:1125-1170 | for a nonsingular `A`, `linear_solve(A, b)` returns `x` with `dot(A, x) == b` |
| Inverse.EliminateAgainstIdentity | src/serac/numerics/functional/tensor.hpp:1228-1254 | the forward sweep of `inv` on `A` and `B = I` keeps the solutions of every column system and leaves `A` upper triangular |
| Inverse.SolveUpperInPlace | src/serac/numerics/functional/tensor.hpp:1257-1264 | the backward sweep on the rows of `B` solves every column system of the upper-triangular `A` |
| Inverse.InvGeneral | src/serac/numerics/functional/tensor.hpp:1218-1267 | for a nonsingular `A`, `inv(A)` satisfies `dot(A, inv(A)) == dot(inv(A), A) == I` |
| Inverse.MatMulByColumns | src/serac/numerics/functional/tensor.hpp:1257-1264 | a matrix whose columns solve `A . x == b_c` is a solution of `A . X == B` |
| Inverse.RightInverseIsLeftInverse | src/serac/numerics/functional/tensor.hpp:1218-1267 | a right inverse of a nonsingular matrix is also a left inverse |
| Inverse.InverseUnique | src/serac/numerics/functional/tensor.hpp:1218-1267 | a nonsingular matrix has only one right inverse |
| DualInverse.InverseEntry | src/serac/numerics/functional/tensor.hpp:1282-1291 | the double loop for entry `(i, j)` gives value `invA[i][j]` and gradient `-(invA . dA . invA)[i][j]` |
| DualInverse.InverseRow | src/serac/numerics/functional/tensor.hpp:1282-1291 | row `i` of the entries holds values `invA[i][j]` and gradients `-(invA . dA . invA)[i][j]` for every `j` |
| DualInverse.InverseEntries | src/serac/numerics/functional/tensor.hpp:1282-1291 | `make_tensor<n, n>` of the entries holds that value and gradient at every `(i, j)` |
| DualInverse.DualInv | src/serac/numerics/functional/tensor.hpp:1278-1292 | the values of `inv(A)` form a two-sided inverse of the value matrix, and the gradients are `-(W . dA . W)` |
| DualInverse.InverseProductRule | src/serac/numerics/functional/tensor.hpp:1278-1292 | that gradient is the derivative of `A . W == I` and `W . A == I`: both `dA . W + A . dW` and `dW . A + W . dA` vanish |
| DualInverse.LeftInverseNonsingular | src/serac/numerics/functional/tensor.hpp:1177-1212 | a matrix with a left inverse is nonsingular |
| DualInverse.ShortcutAgrees2 | src/serac/numerics/functional/tensor.hpp:1177-1189 | for `n == 2` the inverse computed by elimination is the closed-form 2-by-2 `inv` that the source dispatches to |
| DualInverse.ShortcutAgrees3 | src/serac/numerics/functional/tensor.hpp:1195-1212 | for `n == 3` the inverse computed by elimination is the closed-form 3-by-3 `inv` |
| Duals.SeedAt | src/serac/numerics/functional/tensor.hpp:1372-1381 | the seed gradient for index `i` is one at `i` and zero elsewhere |
| Duals.SeedIsUpdate | src/serac/numerics/functional/tensor.hpp:1372-1381 | the seed is the zero tensor with `1` assigned at `i` |
| Duals.MakeDual | src/serac/numerics/functional/tensor.hpp:1372-1381 | `make_dual(A)` has value `A(i...)` at every index, and its gradient there is one at `i...` and zero elsewhere |
| Duals.GetValue | src/serac/numerics/functional/tensor.hpp:1434-1440 | `get_value` takes the value part of every entry |
| Duals.GetScalarGradient | src/serac/numerics/functional/tensor.hpp:1463-1469 | `get_gradient` of a tensor of scalar duals takes the gradient part of every entry |
| Duals.GetTensorGradient | src/serac/numerics/functional/tensor.hpp:1472-1478 | `get_gradient` of a tensor of tensor-gradient duals stacks the gradients into shape `n..., m...` |
| Duals.ConstantGradient | src/serac/numerics/functional/tensor.hpp:1453-1457 | `get_gradient` of a plain double or tensor is `zero`, which stands for the zero tensor of every shape |
| Duals.StackedGradientsAt | src/serac/numerics/functional/tensor.hpp:1472-1478 | entry `(i..., j...)` of the stacked gradient is entry `j...` of the gradient of entry `i...` |
| Duals.ValuesOfMakeDual | src/serac/numerics/functional/tensor.hpp:1372-1381 | `get_value(make_dual(A)) == A` |
| Duals.GradientOfMakeDual | src/serac/numerics/functional/tensor.hpp:1372-1381 | `get_gradient(make_dual(A))` is the identity of shape `n..., n...` |
| FilterViews.NextSatisfying | src/serac/physics/boundary_conditions/boundary_condition_manager.hpp:48-57 | the next position from `i` that satisfies the predicate, or the end, skipping only failing elements |
| FilterViews.FilteredSkips | src/serac/physics/boundary_conditions/boundary_condition_manager.hpp:98-104 | skipping failing elements loses nothing from what the view yields |
| FilterViews.FilteredMembers | src/serac/physics/boundary_conditions/boundary_condition_manager.hpp:98-125 | an element is yielded exactly when it lies in the range and satisfies the predicate |
| FilterViews.FilteredLength | src/serac/physics/boundary_conditions/boundary_condition_manager.hpp:98-125 | the view yields at most as many elements as the range holds, and all of them when every element passes |
| FilterViews.FilterViewIterator.Increment | src/serac/physics/boundary_conditions/boundary_condition_manager.hpp:48-57 | `operator++` moves at least one step, then on to the next satisfying element, stopping at the end and never beyond it |
| FilterViews.FilterViewIterator.Deref | src/serac/physics/boundary_conditions/boundary_condition_manager.hpp:63-68 | `operator*` yields the container element at the cursor, unchanged, as a copy; the mutable reference is not modelled (see Left out) |
| FilterViews.FilterView.constructor | src/serac/physics/boundary_conditions/boundary_condition_manager.hpp:98-104 | after construction, `begin_` is the first satisfying position at or after `begin`, or `end` when there is none |
| FilterViews.FilterView.Begin | src/serac/physics/boundary_conditions/boundary_condition_manager.hpp:110-115 | `begin()` is an iterator at `begin_` over the same range and predicate |
| FilterViews.FilterView.End | src/serac/physics/boundary_conditions/boundary_condition_manager.hpp:120-125 | `end()` is an iterator with `curr_ == end_` |
| FilterViews.Collect | src/serac/physics/boundary_conditions/boundary_condition_manager.hpp:48-125 | a loop from `begin()` while `!= end()` visits exactly the elements that satisfy the predicate, in order, each once |
| BoundaryConditions.SetTag | src/serac/physics/boundary_conditions/boundary_condition_manager.hpp:217 | `setTag` sets the tag and keeps every other part of the condition |
| BoundaryConditions.SortedDistinct | src/serac/physics/boundary_conditions/boundary_condition_manager.hpp:222-235 | the cached list is strictly increasing and holds exactly the values of the gathered list |
| BoundaryConditions.SortedUnique | src/serac/physics/boundary_conditions/boundary_condition_manager.hpp:222-235 | a sorted, duplicate-free list is fixed by its values, so the cache is determined by the essential conditions alone |
| BoundaryConditions.GatheredMembers | src/serac/physics/boundary_conditions/boundary_condition_manager.hpp:222-243 | the gathered list holds exactly the degrees of freedom some essential condition constrains |
| BoundaryConditions.BoundaryConditionManager.constructor | src/serac/physics/boundary_conditions/boundary_condition_manager.hpp:163 | a new manager has no conditions and an invalid cache |
| BoundaryConditions.BoundaryConditionManager.AddGeneric | src/serac/physics/boundary_conditions/boundary_condition_manager.hpp:212-219 | `addGeneric` appends exactly one condition, tagged with `tag`, to the generic list, leaves the essential and natural lists alone and clears the validity flag |
| BoundaryConditions.BoundaryConditionManager.UpdateAllDofs | src/serac/physics/boundary_conditions/boundary_condition_manager.hpp:300 | refills both caches from the essential conditions, sets the flag and changes no list |
| BoundaryConditions.BoundaryConditionManager.AllEssentialTrueDofs | src/serac/physics/boundary_conditions/boundary_condition_manager.hpp:222-231 | returns the true degrees of freedom of all essential conditions, sorted and without duplicates; it recomputes the cache only when the flag is clear |
| BoundaryConditions.BoundaryConditionManager.AllEssentialLocalDofs | src/serac/physics/boundary_conditions/boundary_condition_manager.hpp:234-243 | the same for the local degrees of freedom |
| BoundaryConditions.BoundaryConditionManager.GenericsWithTag | src/serac/physics/boundary_conditions/boundary_condition_manager.hpp:289-294 | `genericsWithTag(tag)` is a view over the whole generic list that filters by `tagEquals(tag)` |
| BoundaryConditions.BoundaryConditionManager.VisitGenericsWithTag | src/serac/physics/boundary_conditions/boundary_condition_manager.hpp:289-294 | iterating `genericsWithTag(tag)` yields exactly the generic conditions that carry `tag`, in the order they were added |

## Left out

- `norm` and `normalize` (`tensor.hpp:927-943`) need a square root, which exact real arithmetic does not have.
- `chop` (`tensor.hpp:1340-1365`) sets to zero the entries whose square is below `1.0e-20`, a floating-point clean-up; it has no meaning over exact reals.
- Floating point in general: every `double` is an exact `real`. Rounding, infinities and NaN from a singular `inv` are not modelled; the model requires a nonzero determinant or a nonsingular matrix instead.
- Elementwise.DivideLeft: requires every entry of `A` to be nonzero. For a zero entry the source's `operator/(scale, A)` (`tensor.hpp:470-479`) computes `scale / 0.0`, an infinity or NaN, which the model does not have.
- Elementwise.DivideRight: requires `scale != 0`. For `scale == 0` the source's `operator/(A, scale)` (`tensor.hpp:489-498`) gives infinities or NaN, which the model does not have.
- ZeroSentinel.Divide: requires a nonzero divisor when the dividend is dense, for the same reason. `zero / s` is `zero` for every `s`, as in the source. The model has no `zero / A` with a dense tensor `A`: its divisor is a `real`.
- `operator<<` and `print` (`tensor.hpp:1302-1334`) are output.
- The `operator*` alias for `dot` (`tensor.hpp:881-885`) only forwards to `dot`, which is modelled.
- The `outer_prod` trait structs (`tensor.hpp:1386-1428`) only compute result types.
- The `operator+=(tensor<T>&, const T&)` overload inside `#if 0` (`tensor.hpp:517-529`) is not compiled.
- `linear_solve` and the n-by-n `inv` over dual or other non-`double` element types: only `real` entries are modelled.
- DualInverse.DualInv: the gradient type is a single real, one directional derivative; a gradient with several components is that, component by component. For `n == 2` and `n == 3` the source dispatches `inv(get_value(A))` to the closed forms; the model calls elimination for every `n`, and `ShortcutAgrees2` and `ShortcutAgrees3` show that the two agree.
- `dual.hpp` and `isotropic_tensor.hpp` are not part of this model; a dual number is the datatype `Dual(value, gradient)`.
- Elementwise operations on tensors of two different element types `S` and `T` are modelled with both types `real`.
- `addEssential` and `addNatural` (`boundary_condition_manager.hpp:173-199`) have no bodies in the header, so they are not modelled.
- `eliminateAllEssentialDofsFromMatrix` (`boundary_condition_manager.hpp:252-255`) is a call into the Hypre library.
- The constructor reads `num_attrs_` from the mesh's boundary attributes; here it is a parameter.
- FilterViews.FilterViewIterator.Deref: returns a copy of the element. The source's non-const `operator*` (`boundary_condition_manager.hpp:68`) returns a mutable reference into `other_bdr_`, so a loop `for (auto& bc : genericsWithTag(t))` can change a generic condition in place. That write-through is not modelled. The view holds a value copy of the generic list taken when `genericsWithTag` is called, so the model also does not capture that a later `addGeneric` (`emplace_back`) can invalidate the source view's live `std::vector` iterators.
- ZeroSentinel.OuterOperands, ZeroSentinel.ChainRule and Tensors.MakeTensor are defined for any ranks. The source has `outer` only for pairs of rank 0 and 1 (`tensor.hpp:600-658`), `chain_rule` only for leading ranks 0 to 2 (`tensor.hpp:1509-1561`) and `make_tensor` only for ranks 0 to 4 (`tensor.hpp:255-370`). The model's results for those ranks agree with the source; the extra ranks are a generalisation.
- ZeroSentinel.DotOperands is defined for two `zero` operands. In the source, `dot(zero, zero)` matches both templates at `tensor.hpp:207-219`, so the call is ambiguous and does not compile.
- The mutable accessors `essentials()`, `naturals()` and `generics()` (`boundary_condition_manager.hpp:260-281`) let callers change the lists without clearing the flag; they are not modelled.
- `boundary_condition.hpp` is not part of this model. A boundary condition is a record of attributes, coefficient, component, space and tag. A tag is the integer value of its enumerator. Which degrees of freedom a condition constrains is a function given to the manager, standing for the finite element library.
- BoundaryConditions.BoundaryConditionManager.UpdateAllDofs: its body is not in the header. It is modelled by its documented result, the sorted, duplicate-free degrees of freedom of all essential conditions.
- The `static_assert` that a tag is an enumeration is a compile-time check with no run-time behaviour.

## Findings

| source | as written | input that shows it | evidently intended | confidence | as-written member | corrected member |
|---|---|---|---|---|---|---|
| src/serac/numerics/functional/tensor.hpp:1090-1102 | the 2-by-2 `is_symmetric_and_positive_definite` rejects only `A(0, 0) < 0` and `det(A) < 0`, so it accepts zero leading minors | `[[0, 0], [0, -1]]` passes, yet `x = (0, 1)` gives `x . A . x = -1` | strict `> 0` tests on both leading minors (Sylvester's criterion), which hold exactly for symmetric positive definite matrices | not executed | SmallMatrices.Spd2AsWrittenAcceptsIndefinite | SmallMatrices.Sylvester2 |
| src/serac/numerics/functional/tensor.hpp:1104-1117 | the 3-by-3 overload rejects only `det(A) < 0` and then applies the 2-by-2 test to the leading block | `diag(0, 0, -1)` passes, yet `x = (0, 0, 1)` gives `x . A . x = -1` | strict `> 0` tests on all three leading minors | not executed | SmallMatrices.Spd3AsWrittenAcceptsIndefinite | SmallMatrices.Sylvester3 |
