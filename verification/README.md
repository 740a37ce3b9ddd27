# Kernel PCA: a Dafny model of the embedding engine

This project models the core of the `kernel-pca` Rust crate. That core is the
engine behind `KernelPca::apply`: it turns a data set (a vector of feature
vectors) into a low-dimensional embedding. The scalar type `T` is modelled as
`real`. The floating-point primitives `powf`, `exp` and `sqrt` are fields of a
`Transcendentals` value passed in by the caller, so nothing is assumed about
them.

Modules:

- `Errors` (errors.dfy): the error taxonomy `ComputationFailure | InvalidConfig | InvalidData` and the `Result`/`Option` wrappers.
- `Kernels` (kernel.dfy): the three kernels and `Kernel::compute`.
  - The linear kernel is a fold of products over the zipped vectors.
  - The two distance-based kernels share a fold of squared differences (`SquaredDistance`).
  - Properties proved:
    - The linear kernel is the dot product over the common prefix.
    - Every kernel is symmetric and ignores the tail of the longer vector.
    - The squared distance is non-negative, is zero for agreeing vectors, and bounds every coordinate's squared difference.
- `Pca` (pca.dfy): the engine.
  - `validate` is an early-return method whose three outcomes are characterised exactly.
  - `form_kernel_matrix` writes an `array2` in place: the lower triangle and diagonal are computed, and each off-diagonal value is mirrored.
  - `center_data` accumulates column sums in a mutable `means` array, divides them, and subtracts them. Every centred column sums to zero.
  - `determine_signs` is a scan per column, specified by `SignOf`, the sign of the column's first entry of largest magnitude.
  - The tail of `apply` scales the left singular vectors, signs each column, and reports a missing `u` as a computation failure. Flipping the sign of any column of `u` leaves the embedding unchanged.
- `Util` (util.dfy): `sort_indices_descending`.
  - Modelled as an in-place insertion sort on an array of indices.
  - The result is a permutation of `0..n` whose values do not increase.
  - The documented example `[0.5, 0.3, 0.8, 0.7, 0.4]` → `[2, 3, 0, 4, 1]` is the only possible answer.

Notes on the code:

- Both the linear path and the kernel path end in an SVD (src/lib.rs:51), whose singular values come back already sorted.
- `sort_indices_descending` is unused: both paths take their values from that SVD, so nothing needs ranking. src/util.rs is not even declared as a module (src/lib.rs:1-2). It is modelled on its own.
- `apply` normalises the sign of every output column (src/lib.rs:61, src/lib.rs:64-74, src/lib.rs:147-167). The model proves the determinism that this step is meant to give (`Pca.EmbeddingIgnoresColumnSign`).
- `validate` bounds `embed_dim` by the feature dimension `d` only, not by the number of samples `n` (src/lib.rs:107). The model keeps this check exactly as written.
  - When there are fewer samples than `embed_dim`, the later `rows(0, embed_dim)` at src/lib.rs:52 panics.
  - In the model this is the precondition `config.embedDim <= |sv|` of `Pca.AssembleEmbedding`.

## Model

| member | source | states |
|---|---|---|
| Kernels.Zip | src/kernel.rs:69-71 | zipping yields exactly `min(|a|, |b|)` pairs, pair `i` being `(a[i], b[i])` |
| Kernels.Compute | src/kernel.rs:56-62 | dispatch by variant; for `Linear` the value is the dot product of the two vectors |
| Kernels.ComputeDistanceKernels | src/kernel.rs:76-97 | rational quadratic is `powf(1 + gamma * ssd, -alpha)` and squared exponential is `exp(-gamma * ssd)`, with `ssd` the squared distance |
| Kernels.ComputeLinear | src/kernel.rs:68-73 | `compute_linear(a, b)` equals the reference dot product, the sum of `a[i] * b[i]` over the common prefix (zero for an empty vector); symmetry is `Kernels.ComputeLinearSymmetric` |
| Kernels.FoldProducts | src/kernel.rs:72 | folding products from the left, starting at zero, gives the reference sum of the pairwise products |
| Kernels.FoldProductsSwapped | src/kernel.rs:72 | the product fold is unchanged when each pair's sides are exchanged |
| Kernels.ComputeLinearSymmetric | src/kernel.rs:68-73 | `compute_linear(a, b) == compute_linear(b, a)` |
| Kernels.SquaredDifference | src/kernel.rs:81-82 | one step of the distance fold, `diff * diff`, is never negative |
| Kernels.FoldSquaredDifferences | src/kernel.rs:77-83 | the sum of squared differences is never negative |
| Kernels.SquaredDifferenceSwapped | src/kernel.rs:81-82 | a pair and its swap have the same squared difference |
| Kernels.FoldSquaredDifferencesSwapped | src/kernel.rs:80-83 | the squared-difference fold is unchanged when each pair's sides are exchanged |
| Kernels.SquaredDistance | src/kernel.rs:77-83 | the squared distance `ssd` of two vectors is never negative; symmetry, zero on agreeing vectors and the per-coordinate bound are the lemmas below |
| Kernels.ComputeRationalQuadratic | src/kernel.rs:76-85 | the value is `powf(1 + gamma * ssd, -alpha)` of the distance taken in the other order, so it is symmetric; a point against itself gives `powf(1, -alpha)` |
| Kernels.RationalQuadraticOf | src/kernel.rs:84 | at squared distance zero the value is `powf(1, -alpha)` |
| Kernels.ComputeSquaredExponential | src/kernel.rs:88-97 | the value is `exp(-gamma * ssd)` of the distance taken in the other order, so it is symmetric; a point against itself gives `exp(0)` |
| Kernels.SquaredExponentialOf | src/kernel.rs:96 | at squared distance zero the value is `exp(0)` |
| Kernels.SquaredDistanceSymmetric | src/kernel.rs:77-83 | the squared distance is symmetric in `a` and `b` |
| Kernels.FoldSquaredDifferencesOfEqualPairs | src/kernel.rs:80-83 | the fold is zero when every pair has equal sides |
| Kernels.SquaredDistanceOfAgreeing | src/kernel.rs:89-95 | vectors that agree on their common prefix (in particular `a == b`) are at squared distance zero |
| Kernels.FoldSquaredDifferencesDominates | src/kernel.rs:80-83 | the fold is at least the squared difference of each of its pairs |
| Kernels.SquaredDistanceDominates | src/kernel.rs:77-83 | the squared distance is at least `(a[k] - b[k])^2` for every common position `k` |
| Kernels.ComputeSymmetric | src/kernel.rs:56-97 | `compute(a, b) == compute(b, a)` for every variant, with `powf`/`exp` uninterpreted |
| Kernels.ComputeTruncates | src/kernel.rs:69-71 | every variant ignores the entries beyond the shorter vector's length |
| Pca.WellShaped | src/lib.rs:92-103 | data that passes the shape checks has at least one row, and every row has the same, positive, length |
| Pca.KernelPca.Validate | src/lib.rs:91-111 | InvalidData iff the data is empty, has an empty first row, or has a row of another length; InvalidConfig iff the data is well shaped and `embed_dim == 0` or `embed_dim > dim`; Ok iff well shaped and `1 <= embed_dim <= dim` |
| Pca.KernelPca.FormKernelMatrix | src/lib.rs:77-89 | a fresh n×n matrix, symmetric, with `k[i, j] == compute(x[i], x[j])` at every position |
| Pca.KernelPca.FillRow | src/lib.rs:80-87 | one outer iteration fills row `i` left of and on the diagonal and mirrors it, keeping earlier rows; no other entry changes, row `i` right of the diagonal and column `i` below it included |
| Pca.KernelPca.MirrorRow | src/lib.rs:81-85 | the inner loop writes each kernel value left of the diagonal to both mirror positions; no other entry changes, the diagonal and row `i` right of it included |
| Pca.KernelPca.LowerRowsFilledIsFull | src/lib.rs:77-89 | a filled, mirrored lower triangle holds every pairwise kernel value, by kernel symmetry |
| Pca.ColumnSumIsSum | src/lib.rs:127-132 | the accumulated `means[j]` after `r` rows is the reference sum of column `j` over those rows |
| Pca.ColumnMean | src/lib.rs:133-135 | `n` times the mean of column `j` is the column sum |
| Pca.CenterData | src/lib.rs:124-145 | an n×dim result with entry `(i, j) == x[i][j] - (sum over r of x[r][j]) / n` |
| Pca.ShiftedColumnSum | src/lib.rs:136-144 | subtracting `m` from the first `r` entries of a column lowers its sum by `r * m` |
| Pca.CenteredColumnsSumToZero | src/lib.rs:124-145 | every column of the centred data sums to zero |
| Pca.Abs | src/lib.rs:152 | a magnitude is non-negative and zero only for zero |
| Pca.Column | src/lib.rs:148 | column `c` has one entry per row, entry `i` being `m[i][c]` |
| Pca.FirstMaxAbsIndex | src/lib.rs:151-160 | the scan that moves only on a strictly larger magnitude finds the first position of largest magnitude |
| Pca.SignOf | src/lib.rs:161-165 | a column's sign is +1 or -1 |
| Pca.ColumnSign | src/lib.rs:149-166 | the scan over `max_abs_elem` and `flip` yields exactly `SignOf` of the column |
| Pca.FirstMaxAbsUnique | src/lib.rs:151-160 | there is only one first position of largest magnitude |
| Pca.SignOfFirstMax | src/lib.rs:147-167 | a column's sign is -1 exactly when its first entry of largest magnitude is negative, +1 otherwise |
| Pca.ZeroColumnSign | src/lib.rs:149-165 | an all-zero or empty column gets sign +1 |
| Pca.SignOfNegated | src/lib.rs:147-167 | negating a column with a nonzero entry negates its sign |
| Pca.OrientedColumnSign | src/lib.rs:147-167 | a column multiplied by its own sign has sign +1, so signing is idempotent |
| Pca.DetermineSigns | src/lib.rs:147-167 | exactly `dim` signs, entry `c` being `SignOf` of column `c` |
| Pca.Scales | src/lib.rs:52-57 | one scale per kept component: the singular value for the linear kernel, its square root otherwise |
| Pca.Embed | src/lib.rs:62-63 | the first `embed_dim` columns of `u` times the diagonal of the scales, entry by entry |
| Pca.ApplySigns | src/lib.rs:64-74 | signing keeps the number of rows and the length of each row |
| Pca.ApplySignsAt | src/lib.rs:64-74 | entry `(i, j)` of the signed embedding is `val * signs[j]` |
| Pca.ApplySignsEntries | src/lib.rs:64-74 | with signs ±1, column `j` is kept when `signs[j]` is +1 and negated when it is -1, and nothing else changes |
| Pca.ApplySignsInvolution | src/lib.rs:64-74 | applying the same ±1 signs twice gives the embedding back |
| Pca.SignsOf | src/lib.rs:61 | `dim` values, each +1 or -1 |
| Pca.Embedding | src/lib.rs:52-74 | the embedding has one row per row of `u` and `embed_dim` columns |
| Pca.AssembleEmbedding | src/lib.rs:52-74 | ComputationFailure iff the SVD gave no `u`; otherwise Ok with the scaled, signed embedding |
| Pca.NegateColumn | src/lib.rs:147-167 | negating one column keeps the shape of the matrix |
| Pca.NegateColumnSigns | src/lib.rs:147-167 | after negating column `c`, each column and its sign either both stay or are both negated |
| Pca.SignedEntryAgrees | src/lib.rs:62-74 | an entry whose value and sign are both kept or both negated signs to the same value |
| Pca.EmbeddingEntryIgnoresColumnSign | src/lib.rs:52-74 | one entry of the embedding is the same whichever sign the SVD gave column `c` of `u` |
| Pca.EmbeddingIgnoresColumnSign | src/lib.rs:52-74 | the whole embedding is the same whichever sign the SVD gave any column of `u`, kept or not |
| Util.Indices | src/util.rs:11 | `0..n` collected: length `n`, entry `i` equal to `i` |
| Util.SortIndicesDescending | src/util.rs:10-20 | the output has `values.len()` entries, is a permutation of `0..n`, and ranks values non-increasingly (for all earlier/later positions, so also for consecutive ones) |
| Util.Insert | src/util.rs:12-18 | one insertion step keeps the same indices, extends the ranked prefix by one and leaves every entry after position `i` unchanged |
| Util.Swap | src/util.rs:12-18 | exchanging two indices keeps the multiset of indices |
| Util.IndicesOnce | src/util.rs:11 | each of `0..n` occurs once in `0..n`, and nothing else occurs |
| Util.PermutationListsEachIndexOnce | src/util.rs:11-12 | the output lists every index of `0..n` exactly once and no other number |
| Util.PositionsOf | src/util.rs:11-12 | every index of `0..n` has a position in a permutation of the indices |
| Util.DocumentedExample | src/util.rs:4-9 | for `[0.5, 0.3, 0.8, 0.7, 0.4]` the only ranked permutation is `[2, 3, 0, 4, 1]` |

## Left out

- The SVD (src/lib.rs:51) is a black box. `Pca.AssembleEmbedding` takes its singular values and its optional `u` as parameters.
- `center_kernel_matrix` (src/lib.rs:115-121) is not modelled. It is a product `R·K·R` of library matrices. Its `T::from` conversion cannot fail for reals.
- The orchestration at the top of `apply` (src/lib.rs:45-51) is left out: calling `validate`, choosing between `center_data` and the kernel path, and running the SVD. Its pieces are modelled separately.
- `powf`, `exp` and `sqrt` are uninterpreted. No property of them is used, so there are no facts about kernel values beyond the dispatch and symmetry.
- Floating-point rounding, overflow and NaN are not modelled. All arithmetic is over `real`. For example, columns sum to exactly zero only in this abstraction.
- `Pca.CenterData` returns the centred matrix directly, not a `Result`. The `T::from(usize)` conversion at src/lib.rs:126 cannot fail for reals. Its precondition (non-empty, rectangular data) is what `validate` has already established when `apply` calls it.
- `Pca.AssembleEmbedding` requires `embed_dim <= |sv|` and enough columns in `u`. In the source these are panics of `rows(0, embed_dim)` and `columns(0, embed_dim)`, not error values.
- The message strings of src/error.rs are dropped, as are the trivial constructors `new`, `linear`, `rational_quadratic` and `squared_exponential`.
- `Kernels.SquaredDistanceOfAgreeing` gives only one direction: agreeing vectors are at distance zero. The converse (distance zero implies agreement) follows from `Kernels.SquaredDistanceDominates` only with the fact that a real whose square is zero is zero. The solver does not establish that fact here, so the converse is not stated.
- `Util.SortIndicesDescending` orders equal values stably, keeping the earlier index first. The comparator of src/util.rs:12-18 is not a total order on ties, so the source's order of equal values is unspecified (and the standard library's sort may reject such a comparator). The contract therefore says nothing about ties beyond the ranking.
- The scalar type `usize` is modelled by `nat`, without its upper bound.
