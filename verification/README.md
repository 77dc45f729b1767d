# Sparse attention normalisers of PLADIS, in Dafny

PLADIS replaces the softmax of a cross-attention layer with a sparse
normaliser and extrapolates from the dense attention result towards the
sparse one. This project models the two normalisers of `pladis_utils.py`
on one row of scores, in exact real arithmetic, and proves what they
compute:

- **sparsemax**: subtract the row maximum, sort the row in descending
  order (or take its top `k` entries), count the ranks `r` with
  `r * z_r > (z_1 + ... + z_r) - 1`, take the threshold
  `tau = (z_1 + ... + z_s - 1) / s` at the support size `s`, and output
  `max(x - tau, 0)`;
- **1.5-entmax**: subtract the row maximum and halve the row, give each
  rank a candidate threshold `mean - sqrt(max(delta, 0))` from the running
  mean and running mean of squares, count the ranks whose candidate is at
  most the sorted entry, take the candidate at the last of them, and output
  `max(x - tau, 0) ** 2`;
- the top-`k` search of both, which solves again with `2k` when the support
  fills the window;
- the name-based choice between the two, the blend
  `dense + scale * (sparse - dense)`, and the axis permutation of
  `_roll_last`.

Modules:

- `Rows` (`rows.dfy`): rows as `seq<real>`, sums, maximum, stabilisation,
  running sums, rank rows, counting, the clamped margin, and the
  whole-number multiple `Times(n, v)` that stands for `n * v` wherever `n`
  is a rank or a support size.
- `Sorting` (`sorting.dfy`): a descending insertion sort, its uniqueness
  (ties cannot change the sorted row), `topk` as the first `k` of the sort.
- `Sparsemax` (`sparsemax.dfy`): the sparsemax threshold search and output.
- `Entmax` (`entmax.dfy`): the 1.5-entmax threshold search and output. The
  square root is a parameter `sqrt` constrained by `IsSqrt` (nonnegative,
  and squares back to its argument on nonnegative reals).
- `Attention` (`attention.dfy`): activation choice by name and the blend.
- `Axes` (`axes.dfy`): the `_roll_last` permutation, as written and
  corrected.

The key step for 1.5-entmax: with `z` sorted in descending order, the
candidate at rank `r` is at most `z_r` exactly when the squared deviations
`(z_1 - z_r)^2 + ... + (z_r - z_r)^2` are at most one. Those deviations only
grow with `r`, so the passing ranks form a prefix. At the support size `s`
the squared deviations from the threshold itself are exactly one, which is
why the output sums to one.

## Model

| member | source | states |
|---|---|---|
| Rows.Stabilize | pladis_utils.py:69-70 | every entry has the row maximum subtracted, and the largest entry of the result is exactly 0 |
| Rows.StabilizeShift | pladis_utils.py:80-81 | adding one constant to the whole row does not change the stabilised row |
| Rows.Ranks | pladis_utils.py:145-150 | the rank row has length `d`, entry `i` is `i + 1`, and every entry is at least 1, so no running mean or threshold divides by less than 1 |
| Rows.Cumsum | pladis_utils.py:96 | entry `i` of the running sum is the sum of the first `i + 1` entries |
| Rows.CountPrefixClosed | pladis_utils.py:129 | for a mask whose true entries form a prefix, entry `i` is true exactly when `i` is below the mask's count |
| Rows.Margin | pladis_utils.py:85 | the clamped margin is nonnegative and positive exactly where the entry exceeds the threshold |
| Rows.MarginSumPerm | pladis_utils.py:85 | reordering a row does not change the sum of its clamped margin |
| Sorting.SortDesc | pladis_utils.py:121 | the sort is descending and holds the same multiset of values as its input |
| Sorting.SortedUnique | pladis_utils.py:121 | two descending rows with the same values are equal, so tie order does not matter |
| Sorting.TopK | pladis_utils.py:123 | the window is `k` entries of the row (a sub-multiset), descending, and each is at least every entry of the row left out of it |
| Sorting.Candidates | pladis_utils.py:120-123 | the full sort when `k` is absent or at least the row length, else the first `k` entries of the sort |
| Sparsemax.SupportTestProduct | pladis_utils.py:125-127 | rank `i + 1` passes exactly when `(i + 1) * z_i` exceeds the sum of the first `i + 1` sorted entries minus one |
| Sparsemax.RankOnePasses | pladis_utils.py:125-129 | rank 1 always passes, since `z_1 > z_1 - 1` |
| Sparsemax.Solve | pladis_utils.py:129-131 | the support size is the number of passing ranks and lies between 1 and the number of candidates |
| Sparsemax.SolveBalance | pladis_utils.py:125-131 | the support size times the threshold is the sum of the top `size` sorted entries minus one |
| Sparsemax.SupportIsPrefix | pladis_utils.py:125-130 | on a descending row the test passes for ranks `1..size` and fails for every later rank, so the gather at `size - 1` reads the boundary rank |
| Sparsemax.ThresholdSeparates | pladis_utils.py:125-131 | exactly the first `size` sorted entries lie strictly above the threshold |
| Sparsemax.SolveWindow | pladis_utils.py:133-140 | when the support in the first `k` sorted entries is smaller than `k`, the window's threshold and size equal the full sort's |
| Sparsemax.ThresholdAndSupport | pladis_utils.py:119-142 | for every `k`, including after the re-solve with `2k` when the window fills, the support size lies in `1..d`; the recursion terminates because the window grows until it covers the row |
| Sparsemax.TopKAgrees | pladis_utils.py:119-142 | with any `k`, the doubling search terminates and returns the full-sort threshold and support size |
| Sparsemax.Sparsemax | pladis_utils.py:79-86 | the output has the row's length, is nonnegative, and is positive exactly where the stabilised entry exceeds the threshold |
| Sparsemax.SumsToOne | pladis_utils.py:79-86 | the output sums to one |
| Sparsemax.SupportIsTopEntries | pladis_utils.py:79-86 | an output is nonzero exactly when its stabilised entry reaches the boundary entry of the sorted support |
| Sparsemax.ShiftInvariant | pladis_utils.py:80-81 | adding one constant to every entry leaves the output unchanged |
| Sparsemax.TopKOutputAgrees | pladis_utils.py:83 | the output with a top-`k` window equals the output of the full sort |
| Sparsemax.UniformRow | pladis_utils.py:79-86 | a row of equal entries gets `1/d` everywhere |
| Entmax.CandidateTestAlgebra | pladis_utils.py:96-104 | for an entry at most the running mean, the candidate threshold is at most the entry exactly when the expanded squared deviations from it are at most one, and then `delta >= 0` |
| Entmax.CandidateBalanceAlgebra | pladis_utils.py:96-102 | when `delta >= 0`, the expanded squared deviations from the candidate itself are exactly one |
| Entmax.SqDevExpand | pladis_utils.py:96-98 | the squared deviations of a row from `v` are determined by its length, its sum and its sum of squares, as `mean` and `mean_sq` use them |
| Entmax.SqDevAntitone | pladis_utils.py:104 | lowering the centre below entries that all lie above it never decreases their squared deviations |
| Entmax.ThresholdAt | pladis_utils.py:95-102 | the candidate at rank `i + 1` is computed from the first `i + 1` sorted entries alone |
| Entmax.SupportTest | pladis_utils.py:104 | rank `i + 1` passes exactly when the first `i + 1` entries deviate from `z_i` by at most one in squares, and then `delta >= 0` there |
| Entmax.RankOnePasses | pladis_utils.py:95-104 | rank 1 always passes (its candidate is `z_1 - 1`) |
| Entmax.Solve | pladis_utils.py:104-105 | the support size is the number of passing ranks, between 1 and the number of candidates |
| Entmax.SolveBalance | pladis_utils.py:101-105 | the top `size` sorted entries deviate from the gathered threshold by exactly one in squares |
| Entmax.SupportIsPrefix | pladis_utils.py:104 | on a descending row the test passes for ranks `1..size` and fails for every later rank |
| Entmax.ThresholdSeparates | pladis_utils.py:104-105 | exactly the first `size` sorted entries lie on or above the threshold |
| Entmax.BoundaryMeetsThreshold | pladis_utils.py:96-105 | on the sorted row `[1, 0]` both ranks pass the support test and the threshold is exactly 0, so an entry counted in the support can meet the threshold |
| Entmax.SolveWindow | pladis_utils.py:107-114 | when the support in the first `k` sorted entries is smaller than `k`, the window's threshold and size equal the full sort's |
| Entmax.ThresholdAndSupport | pladis_utils.py:89-116 | for every `k`, including after the re-solve with `2k` when the window fills, the support size lies in `1..d`; the recursion terminates because the window grows until it covers the row |
| Entmax.TopKAgrees | pladis_utils.py:89-116 | with any `k`, the doubling search terminates and returns the full-sort threshold and support size |
| Entmax.SqMargin | pladis_utils.py:75 | the squared clamped margin has the row's length, is nonnegative, and is positive exactly where the entry exceeds the threshold |
| Entmax.Entmax15 | pladis_utils.py:68-76 | the output has the row's length, is nonnegative, and is zero exactly where the halved stabilised entry is at most the threshold |
| Entmax.SumsToOne | pladis_utils.py:68-76 | the output sums to one |
| Entmax.SupportIsTopEntries | pladis_utils.py:68-76 | a nonzero output sits at or above the boundary entry of the sorted support, and every entry strictly above that boundary gets a nonzero output |
| Entmax.ShiftInvariant | pladis_utils.py:69-70 | adding one constant to every entry leaves the output unchanged |
| Entmax.TopKOutputAgrees | pladis_utils.py:73 | the output with a top-`k` window equals the output of the full sort |
| Entmax.UniformRow | pladis_utils.py:68-76 | a row of equal entries gets `1/d` everywhere |
| Attention.Activate | pladis_utils.py:49-54 | the chosen activation keeps the row length and gives nonnegative weights, whatever the name |
| Attention.FallbackIsEntmax | pladis_utils.py:49-54 | every name other than `"sparsemax"`, unknown names included, selects the same activation as `"entmax1.5"`; `"sparsemax"` selects sparsemax |
| Attention.ActivateSumsToOne | pladis_utils.py:49-54 | whichever name is given, the activated row sums to one |
| Attention.WeightsAreDistributions | pladis_utils.py:49-54 | row by row, the attention weights are nonnegative and sum to one |
| Attention.Blend | pladis_utils.py:24 | the blend of two `rows x cols` results is again `rows x cols` |
| Attention.BlendAffine | pladis_utils.py:24 | the blend is `(1 - scale) * dense + scale * sparse`; scale 0 gives the dense result and scale 1 the sparse one |
| Attention.BlendPosition | pladis_utils.py:24 | with scale in `[0, 1]` each entry lies between the dense and sparse entries; with scale above 1 it moves past the sparse entry, away from the dense one |
| Axes.Others | pladis_utils.py:159 | the axes other than `d`, each once and in increasing order |
| Axes.RollLastAsWritten | pladis_utils.py:153-160 | `dim == -1` returns the tensor unchanged; every other `dim` gets the axes other than `d` in increasing order followed by `d`, where `d` is `ndim - dim` for negative `dim`; for `0 <= dim < ndim` that list is a permutation of the axes |
| Axes.RollLastAsWrittenExample | pladis_utils.py:157 | for a 3-axis tensor and `dim = -2` the list is `[0, 1, 2, 5]`, which is not a permutation of the axes |
| Axes.RollLastAsWrittenBreaks | pladis_utils.py:156-159 | for every negative `dim` below `-1` that names an axis, the list is not a permutation |
| Axes.RollLast | pladis_utils.py:153-160 | with negative `dim` counted from the end, the list is a permutation of the axes with the reduced axis last and the others in order |
| Axes.RollLastAgrees | pladis_utils.py:153-159 | the corrected list is the identity for `dim == -1` and equals the source's list for every nonnegative `dim` |

## Left out

- `optimized_attention` (the dense attention of the host program) is a call into code outside this file; the blend takes the dense result as a value.
- The tensor plumbing of `sparse_attention`: the head split and merge reshapes and permutes, the `q @ k.transpose` product with the `dim_head ** -0.5` scale, the product with `v`, and the dtype cast. They are layout and floating-point scaling; the model starts from a row or a matrix of scores.
- Floating-point rounding: every quantity is an exact real. Results that hold over the reals (sums to one, separation) can be off by rounding in the source. `_make_ix_like` builds the ranks in the input dtype (pladis_utils.py:147), so in bfloat16 the ranks above 256, and in float16 those above 2048, are not the integers `Rows.Ranks` states.
- Attention.BlendAffine: the scale-0 and scale-1 identities are exact only over the reals; in floating point `dense + 1 * (sparse - dense)` need not round back to `sparse`.
- The square root: the model takes it as a parameter `sqrt` and requires `IsSqrt(sqrt)` of every operation that uses it.
- Batching over tensors of any rank and the in-place write-back of re-solved rows through permuted views: the model solves one row, and the top-`k` re-solve of a row is modelled as solving that row again with `2k`.
- `dim`: the normalisers always reduce over the last axis of a row; `dim` only matters to `_roll_last`, which is modelled separately.
- `k = 0` and empty rows are excluded by requires: with `k = 0` the source gathers at index `-1`, and `max` over an empty axis raises.
- The row-level model does not call `Axes.RollLast`: rows are selected directly, which is what the corrected permutation provides.
- Entmax.SupportIsTopEntries: states two implications rather than an equivalence, because an entry can sit exactly on the threshold at the support boundary and get output 0 while being counted in the support size (Entmax.BoundaryMeetsThreshold: for the sorted row `[1, 0]` the support size is 2 and the threshold is 0).

## Findings

| source | as written | input that shows it | evidently intended | confidence | as-written member | corrected member |
|---|---|---|---|---|---|---|
| pladis_utils.py:157 | a negative `dim` other than `-1` becomes `X.dim() - dim` | a 3-axis tensor with `dim = -2` gives axis 5 and the list `[0, 1, 2, 5]` | `X.dim() + dim`, which gives axis 1 and the list `[0, 2, 1]` | not executed; high that the expression is wrong, while every call in this file passes `dim = -1` and so never reaches it | Axes.RollLastAsWrittenExample | Axes.RollLast |
