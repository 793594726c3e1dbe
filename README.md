# Rank graduation statistics: a Dafny model

This project models the rank-concordance core of the model-agnostic SAFE AI package:

- the Rank Graduation Accuracy (RGA) of a prediction against a reference (`_rga`);
- the numerator and the denominator of the rank graduation explainability statistic
  (`_num`, `_den`);
- the difference of two RGA values over the columns of a table (`_delta_function`);
- `_test_delta_function`;
- the jackknife test `rgr_statistic_test`, which compares the robustness of two models under
  a perturbation, up to `se` squared and the numerator of `z`;
- `rgr`, the Rank Graduation Robustness (RGR) measure, which delegates to the accuracy measure.

`_rga(y, yhat)` works in these steps:

1. It ranks `yhat` with minimum ranks for ties.
2. It replaces every reference value by the mean of the reference over its tie group (the
   support, `rord`).
3. It orders the supports by a stable argsort of `yhat` (`ystar`).
4. It dots `ystar` with the index vector `0..n-1` (`conc`).
5. It normalises `conc` between the index dot products of the reference sorted descending
   (`dec`) and ascending (`inc`).

The model is in six modules, one per file:

| file | module | contents |
|---|---|---|
| `results.dfy` | `Results` | the two error kinds and a `Result` type. |
| `sequences.dfy` | `Sequences` | `sum`, the index-vector dot product, `sorted` in both directions, reversal, gathering by indices, and the rearrangement inequality for the index vector. |
| `ranking.dfy` | `Ranking` | `rank(method="min")`, and the stable argsort done by `sorted(enumerate(v), key=value)`. |
| `support.dfy` | `Support` | the `groupby(rank).mean()` table and the per-row lookup. |
| `util.dfy` | `Util` | the functions of `utils/util.py`, and the loops that fill `rord` as methods over an array. |
| `util.dfy` | `UtilExamples` | worked examples. |
| `robustness.dfy` | `Robustness` | the leave-one-out table, the jackknife loop as a method, the sum of squared deviations, the z numerator and `rgr`. |

Errors are values rather than preconditions. Where Python divides by zero, the model returns
`Err(DivisionUndefined)`: `inc == dec`, `se == 0`, or an empty jackknife. Where the vectors
differ in length, it returns `Err(ShapeMismatch)`.

Three behaviours of the code worth knowing:

- **Anti-sorted prediction.** For `y = [1, 2, 3, 4]` against `yhat = [4, 3, 2, 1]` the code
  computes `conc = dec = 10` and `inc = 20`, so the RGA is `0`.
  `UtilExamples.ReverseOrderExample` states this.
- **Short input.** A reference shorter than two is constant, so `_rga` divides by zero
  (`DivisionUndefined`).
- **Reference column.** The jackknife pass computes `_rga(col0, col2) - _rga(col0, col1)`:
  model 1's predictions are the reference of both calls, and the fourth column is never read
  (`Robustness.JackknifeIgnoresMod2Pert`). Swapping the two models negates the z numerator
  (`Robustness.ZNumeratorSwap`), but it does not in general leave the jackknife values
  unchanged.

## Model

| member | source | states |
|---|---|---|
| `Ranking.CountLess` | modelagnosticsafeaipackage/utils/util.py:18 | the number of entries below a value never exceeds the length of the vector |
| `Ranking.MinRanks` | modelagnosticsafeaipackage/utils/util.py:18 | one rank per row |
| `Ranking.CountLessIsCardinality` | modelagnosticsafeaipackage/utils/util.py:18 | the recursive count equals the size of the set of rows strictly below the value |
| `Ranking.CountLessMonotone` | modelagnosticsafeaipackage/utils/util.py:18 | the count of smaller entries is monotone in the threshold |
| `Ranking.CountLessStrict` | modelagnosticsafeaipackage/utils/util.py:18 | an entry in `[x, y)` makes the count at `y` strictly larger than at `x` |
| `Ranking.MinRankProperties` | modelagnosticsafeaipackage/utils/util.py:18 | min-rank semantics: 1 + the number of strictly smaller rows, in `1..n`; equal ranks iff equal values; rank order iff value order |
| `Ranking.StableArgSort` | modelagnosticsafeaipackage/utils/util.py:26-27 | every listed index is a row of the vector |
| `Ranking.InsertByKeyElements` | modelagnosticsafeaipackage/utils/util.py:27 | one insertion step adds exactly the inserted row to the multiset of rows |
| `Ranking.ArgSortPrefixElements` | modelagnosticsafeaipackage/utils/util.py:26-27 | sorting the first `m` rows lists exactly the rows `0..m-1` |
| `Ranking.ArgSortPrefixBelow` | modelagnosticsafeaipackage/utils/util.py:26-27 | sorting the first `m` rows lists only rows below `m` |
| `Ranking.InsertByKeySorts` | modelagnosticsafeaipackage/utils/util.py:27 | inserting a row that is larger than every listed row keeps a stably sorted list stably sorted |
| `Ranking.ArgSortPrefixSorted` | modelagnosticsafeaipackage/utils/util.py:26-27 | sorting the first `m` rows yields a list ordered by value, with ties in row order |
| `Ranking.StableArgSortProperties` | modelagnosticsafeaipackage/utils/util.py:26-27 | the argsort is a permutation of the rows (length `n`, every row present, none twice), sorted by value, stable on ties |
| `Ranking.GatherArgSortPermutes` | modelagnosticsafeaipackage/utils/util.py:28 | gathering any aligned vector along the argsort only rearranges its values |
| `Support.GroupMean` | modelagnosticsafeaipackage/utils/util.py:20 | the mean times the group size is the group's sum |
| `Support.SupportTable` | modelagnosticsafeaipackage/utils/util.py:20 | one entry for exactly the keys that occur, each the mean of `y` over its group |
| `Support.CountPositive` | modelagnosticsafeaipackage/utils/util.py:20 | a key that occurs has a non-empty group |
| `Support.SupportKeepsSum` | modelagnosticsafeaipackage/utils/util.py:20-25 | replacing each row by its group mean keeps the total |
| `Support.SameGroups` | modelagnosticsafeaipackage/utils/util.py:18-20 | two key columns that pick out the same rows give that group the same sum and the same size |
| `Sequences.Insert` | modelagnosticsafeaipackage/utils/util.py:31-32 | an insertion step adds exactly the inserted value |
| `Sequences.SortValuesSorts` | modelagnosticsafeaipackage/utils/util.py:31-32 | `sorted` returns a permutation of its input, ordered in the requested direction |
| `Sequences.OrderedUnique` | modelagnosticsafeaipackage/utils/util.py:31-32 | two ordered permutations of the same values are equal |
| `Sequences.SortDescendingIsReverse` | modelagnosticsafeaipackage/utils/util.py:31-32 | `sorted(y, reverse=True)` is `sorted(y)` read backwards |
| `Sequences.RearrangementGap` | modelagnosticsafeaipackage/utils/util.py:31-32 | for an ascending list, `inc - dec >= (n-1) * (max - min)` |
| `Sequences.Sum` | modelagnosticsafeaipackage/utils/util.py:30-32 | Python's `sum` of a list, folded from the left; properties in `Sequences.SumCons` and `Util.SupportSum` |
| `Sequences.SumCons` | modelagnosticsafeaipackage/utils/util.py:30-32 | prepending a value adds it to the sum |
| `Sequences.IndexDot` | modelagnosticsafeaipackage/utils/util.py:29-32 | the dot product with `I = list(range(n))`; properties in `Sequences.IndexDotCons` and `Sequences.RearrangementGap` |
| `Sequences.IndexDotCons` | modelagnosticsafeaipackage/utils/util.py:29-32 | prepending a value shifts every index by one, so the dot product grows by the sum of the rest |
| `Sequences.SortValues` | modelagnosticsafeaipackage/utils/util.py:31-32 | `sorted(y, reverse=...)`; properties in `Sequences.SortValuesSorts` and `Sequences.SortValuesOfPermutation` |
| `Sequences.SortValuesOfPermutation` | modelagnosticsafeaipackage/utils/util.py:31-32 | `sorted` depends only on the multiset of values |
| `Ranking.InsertByKey` | modelagnosticsafeaipackage/utils/util.py:27 | one step of the stable argsort; properties in `Ranking.InsertByKeyElements` and `Ranking.InsertByKeySorts` |
| `Ranking.ArgSortPrefix` | modelagnosticsafeaipackage/utils/util.py:26-27 | the stable argsort of the first `m` rows; properties in `Ranking.ArgSortPrefixElements` and `Ranking.ArgSortPrefixSorted` |
| `Support.Lookup` | modelagnosticsafeaipackage/utils/util.py:22-25 | every row takes the table entry of its key; property in `Support.SupportKeepsSum` |
| `Support.SumWhereUpdate` | modelagnosticsafeaipackage/utils/util.py:20 | overwriting one row changes the sum of its own group by the difference, and no other group's sum |
| `Support.SumWhereSwap` | modelagnosticsafeaipackage/utils/util.py:20 | exchanging two rows of one group leaves every group sum unchanged |
| `Support.SupportTableSwap` | modelagnosticsafeaipackage/utils/util.py:20 | exchanging two rows of one group leaves the table of group means unchanged |
| `Util.SupportValues` | modelagnosticsafeaipackage/utils/util.py:18-25 | `rord` has one entry per row |
| `Util.SupportIsTieMean` | modelagnosticsafeaipackage/utils/util.py:18-25 | each row's support is the mean of the reference over the rows tied with it in `yhat` |
| `Util.SupportSum` | modelagnosticsafeaipackage/utils/util.py:20-25 | `sum(rord) == sum(y)` |
| `Util.SupportOfTieFree` | modelagnosticsafeaipackage/utils/util.py:18-25 | when tied predictions have equal references, the support is the reference itself |
| `Util.FillRows` | modelagnosticsafeaipackage/utils/util.py:21-25 | the in-place loop leaves row `jj` holding the support of its rank, for every row |
| `Util.ComputeSupport` | modelagnosticsafeaipackage/utils/util.py:18-25 | the rank, group and fill steps produce exactly the support vector |
| `Util.ComputeConc` | modelagnosticsafeaipackage/utils/util.py:18-30 | `rord`, `ystar` and `conc` computed step by step give exactly `Conc` |
| `Util.TieSwapSupport` | modelagnosticsafeaipackage/utils/util.py:18-25 | exchanging the reference values of two rows tied in `yhat` leaves `rord` unchanged |
| `Util.YStar` | modelagnosticsafeaipackage/utils/util.py:26-28 | `ystar = [rord[i] for i in ranks]`; properties in `Util.YStarPermutes` and `Util.YStarSorted` |
| `Util.Conc` | modelagnosticsafeaipackage/utils/util.py:29-30 | `conc`; properties in `Util.PerfectOrder`, `Util.ReverseOrder` and `Util.TieSwapInvariant` |
| `Util.Dec` | modelagnosticsafeaipackage/utils/util.py:31 | `dec`; properties in `Util.DecAtMostInc` and `Util.DecIncOfPermutation` |
| `Util.Inc` | modelagnosticsafeaipackage/utils/util.py:32 | `inc`; properties in `Util.DecAtMostInc` and `Util.DecIncOfPermutation` |
| `Util.DecIncOfPermutation` | modelagnosticsafeaipackage/utils/util.py:31-32 | `dec` and `inc` depend only on the multiset of reference values |
| `Util.YStarPermutes` | modelagnosticsafeaipackage/utils/util.py:26-28 | `ystar` holds every support value exactly once |
| `Util.YStarSorted` | modelagnosticsafeaipackage/utils/util.py:26-32 | when ordering by `yhat` never puts the reference out of ascending (or descending) order, `ystar` is the sorted reference |
| `Util.DecAtMostInc` | modelagnosticsafeaipackage/utils/util.py:31-33 | `dec <= inc`, with equality exactly for a constant reference |
| `Util.Rga` | modelagnosticsafeaipackage/utils/util.py:13-34 | a shape error iff the lengths differ, an undefined division iff the reference is constant |
| `Util.RgaDefined` | modelagnosticsafeaipackage/utils/util.py:33 | for a non-constant reference the result is `(conc - dec) / (inc - dec)` with a non-zero denominator |
| `Util.TieSwapInvariant` | modelagnosticsafeaipackage/utils/util.py:13-34 | exchanging the reference values of two rows tied in `yhat` leaves the RGA unchanged |
| `Util.RgaOfSameParts` | modelagnosticsafeaipackage/utils/util.py:30-33 | two references of one length with equal `conc`, `dec` and `inc` have the same RGA |
| `Util.PerfectOrder` | modelagnosticsafeaipackage/utils/util.py:26-34 | a prediction ordered like the reference gives `conc == inc`, hence RGA 1 |
| `Util.ReverseOrder` | modelagnosticsafeaipackage/utils/util.py:26-34 | a prediction ordered against the reference gives `conc == dec`, hence RGA 0 |
| `Util.ComputeRga` | modelagnosticsafeaipackage/utils/util.py:13-34 | the step-by-step `_rga` returns what `Rga` specifies, errors included |
| `Util.Num` | modelagnosticsafeaipackage/utils/util.py:36-56 | defined exactly when the two vectors have the same length |
| `Util.ComputeNum` | modelagnosticsafeaipackage/utils/util.py:36-56 | the step-by-step `_num` returns what `Num` specifies |
| `Util.Den` | modelagnosticsafeaipackage/utils/util.py:59-66 | `_den >= 0`, and `_den == 0` exactly for a constant vector |
| `Util.NumIsRgaTimesDen` | modelagnosticsafeaipackage/utils/util.py:30-65 | `_num(y, yhat) == _rga(y, yhat) * _den(y)` whenever `_den(y) != 0` |
| `Util.TestDelta` | modelagnosticsafeaipackage/utils/util.py:10-11 | defined exactly when the two vectors have the same length |
| `Util.TestDeltaSelf` | modelagnosticsafeaipackage/utils/util.py:10-11 | `_test_delta_function(v, v) == 0` for every `v` |
| `Util.Column` | modelagnosticsafeaipackage/utils/util.py:7 | a column has one entry per row |
| `Util.DeltaFunction` | modelagnosticsafeaipackage/utils/util.py:6-8 | defined exactly when both calls of the measure are |
| `Util.Difference` | modelagnosticsafeaipackage/utils/util.py:7 | the difference of two results evaluated left to right: the first error wins, otherwise the values subtract |
| `Util.DeltaFunctionSameColumns` | modelagnosticsafeaipackage/utils/util.py:6-8 | equal baseline and perturbed columns give delta 0 |
| `Util.DeltaFunctionIgnoresColumn3` | modelagnosticsafeaipackage/utils/util.py:6-8 | the delta reads columns 0, 1 and 2 only |
| `Util.ComputeDelta` | modelagnosticsafeaipackage/utils/util.py:6-8 | the step-by-step delta with `_rga` returns what `DeltaFunction` specifies |
| `UtilExamples.ReverseOrderExample` | modelagnosticsafeaipackage/utils/util.py:13-34 | `y = [1,2,3,4]`, `yhat = [4,3,2,1]`: `conc = dec = 10`, `inc = 20`, RGA `0` |
| `UtilExamples.ArgSortExample` | modelagnosticsafeaipackage/utils/util.py:26-27 | the argsort of `[2,1,3,5,4]` is `[1,0,2,4,3]` |
| `UtilExamples.EndToEndExample` | modelagnosticsafeaipackage/utils/util.py:13-34 | `y = [1..5]`, `yhat = [2,1,3,5,4]`: `conc = 38`, `dec = 20`, `inc = 40`, RGA `0.9` |
| `Robustness.Table` | modelagnosticsafeaipackage/check_robustness.py:42-43 | the table has one row per observation |
| `Robustness.TableColumns` | modelagnosticsafeaipackage/check_robustness.py:42-43 | the columns of the table are the four vectors, in order |
| `Robustness.KeptRows` | modelagnosticsafeaipackage/check_robustness.py:45-48 | every kept index is a row of the table |
| `Robustness.KeptRowsSkip` | modelagnosticsafeaipackage/check_robustness.py:45-48 | the kept indices are `0..n-1` without `i`, in increasing order |
| `Robustness.LeaveOneOutDrops` | modelagnosticsafeaipackage/check_robustness.py:48-49 | each sample is the table without row `i`: `n - 1` rows in their original order |
| `Robustness.LeaveOneOut` | modelagnosticsafeaipackage/check_robustness.py:48-49 | `jk_mat.iloc[kept rows]` after `reset_index`; property in `Robustness.LeaveOneOutDrops` |
| `Robustness.JackknifeStatistic` | modelagnosticsafeaipackage/check_robustness.py:48-50 | the delta of sample `i`; properties in `Robustness.JackknifeValueIsDelta` and `Robustness.LeaveOneOutAgrees` |
| `Robustness.LeaveOneOutAgrees` | modelagnosticsafeaipackage/check_robustness.py:48-50 | tables that agree on columns 0 to 2 give the same delta for every sample |
| `Robustness.Samples` | modelagnosticsafeaipackage/check_robustness.py:47-50 | one pass per row |
| `Robustness.Collect` | modelagnosticsafeaipackage/check_robustness.py:46-51 | appending the passes' values, stopping at the first error; properties in `Robustness.CollectValues` and `Robustness.CollectStops` |
| `Robustness.Jackknife` | modelagnosticsafeaipackage/check_robustness.py:44-51 | `jk_results` after the loop; properties in `Robustness.JackknifeValues` and `Robustness.JackknifeDeltas` |
| `Robustness.CollectValues` | modelagnosticsafeaipackage/check_robustness.py:46-51 | appending the passes' values succeeds iff every pass does, one value per pass, in order; a failure carries the first failing pass's error |
| `Robustness.CollectStops` | modelagnosticsafeaipackage/check_robustness.py:47-51 | after a failing pass, later passes do not change the outcome |
| `Robustness.JackknifeValues` | modelagnosticsafeaipackage/check_robustness.py:44-51 | `jk_results` holds `n` values, value `i` being the delta of the table without row `i`, or the loop fails with the first failing pass's error |
| `Robustness.JackknifeDeltas` | modelagnosticsafeaipackage/check_robustness.py:44-51 | the loop returns exactly `Jackknife` |
| `Robustness.JackknifeIgnoresColumn3` | modelagnosticsafeaipackage/check_robustness.py:47-51 | the jackknife values do not depend on column 3 |
| `Robustness.JackknifeIgnoresMod2Pert` | modelagnosticsafeaipackage/check_robustness.py:42-51 | `yhat_mode2_pert` never reaches `jk_results` |
| `Robustness.JackknifeValueIsDelta` | modelagnosticsafeaipackage/check_robustness.py:48-50 | value `i` is `_rga(yhat, yhat_pert) - _rga(yhat, yhat_mod2)` on the vectors without entry `i` |
| `Robustness.Mean` | modelagnosticsafeaipackage/check_robustness.py:52 | `np.mean(jk_results)`; property in `Robustness.SumSqDevZeroIff` |
| `Robustness.SumSqDev` | modelagnosticsafeaipackage/check_robustness.py:52 | the sum of squared deviations from the mean; property in `Robustness.SumSqDevZeroIff` |
| `Robustness.Variance` | modelagnosticsafeaipackage/check_robustness.py:52 | `se` squared, `((n-1)/n) * ssd`; property in `Robustness.VarianceZero` |
| `Robustness.Summarise` | modelagnosticsafeaipackage/check_robustness.py:52-53 | the statistic after the loop, errors in source order; properties in `Robustness.SummariseProperties` |
| `Robustness.StatisticTest` | modelagnosticsafeaipackage/check_robustness.py:23-53 | `rgr_statistic_test` up to `z`; properties in `Robustness.StatisticTestErrors`, `Robustness.StatisticTestProperties` and `Robustness.SmallTablesUndefined` |
| `Robustness.SquareSign` | modelagnosticsafeaipackage/check_robustness.py:52 | a squared deviation is non-negative, and zero only at zero |
| `Robustness.SquaredDeviationsZero` | modelagnosticsafeaipackage/check_robustness.py:52 | the sum of squared deviations from `m` is non-negative, and zero iff every value is `m` |
| `Robustness.SumSqDevZeroIff` | modelagnosticsafeaipackage/check_robustness.py:52 | the SSD of the jackknife values is non-negative, and zero iff they are all equal |
| `Robustness.VarianceZero` | modelagnosticsafeaipackage/check_robustness.py:52 | for `n > 1`, `se` squared is non-negative, and zero iff the SSD is |
| `Robustness.ZNumerator` | modelagnosticsafeaipackage/check_robustness.py:53 | defined exactly when both RGA values are |
| `Robustness.ZNumeratorSwap` | modelagnosticsafeaipackage/check_robustness.py:53 | swapping the two models negates the z numerator |
| `Robustness.SummariseProperties` | modelagnosticsafeaipackage/check_robustness.py:52-53 | errors in source order; undefined when `n < 2` or all values agree; otherwise a positive SSD and variance and the given numerator |
| `Robustness.DeltaNeverMismatched` | modelagnosticsafeaipackage/utils/util.py:6-8 | a delta over the columns of one table never reports a shape error |
| `Robustness.JackknifeNeverMismatched` | modelagnosticsafeaipackage/check_robustness.py:47-51 | the loop never reports a shape error |
| `Robustness.StatisticTestErrors` | modelagnosticsafeaipackage/check_robustness.py:23-53 | a shape error iff the four lengths differ; every other failure is an undefined division |
| `Robustness.SampleColumns` | modelagnosticsafeaipackage/check_robustness.py:48-50 | the columns of sample `i` are the input vectors without entry `i` |
| `Robustness.StatisticTestProperties` | modelagnosticsafeaipackage/check_robustness.py:23-53 | a defined test has more than one row, `n` jackknife values that are not all equal (value `i` computed without row `i`), their SSD and `((n-1)/n)` times it, both positive, and the difference of the two RGA values as z numerator |
| `Robustness.StatisticUndefinedWhenDeltasAgree` | modelagnosticsafeaipackage/check_robustness.py:52-53 | equal jackknife values make `se == 0`, so the test is undefined |
| `Robustness.SmallTablesUndefined` | modelagnosticsafeaipackage/check_robustness.py:44-53 | fewer than three rows always give an undefined division |
| `Robustness.RgrStatisticTest` | modelagnosticsafeaipackage/check_robustness.py:23-53 | the step-by-step test returns what `StatisticTest` specifies |
| `Robustness.Rgr` | modelagnosticsafeaipackage/check_robustness.py:19 | `rgr(yhat, yhat_pert) = rga(yhat, yhat_pert)`, the accuracy measure being a parameter; property in `Robustness.RgrReference` |
| `Robustness.RgrReference` | modelagnosticsafeaipackage/check_robustness.py:19 | with this model's RGA as the accuracy measure, unperturbed predictions have RGR 1, and RGR is undefined iff `yhat` is constant |

## Left out

- Floating point: values are exact reals, so there is no rounding, NaN or infinity. A Python
  division by zero (a numpy `inf`/`nan`, or a `ZeroDivisionError`) is modelled as
  `Err(DivisionUndefined)`.
- The square root, the normal CDF and the p-value (`check_robustness.py:52-56`): the model
  stops at `se` squared, which is non-negative, and the z numerator, which may have either
  sign. The p-value depends on them only through `|numerator| / sqrt(se squared)`.
- pandas and numpy plumbing (`DataFrame`, `concat`, `reset_index`, column names): vectors are
  `seq<real>` and a table is a sequence of four-field rows.
- `check_accuracy.rga` is not part of this model. `Robustness.Rgr` takes it as a function
  parameter, and `Robustness.RgrReference` states what holds when it is this model's `Util.Rga`.
- Sorting algorithms: Python's `sorted` (Timsort) and pandas `sort_values` (quicksort by
  default, which is not stable) are modelled as insertion sorts.
  - Sorting plain values has only one possible result (`Sequences.OrderedUnique`), so
    `sorted(y)`, `sort_values` and the model agree on `dec` and `inc`.
  - The argsort of lines 26-27 sorts `(index, value)` pairs with Python's stable `sorted`. The
    model's argsort is stable too (`Ranking.StableArgSortProperties`).
- `rord` is filled by one loop over the rows, looking each rank up in the support map. The
  inner loop over the table's rows in the source finds that same entry, since each rank occurs
  in the table exactly once.
- Shape checks: the Python code does not check that paired vectors have the same length (pandas
  aligns them and pads with NaN). The model reports `Err(ShapeMismatch)` instead.
- Robustness.ZNumeratorSwap: states that the z numerator is negated when the models are
  swapped, not that the p-value is unchanged. The jackknife values use model 1 as the
  reference, so swapping changes them.
- Robustness.JackknifeDeltas: stops at the first pass whose RGA is undefined. In Python, with
  float inputs and `n >= 2`, such a pass does not raise: `_rga` returns numpy `nan`, the loop
  appends it and goes on, and `se`, `z` and the p-value all become `nan`. Only `n == 1`
  raises, on the integer `0/0` of an empty sample. The model therefore matches the source
  only in the final outcome: an undefined result (`Err(DivisionUndefined)` in place of
  `nan`). `Robustness.CollectValues` and `Robustness.CollectStops` describe this early stop.
- Robustness.Summarise: when `se` is zero and `z` is defined, the Python code produces an
  infinite or undefined `z`. The model reports `Err(DivisionUndefined)`.
