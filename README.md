# Max-diversity subset selection (brtp `max_div`), modelled in Dafny

This project models the max-diversity engine of the `brtp` Python library (`brtp/math/optim/discrete/max_div/`). It also models two small helper modules the library ships with.

The engine picks `k` of `m` candidate vectors so that they are far apart while fairness constraints hold. A fairness constraint says how many members of a group may be picked.

- **Fairness constraints** (`constraints.dfy`). A group of indices with bounds `lb` and `ub`. Building one normalises the bounds and then validates them. The result is a `Result`: either the constraint or the `ValueError` that was raised.
- **Distance providers** (`distances.dfy`). Two providers give L1 or L2 distances between rows of a real matrix:
  - The eager provider reads a condensed upper-triangle table through the closed-form offset `m*i + j - (i+2)(i+1)/2`.
  - The lazy provider (a class) memoises each computed distance in a map, under the key `(min(i,j), max(i,j))`.
  - `sqrt` is a parameter that is not interpreted.
- **Solver state** (`solver_state.dfy`). A class holding the selected and unselected index sets. It offers:
  - an independent `Copy`;
  - an in-place `Modify`, which keeps the moves made before an exception;
  - a memoised two-part `Score`: the sum of squared relative constraint violations, then the reciprocal ordered-weighted mean of nearest-neighbour distances.
- **Solver** (`solver.dfy`). The class `MaxDivSolver`:
  - validates `k`;
  - prepends the synthesized "exactly `k` of all" constraint;
  - runs greedy phase 1, which adds one index per round: the first candidate, in set iteration order, whose metric is lexicographically smallest;
  - finally raises `NotImplementedError`.

  Phase 1 is also defined as a function (`Greedy`). The method is proved equal to it, and `GreedyChoice` is proved to be the first minimum.
- **Enumerations** (`enums.dfy`) and **None-counting helpers** (`checks.dfy`).
- Shared support:
  - `ext_reals.dfy`: floats that may be `inf`, and Python's tuple `<` on two-part metrics;
  - `sorting.dfy`: Python's `sorted`, `min` and `range`;
  - `wrappers.dfy`: `Option` and `Result`.

Some parts of the source are not interpreted. Each is a parameter of the members that use it:

- `ordered_weighted_mean` from `brtp.math.aggregation` is the function-valued field `owa`.
- `np.sqrt` is `sqrt`.
- Python's iteration order over a set is `order`: a function of the set's value that lists it completely and without repeats (see Left out).

The solver, as written, calls a method that `SolverState` does not define (see Findings). `Solve` models the evidently intended loop, which reads the state's unselected set. `SolveAsWritten` models the code as it stands.

## Model

| member | source | states |
|---|---|---|
| Checks.AllAreNone | brtp/misc/argument_handling/_checks.py:1-3 | `all_are_none`: every argument is None, vacuously so for no arguments (tied to the counters by `AllAreNoneIffNoneCounted`) |
| Checks.AllAreNotNone | brtp/misc/argument_handling/_checks.py:6-8 | `all_are_not_none`: no argument is None, vacuously so for no arguments (tied to the counters by `AllAreNotNoneIffNoNoneCounted`) |
| Checks.CountNone | brtp/misc/argument_handling/_checks.py:11-13 | the number of None arguments is at most the number of arguments |
| Checks.CountNotNone | brtp/misc/argument_handling/_checks.py:16-18 | the number of present arguments is at most the number of arguments |
| Checks.CountsPartition | brtp/misc/argument_handling/_checks.py:11-18 | `count_none(args) + count_not_none(args) == len(args)` for every argument list |
| Checks.AllAreNoneIffNoneCounted | brtp/misc/argument_handling/_checks.py:1-3 | `all_are_none` holds exactly when `count_not_none` is 0, including for no arguments |
| Checks.AllAreNotNoneIffNoNoneCounted | brtp/misc/argument_handling/_checks.py:6-8 | `all_are_not_none` holds exactly when `count_none` is 0, including for no arguments |
| Checks.FalsyValuesAreNotNone | tests/misc/argument_handling/test_checks.py:45-76 | `0` and `""` count as present values, not as None |
| Enums.DistanceMetricFromValue | brtp/math/optim/discrete/max_div/_enums.py:7-11 | looking up 1 or 2 gives the member with that value; any other value is rejected |
| Enums.DiversityMetricFromValue | brtp/math/optim/discrete/max_div/_enums.py:17-22 | looking up 1..3 gives the member with that value; any other value is rejected |
| Enums.ConstraintViolationMetricFromValue | brtp/math/optim/discrete/max_div/_enums.py:28-34 | looking up 1, 2, 11 or 12 gives the member with that value; any other value is rejected |
| Enums.ConstraintViolationMetric.IsRelative | brtp/math/optim/discrete/max_div/_enums.py:36-38 | `is_relative`: true for `RelativeSum` and `RelativeSquaredSum` only (tabulated by `ViolationMetricFlags`) |
| Enums.ConstraintViolationMetric.IsSquared | brtp/math/optim/discrete/max_div/_enums.py:40-44 | `is_squared`: true for `AbsoluteSquaredSum` and `RelativeSquaredSum` only (tabulated by `ViolationMetricFlags`) |
| Enums.ValuesRoundTrip | brtp/math/optim/discrete/max_div/_enums.py:10-34 | looking up a member's own integer value gives that member back, for all three enums |
| Enums.ViolationMetricFlags | brtp/math/optim/discrete/max_div/_enums.py:36-44 | `is_relative` is true exactly for the two relative metrics, and `is_squared` exactly for the two squared ones |
| Enums.ViolationMetricFlagsInjective | tests/math/optim/discrete/max_div/test_enums.py:6-18 | the pair `(is_relative, is_squared)` determines the violation metric |
| ExtReals.Less | brtp/math/optim/discrete/max_div/_solver_state.py:101-102 | float `<` where either side may be `inf`: finite values by their order, every finite value below `inf`, `inf` below nothing (a strict total order by `LessIsStrictTotalOrder`) |
| ExtReals.Min | brtp/math/optim/discrete/max_div/_solver_state.py:101-102 | `min(a, b)` is one of its arguments and neither argument is below it |
| ExtReals.LessIsStrictTotalOrder | brtp/math/optim/discrete/max_div/_solver_state.py:94 | `<` on floats that may be `inf` is irreflexive, transitive and total |
| ExtReals.MetricLess | brtp/math/optim/discrete/max_div/_solver.py:123 | tuple `<` on `(constraint, separation)`: the first parts decide, and the second parts break a tie (a strict total order by `MetricLessIsStrictTotalOrder`) |
| ExtReals.MetricLessIsStrictTotalOrder | brtp/math/optim/discrete/max_div/_solver.py:123 | tuple `<` on `(constraint, separation)` metrics is a strict total order |
| Sorting.Range | brtp/math/optim/discrete/max_div/_solver_state.py:33 | `set(range(m))` holds exactly the integers `0 <= x < m` |
| Sorting.SubsetOfRangeSize | brtp/math/optim/discrete/max_div/_solver_state.py:33 | a subset of `range(m)` has at most `m` elements, and its complement there has `m` minus that many |
| Sorting.Minimum | brtp/math/optim/discrete/max_div/_constraints.py:26 | `min(s)` of a non-empty set is an element that no element is below |
| Sorting.SortedSeq | brtp/math/optim/discrete/max_div/_solver_state.py:96 | `sorted(s)`: the least element first, then the rest sorted (characterised by `SortedSeqProperties`) |
| Sorting.SortedSeqProperties | brtp/math/optim/discrete/max_div/_solver_state.py:96 | `sorted(s)` is strictly ascending, lists exactly the elements of `s`, and has length `len(s)` |
| Constraints.FairnessConstraint.GroupSize | brtp/math/optim/discrete/max_div/_constraints.py:33-35 | `group_size`: the number of indices of the group; `SortedIndices` has exactly this many entries |
| Constraints.FairnessConstraint.SortedIndices | brtp/math/optim/discrete/max_div/_constraints.py:29-31 | `sorted_indices` is strictly ascending, holds exactly the group's indices, and has `group_size` entries |
| Constraints.New | brtp/math/optim/discrete/max_div/_constraints.py:14-27 | building succeeds exactly when `ub >= 0`, the normalised `lb <= ub`, the group is non-empty and no index is negative; on success the bounds are `max(lb, 0)` and `min(ub, len(indices))`, and `0 <= lb <= ub <= len(indices)`; a failing input raises the first failing check in source order: `ub` negative, `lb` above the group size, `lb` above `ub`, empty group, negative index |
| Constraints.UbNegativeIffInputNegative | brtp/math/optim/discrete/max_div/_constraints.py:17-21 | the "'ub' must be non-negative" error is raised exactly when the given `ub` is negative |
| Constraints.NewIsIdempotent | brtp/math/optim/discrete/max_div/_constraints.py:14-27 | re-building from a valid constraint's own fields gives that constraint back |
| Constraints.DefaultBounds | brtp/math/optim/discrete/max_div/_constraints.py:11-17 | with the default bounds a valid group gets bounds `(0, len(indices))` |
| Constraints.ConstructionExamples | tests/math/optim/discrete/max_div/test_constraints.py:21-50 | the normalisation cases and the four rejected inputs of the tests, plus an empty group, which `min()` rejects |
| Constraints.SortedIndicesExample | tests/math/optim/discrete/max_div/test_constraints.py:6-18 | `sorted_indices` of `{0, 1, 2, 10, 5}` is `[0, 1, 2, 5, 10]` |
| Distances.AbsDiffSum | brtp/math/optim/discrete/max_div/_distances.py:108-113 | the sum of `abs(u[k] - v[k])` over the columns (characterised by `AbsDiffSumProperties`, computed by `ComputeDistanceL1`) |
| Distances.SqDiffSum | brtp/math/optim/discrete/max_div/_distances.py:116-122 | the sum of `(u[k] - v[k])**2` over the columns (characterised by `SqDiffSumProperties`, computed by `ComputeDistanceL2`) |
| Distances.AbsDiffSumProperties | brtp/math/optim/discrete/max_div/_distances.py:108-113 | the L1 sum is non-negative, symmetric, and zero between a vector and itself |
| Distances.SqDiffSumProperties | brtp/math/optim/discrete/max_div/_distances.py:116-122 | the sum of squared differences is non-negative, symmetric, and zero between a vector and itself |
| Distances.ApplyProperties | brtp/math/optim/discrete/max_div/_distances.py:108-122 | both metrics are symmetric; L1 is non-negative and zero on the diagonal; L2 is `sqrt(0)` on the diagonal and non-negative when `sqrt` is |
| Distances.ComputeDistanceL1 | brtp/math/optim/discrete/max_div/_distances.py:108-113 | the accumulation loop returns the L1 sum of the two rows |
| Distances.ComputeDistanceL2 | brtp/math/optim/discrete/max_div/_distances.py:116-122 | the accumulation loop returns `sqrt` of the sum of squared differences of the two rows |
| Distances.Offset | brtp/math/optim/discrete/max_div/_distances.py:75 | the index `m*i + j - ((i+2)*(i+1))//2` of the pair `(i, j)` in the condensed table; lemmas `OffsetInRange` and `OffsetInjective` make it a one-to-one map of the pairs `i < j` into the table's positions `0..m(m-1)/2-1` |
| Distances.CondensedTable | brtp/math/optim/discrete/max_div/_distances.py:63-67 | the `pdist` result: the distances of the pairs `i < j`, row by row (characterised by `CondensedTableIsCondensed`) |
| Distances.OffsetNextRow | brtp/math/optim/discrete/max_div/_distances.py:75 | the offset of `(i, m-1)` is followed directly by that of `(i+1, i+2)` |
| Distances.OffsetLexMonotone | brtp/math/optim/discrete/max_div/_distances.py:75 | the offset increases strictly in the lexicographic order of pairs `i < j` |
| Distances.OffsetInRange | brtp/math/optim/discrete/max_div/_distances.py:75 | for `0 <= i < j < m` the offset lies in `[0, m(m-1)/2)` |
| Distances.OffsetInjective | brtp/math/optim/discrete/max_div/_distances.py:75 | two pairs `i < j` with the same offset are the same pair |
| Distances.CondensedTableIsCondensed | brtp/math/optim/discrete/max_div/_distances.py:60-67 | the row-major upper-triangle table has `m(m-1)/2` entries, and the entry at the offset of `(i, j)` is the distance of `(i, j)` |
| Distances.EagerDistances.Call | brtp/math/optim/discrete/max_div/_distances.py:70-76 | 0 when `i == j`, with no table read; otherwise the distance of the pair, the same for `(i, j)` and `(j, i)` |
| Distances.Eager | brtp/math/optim/discrete/max_div/_distances.py:41-45 | the eager factory gives a provider over the given vectors and metric, L2 by default, holding a condensed table |
| Distances.EagerMatchesMetric | brtp/math/optim/discrete/max_div/_distances.py:70-76 | the eager provider returns the metric's value for every pair and is symmetric |
| Distances.LazyDistances.constructor | brtp/math/optim/discrete/max_div/_distances.py:86-93 | a lazy provider starts with an empty memo, for the given vectors and metric |
| Distances.LazyDistances.Call | brtp/math/optim/discrete/max_div/_distances.py:95-102 | returns the metric's value; on a hit under `(min, max)` returns the stored value and leaves the memo unchanged; on a miss adds exactly that key with the returned value |
| Distances.Lazy | brtp/math/optim/discrete/max_div/_distances.py:37-39 | the lazy factory gives a fresh provider with an empty memo, L2 by default |
| Distances.Distance | brtp/math/optim/discrete/max_div/_distances.py:29-32 | either provider returns the metric's value for any two distinct indices |
| Distances.ProvidersAgree | tests/math/optim/discrete/max_div/test_distances.py:68-98 | eager and lazy providers over the same vectors return the same distance, on the first query and on a repeated one |
| SolverStates.SelectedCount | brtp/math/optim/discrete/max_div/_solver_state.py:86 | `len(con.indices.intersection(i_selected))`: the number of selected group members (the count that `Satisfied` and `Violation` are about) |
| SolverStates.Violation | brtp/math/optim/discrete/max_div/_solver_state.py:86-90 | `max(0, n - ub, lb - n) / group_size` for the number `n` of selected group members (zero exactly when the constraint holds, by `ViolationZeroIffSatisfied`) |
| SolverStates.ConsMetric | brtp/math/optim/discrete/max_div/_solver_state.py:86-91 | `metric_cons`: the sum of the squared violations over all constraints (zero exactly when all hold, by `ConsMetricZeroIffAllSatisfied`) |
| SolverStates.ViolationZeroIffSatisfied | brtp/math/optim/discrete/max_div/_solver_state.py:86-90 | a relative violation is non-negative, and zero exactly when the selected count of the group lies in `[lb, ub]` |
| SolverStates.ConsMetricZeroIffAllSatisfied | brtp/math/optim/discrete/max_div/_solver_state.py:86-91 | the constraint metric is non-negative, and zero exactly when every constraint holds |
| SolverStates.ViolationGrowsAboveUb | brtp/math/optim/discrete/max_div/_solver_state.py:86-90 | above `ub`, each further selected group member makes the relative violation strictly larger |
| SolverStates.ViolationGrowsBelowLb | brtp/math/optim/discrete/max_div/_solver_state.py:86-90 | below `lb`, each missing group member makes the relative violation strictly larger |
| SolverStates.ConsMetricMonotone | brtp/math/optim/discrete/max_div/_solver.py:93-94 | the constraint metric is monotone in the violations: when no constraint is violated more under one selection than under another, its metric is at most the other's |
| SolverStates.Nearest | brtp/math/optim/discrete/max_div/_solver_state.py:97-102 | the nearest-neighbour entry of one selected vector: the `min` over the distances to the other selected vectors, starting from `inf` (characterised by `NearestIsMinimum`; `SeparationPerVector` computes it in the source's pair order) |
| SolverStates.NearestIsMinimum | brtp/math/optim/discrete/max_div/_solver_state.py:97-102 | a nearest-neighbour entry is the minimum distance to the other selected vectors: no distance is below it, a finite one is attained, and it is `inf` only when there is no other vector |
| SolverStates.SepVector | brtp/math/optim/discrete/max_div/_solver_state.py:94 | `sep_per_vector` has length `m`, whatever the number of selected vectors |
| SolverStates.SepMetric | brtp/math/optim/discrete/max_div/_solver_state.py:104-108 | `metric_sep`: `inf` when the mean is 0, else `1 / mean`, with `1 / inf == 0` (order-reversing by `SepMetricIsAntitone`) |
| SolverStates.SepMetricIsAntitone | brtp/math/optim/discrete/max_div/_solver_state.py:104-108 | a larger mean separation gives a smaller separation metric; a zero mean gives the worst metric and an infinite one the best |
| SolverStates.SortedSelectionInRange | brtp/math/optim/discrete/max_div/_solver_state.py:96 | `sorted(selected)` of a selection within `range(m)` is strictly ascending, has at most `m` entries, and every entry is a candidate index |
| SolverStates.ScoreOf | brtp/math/optim/discrete/max_div/_solver_state.py:85-111 | the metric pair `score()` stores: the constraint metric and `1 / ordered_weighted_mean(sep_per_vector, c=-1)`, with a mean of 0 giving `inf` |
| SolverStates.ScoreConsPart | brtp/math/optim/discrete/max_div/_solver_state.py:86-91 | the constraint part of a score is finite and non-negative, and it is 0 exactly when every constraint holds |
| SolverStates.AddAll | brtp/math/optim/discrete/max_div/_solver_state.py:63-69 | the `add` loop on values: stops at the first index that is already selected (`ValueError`) or not unselected (`KeyError` after it joined the selected set); characterised by `AddAllOnPartition` and `AddAllStopsAt` |
| SolverStates.RemoveAll | brtp/math/optim/discrete/max_div/_solver_state.py:71-77 | the `remove` loop on values: stops at the first index that is unselected (`ValueError`) or not selected (`KeyError`); characterised by `RemoveAllOnPartition` and `RemoveAllStopsAt` |
| SolverStates.ModifyOutcome | brtp/math/optim/discrete/max_div/_solver_state.py:58-80 | `modify`: the add loop, then the remove loop unless the add loop raised, with the moved flag carried over; characterised by `ModifyOnPartition` and `ModifyStopsInRemove` |
| SolverStates.AddAllOnPartition | brtp/math/optim/discrete/max_div/_solver_state.py:63-69 | on a partition the additions all succeed exactly when they are distinct unselected indices; they then move into the selected set and keep the partition |
| SolverStates.RemoveAllOnPartition | brtp/math/optim/discrete/max_div/_solver_state.py:71-77 | on a partition the removals all succeed exactly when they are distinct selected indices; they then move back and keep the partition |
| SolverStates.ModifyOnPartition | brtp/math/optim/discrete/max_div/_solver_state.py:58-80 | a whole `modify` succeeds exactly when its additions and removals are valid; it then keeps the partition, and it has moved something exactly when `add` or `remove` is non-empty |
| SolverStates.AddOneOnPartition | brtp/math/optim/discrete/max_div/_solver_state.py:63-69 | `modify(add=[i])` of an unselected index moves exactly `i` and keeps the partition |
| SolverStates.AddAllStopsAt | brtp/math/optim/discrete/max_div/_solver_state.py:63-69 | for every input on a partition: when the first `p` additions are valid and addition `p` is not, those `p` indices stay moved and addition `p` raises `ValueError` if already selected, else `KeyError` with the index left in the selected set |
| SolverStates.RemoveAllStopsAt | brtp/math/optim/discrete/max_div/_solver_state.py:71-77 | for every input on a partition: when the first `p` removals are valid and removal `p` is not, those `p` indices stay moved back and removal `p` raises `ValueError` if unselected, else `KeyError` |
| SolverStates.ModifyStopsInRemove | brtp/math/optim/discrete/max_div/_solver_state.py:58-80 | a `modify` whose additions all succeed and whose removal `p` fails keeps every addition and the first `p` removals, and raises for removal `p` |
| SolverStates.PartialModifyPersists | brtp/math/optim/discrete/max_div/_solver_state.py:63-80 | two instances of the general lemmas above: a repeated addition, and a failed removal after an addition |
| SolverStates.OutOfRangeAddBreaksPartition | brtp/math/optim/discrete/max_div/_solver_state.py:67-68 | adding an index outside `0..m-1` puts it in the selected set before `set.remove` raises `KeyError`, so the partition is broken |
| SolverStates.SolverState.constructor | brtp/math/optim/discrete/max_div/_solver_state.py:18-36 | the selected set is the given one or empty; the unselected set is the given non-empty one or else `range(m)` minus the selection; there is no memo; without a given unselected set, and with the given selection inside `range(m)`, the two form a partition |
| SolverStates.SolverState.NSelected | brtp/math/optim/discrete/max_div/_solver_state.py:41-42 | `n_selected` is the size of the selected set; on a partition it plus the unselected count is `m` |
| SolverStates.SolverState.Copy | brtp/math/optim/discrete/max_div/_solver_state.py:44-56 | a fresh state with the same selected set, the same constraints, provider and mean, and no memo; its unselected set is the original's when that is non-empty and `range(m)` minus the selection otherwise (the constructor's `or`), so it equals the original's on a partition |
| SolverStates.SolverState.ClearCachedValues | brtp/math/optim/discrete/max_div/_solver_state.py:119-120 | the memo is empty afterwards |
| SolverStates.SolverState.Modify | brtp/math/optim/discrete/max_div/_solver_state.py:58-80 | with `add` and `remove` empty by default, the new sets and the raised error are those of `ModifyOutcome`; the memo is cleared only when the call succeeded and moved something |
| SolverStates.SolverState.Score | brtp/math/optim/discrete/max_div/_solver_state.py:82-114 | returns the memoised metric when there is one and leaves it; otherwise computes the state's `ScoreOf` and memoises it; if the memo was the true metric before the call, the result is the true metric and the memo stays true |
| SolverStates.SolverState.Build | brtp/math/optim/discrete/max_div/_solver_state.py:125-136 | a fresh state with nothing selected and all of `range(m)` unselected, using the given provider or else an eager L2 one |
| SolverStates.ComputeScore | brtp/math/optim/discrete/max_div/_solver_state.py:85-111 | the computation returns `ScoreOf` of the selection: the constraint metric and `1/owa(sep)`, where a mean of 0 gives `inf` |
| SolverStates.ConstraintMetric | brtp/math/optim/discrete/max_div/_solver_state.py:86-91 | the loop returns the sum of squared relative violations over all constraints |
| SolverStates.SeparationPerVector | brtp/math/optim/discrete/max_div/_solver_state.py:94-102 | the nested loops leave position `p < len(selected)` holding the nearest-neighbour distance of the `p`-th smallest selected index, and every later position at `inf` |
| SolverStates.RelaxRow | brtp/math/optim/discrete/max_div/_solver_state.py:98-102 | one pass of the inner loop extends every nearest-neighbour entry up to position `a` by the distances to position `a` |
| SolverStates.CopyIsIndependent | brtp/math/optim/discrete/max_div/_solver_state.py:44-56 | modifying a copy leaves the original's sets and memo unchanged, and the copy moves as `modify` prescribes |
| Solver.SynthesizedConstraint | brtp/math/optim/discrete/max_div/_solver.py:39 | `FairnessConstraint(range(m), lb=k, ub=k)` succeeds exactly when `0 <= k <= m` and `m >= 1`; `k < 0` fails through the `ub` check |
| Solver.FirstBest | brtp/math/optim/discrete/max_div/_solver.py:113-125 | the position the strict `<` scan keeps after `t` candidates, always one of those `t` |
| Solver.FirstBestIsFirstMinimum | brtp/math/optim/discrete/max_div/_solver.py:123-125 | after `t` candidates the kept position has a metric that no candidate beats, and it beats every earlier candidate strictly |
| Solver.CandidateScores | brtp/math/optim/discrete/max_div/_solver.py:116-120 | the metric of each candidate added to the selection, one per candidate, in iteration order |
| Solver.CandidateScoresAt | brtp/math/optim/discrete/max_div/_solver.py:118-120 | entry `q` of the round's scores is the metric of the selection with candidate `q` added |
| Solver.Candidates | brtp/math/optim/discrete/max_div/_solver.py:116 | a round's candidates list every unselected index of `range(m)` once |
| Solver.CandidatesNonEmpty | brtp/math/optim/discrete/max_div/_solver.py:112-116 | while fewer than `m` indices are selected a round has at least one candidate |
| Solver.GreedyChoice | brtp/math/optim/discrete/max_div/_solver.py:116-125 | the index a round adds is a candidate in `range(m)` that is not yet selected |
| Solver.GreedyChoiceIsMinimal | brtp/math/optim/discrete/max_div/_solver.py:116-125 | no unselected index added to the selection gives a smaller metric than the round's choice |
| Solver.GreedyChoiceIsFirst | brtp/math/optim/discrete/max_div/_solver.py:123-125 | every candidate listed before the choice gives a strictly larger metric, so ties keep the earliest |
| Solver.Greedy | brtp/math/optim/discrete/max_div/_solver.py:112-128 | phase 1 only adds indices within `range(m)`, and ends with `k` of them, or with the selection unchanged when it already has `k` or more |
| Solver.GreedySatisfiesSynthesizedConstraint | brtp/math/optim/discrete/max_div/_solver.py:39 | after phase 1 from nothing, the synthesized "exactly `k` of all" constraint holds |
| Solver.MaxDivSolver.constructor | brtp/math/optim/discrete/max_div/_solver.py:37-43 | `cons` is the synthesized constraint followed by the user constraints; the provider is eager L2; the state has nothing selected and is scored with the user constraints only |
| Solver.MaxDivSolver.New | brtp/math/optim/discrete/max_div/_solver.py:23-43 | `k > m` raises; otherwise a failure of the synthesized constraint is raised; construction succeeds exactly when `0 <= k <= m` and `m >= 1` |
| Solver.MaxDivSolver.Solve | brtp/math/optim/discrete/max_div/_solver.py:111-134 | the final selection is `Greedy` of the starting one, with `k` indices when it started with at most `k`, and `NotImplementedError` is raised |
| Solver.MaxDivSolver.EvaluateRound | brtp/math/optim/discrete/max_div/_solver.py:113-125 | one round returns a fresh state whose selection is the old one plus `GreedyChoice`; the current state is not changed |
| Solver.MaxDivSolver.KeepFirstBest | brtp/math/optim/discrete/max_div/_solver.py:113-125 | the candidate loop keeps the state of the first candidate with a smallest metric |
| Solver.MaxDivSolver.ConsiderCandidate | brtp/math/optim/discrete/max_div/_solver.py:117-125 | one pass replaces the best so far with the new candidate exactly when there is none yet or the candidate's metric is strictly smaller |
| Solver.MaxDivSolver.Evaluate | brtp/math/optim/discrete/max_div/_solver.py:118-120 | the evaluated copy has the candidate added, and its memo holds the metric of that selection |
| Solver.MaxDivSolver.SolveAsWritten | brtp/math/optim/discrete/max_div/_solver.py:112-116 | as written, a solve that still has indices to add raises `AttributeError` in its first round; otherwise it raises `NotImplementedError` |

## Left out

- `ordered_weighted_mean` (`brtp/math/aggregation/_means.py`) is not interpreted. It is the function-valued field `owa`, so nothing is proved about the separation part of a score beyond how it is computed from `owa`.
  - Under IEEE arithmetic the `inf` padding of `sep_per_vector` would make the mean `inf` whenever fewer than `m` indices are selected. The model keeps the padding as written and does not fix it.
- `scipy.spatial.distance.pdist` is modelled by its contract: the row-major table `CondensedTable`, whose entry at the offset of `(i, j)` is the distance of `(i, j)`.
- `np.sqrt` is the parameter `sqrt`. Floating-point rounding, NaN and `pytest.approx` tolerances are not modelled: vector entries and metrics are exact reals.
- Python's iteration order over a set is the parameter `order`. It is assumed to list each set completely and once. It is also a function of the set's value alone. CPython's order can also depend on the set's history of insertions and removals. The abstraction is still sound. Within one run every round iterates a different set value, since each round selects one more index. So some single `order` reproduces the source's order in every round.
- The `numba.njit` decorator is left out. It does not change behaviour for in-range indices. Compiled code does no bounds checking, so out-of-range indices are not modelled.
- The abstract `PairWiseDistances` base class is the datatype `Provider`, holding one of the two implementations.
- SolverStates.SolverState.constructor: the source keeps a caller's non-empty `i_selected` and `i_unselected` sets by reference, so a later `modify` changes the caller's sets too. The model holds the sets as values and does not capture that aliasing. The solver never relies on it, because it passes none or fresh copies.
- `FairnessConstraint` is a datatype built by `Constraints.New`, which returns the constraint or the raised error. The in-place overwrite of `lb`/`ub` in `__post_init__` can only be observed on a constraint that is then returned, so it is modelled as computing the new fields. The `cached_property` memo of `sorted_indices` and `group_size` is left out, because their values never change.
- SolverStates.SolverState.Score: the model requires the selection to lie within `0..m-1`. Outside that range the source does one of three things. It may compute a score with no meaning: with one selected index `5` and `m = 2`, no distance is read and the score comes back normally. It may wrap a negative index in NumPy and read another pair's distance. Or it may raise `IndexError`. Two paths lead to such a state: the constructor's `i_selected` argument, which is not checked, and a failed `modify` that adds an out-of-range index (see `SolverStates.OutOfRangeAddBreaksPartition`).
- A negative index passed to `modify` is modelled as a plain set element. NumPy's negative indexing into `vectors` is not modelled.
- Solver.MaxDivSolver.New: accepts `distance_metric`, `diversity_metric` and `constraint_violation_metric` but does not use them, as in the source. The provider is always eager L2.
- Solver.MaxDivSolver.Solve: phase 2 is `pass` in the source, and `MaxDivResult` is never built because `solve` raises first. Both are left out.
- `brtp/math/optim/discrete/max_div/_metrics.py`, `_result.py`, `__init__.py`, `brtp/caching`, `brtp/compat` and the plotting, formatting, timing and numeric utilities are not part of this model.

## Findings

| source | as written | input that shows it | evidently intended | confidence | as-written member | corrected member |
|---|---|---|---|---|---|---|
| brtp/math/optim/discrete/max_div/_solver.py:116 | the round iterates over `self._state.i_unselected()`, but `SolverState` defines no such method, only the field `_i_unselected` | any solver with `k >= 1`, for example `m = 1, k = 1`: the first round raises `AttributeError` | iterate over the state's unselected set (`_solver_state.py:33`) | not executed | Solver.MaxDivSolver.SolveAsWritten | Solver.MaxDivSolver.Solve |
