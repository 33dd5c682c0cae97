# eq_test: a verified model of the DISCO two-sample energy test

`eq_test.py` tests whether two multivariate samples come from the same
distribution. The approach follows Rizzo and Székely, "DISCO analysis" (2010).
It has two parts:

- `energy(x, y)` is the statistic. It takes three sums of Minkowski order-1
  (L1) distances: within `x`, within `y`, and across the two. From them it
  builds the between-sample term `S1`, the within-sample dispersion `W1`, and
  `F1 = S1 / W1`.
- `eq_test(x, y, nboot)` pools the two samples and scores the observed split.
  It then scores `nboot` random resplits of the pool. The p-value is
  `(1 + #{F_boot >= F_obs}) / (1 + nboot)`.

The model has two modules:

- `energy.dfy` (module `EnergyStatistic`) defines the statistic with exact
  `real` arithmetic. Numpy returns nan or an infinity when it divides by
  zero; the datatype `Stat` records which one.
- `eq_test.dfy` (module `PermutationTest`) defines the resplits, the
  bootstrap loop (a method over an `array<Stat>`), the count and the p-value.

The random permutations are an input to the model. `perms[i]` is the index
vector that `random.permutation(N)` returns on iteration `i`, and
`nboot = |perms|`. Each one must be a permutation of `0 .. N-1`.

At the edges the model keeps what the code actually does:

- `nboot = 0` is accepted, and `p` is then 1. It is not an error.
- An empty sample gives nan, because numpy divides by the integer 0. It is
  not a raised error. No bootstrap value reaches nan, so p is then
  1/(1+nboot).
- Samples of one row are valid input. Their pdist sum is empty.
- When `W1` is 0, the result follows IEEE 754 division by +0. It is +inf
  when `S1 > 0` and nan when `S1 = 0`. `EnergyNeverNegInf` proves -inf
  cannot occur.
- The within-sample sums are divided by `n*n` and `m*m`, not by their numbers
  of pairs. The model keeps this exactly. The sizes are multiplied as
  integers, as in Python.

## Model

| member | source | states |
|---|---|---|
| `EnergyStatistic.L1` | eq_test.py:52 | The Minkowski p=1 distance between two rows is never negative. |
| `EnergyStatistic.L1Symmetric` | eq_test.py:52 | The L1 distance is symmetric in its two rows. |
| `EnergyStatistic.L1ZeroIff` | eq_test.py:52 | On rows of equal width, the distance is 0 exactly when the rows are equal. |
| `EnergyStatistic.RowSumZeroIff` | eq_test.py:52 | The distances from one row to a set of rows sum to 0 exactly when every row of the set equals it. |
| `EnergyStatistic.CrossSum` | eq_test.py:52 | The cdist sum, over all n·m cross pairs, is never negative. |
| `EnergyStatistic.PairSum` | eq_test.py:52 | The pdist sum, over unordered pairs i < j, is never negative. It is 0 for a sample of at most one row. |
| `EnergyStatistic.CrossSumConsRight` | eq_test.py:52 | Adding a row `a` to the second sample adds the distances from `a` to every row of the first sample. |
| `EnergyStatistic.CrossSumSymmetric` | eq_test.py:52 | The cdist sum is the same in either order of the samples. |
| `EnergyStatistic.CrossSumSelf` | eq_test.py:52 | The cdist sum of a sample with itself is twice its pdist sum. |
| `EnergyStatistic.PairSumZeroIff` | eq_test.py:52 | For a rectangular sample, the pdist sum is 0 exactly when all its rows are equal. |
| `EnergyStatistic.W1` | eq_test.py:54 | W1 is never negative when both pdist sums are non-negative. |
| `EnergyStatistic.W1ZeroIff` | eq_test.py:54 | W1 is 0 exactly when both pdist sums are 0. |
| `EnergyStatistic.WithinPositiveIff` | eq_test.py:52-54 | W1 > 0 exactly when some sample has two distinct rows. |
| `EnergyStatistic.S1Swap` | eq_test.py:53 | S1 is unchanged when the two samples, with their sums and sizes, trade places. |
| `EnergyStatistic.S1Self` | eq_test.py:53 | With equal sizes and a cross sum twice the pdist sum, S1 is the pdist sum over n. |
| `EnergyStatistic.S1` | eq_test.py:53 | When both pdist sums are 0, S1 is non-negative exactly when the cross sum is. |
| `EnergyStatistic.Divide` | eq_test.py:55 | The quotient is finite exactly when the divisor is nonzero, and then quotient × divisor = dividend. Division by 0 gives nan or an infinity. |
| `EnergyStatistic.Energy` | eq_test.py:50-56 | F1 = S1 / W1 is a finite number whenever both samples are non-empty and one of them has two distinct rows. |
| `EnergyStatistic.EnergySymmetric` | eq_test.py:50-56 | energy(x, y) == energy(y, x), including the nan and infinity cases. |
| `EnergyStatistic.EnergySelf` | eq_test.py:50-56 | energy(x, x) is exactly 1 when x has two distinct rows. It is nan (0/0) when all rows of x agree. |
| `EnergyStatistic.EnergyNeverNegInf` | eq_test.py:53-55 | The statistic is never -inf. When W1 is 0, S1 is non-negative. |
| `PermutationTest.PermutationInRange` | eq_test.py:45 | Every entry of a permutation of 0..N-1 addresses a row of the pool. |
| `PermutationTest.Gather` | eq_test.py:46 | Fancy indexing `stack[idx]` gives one row per index and keeps the common width of a rectangular pool. |
| `PermutationTest.GatherMultiset` | eq_test.py:46 | Indexing the pool by two index vectors with equal multisets gives rows with equal multisets. |
| `PermutationTest.SplitByPermutation` | eq_test.py:45-46 | The two index groups of a permutation are valid indices. Together the gathered rows are a rearrangement of the pool. |
| `PermutationTest.Resplit` | eq_test.py:45-46 | A resplit has groups of sizes Nx and Ny. Together the groups hold the same multiset of rows as the pool, and they stay rectangular. |
| `PermutationTest.BootStat` | eq_test.py:45-46 | `F1_boot[i]`, the statistic of one resplit, is never -inf. |
| `PermutationTest.BootStats` | eq_test.py:44-46 | The bootstrap values have one slot per permutation, and none of them is -inf. |
| `PermutationTest.GatherRangeSplit` | eq_test.py:40-41 | Indexing by the two parts of the identity vector gives back the two parts of the pool. |
| `PermutationTest.ObservedIsIdentityResplit` | eq_test.py:39-41 | Stacking x over y and splitting at Nx returns x and y. The observed statistic is the statistic of the identity resplit. |
| `PermutationTest.Ge` | eq_test.py:47 | numpy's `>=`: true only when neither side is nan. Every other value reaches itself, and +inf reaches every value but nan. |
| `PermutationTest.CountGe` | eq_test.py:47 | The number of bootstrap values >= F1_en lies between 0 and nboot. |
| `PermutationTest.CountGeNaN` | eq_test.py:47 | No bootstrap value reaches a nan F1_en, so the count is 0. |
| `PermutationTest.CountGeAppend` | eq_test.py:47 | The count over two concatenated arrays is the sum of the two counts. |
| `PermutationTest.CountGeReorder` | eq_test.py:47 | The count does not depend on the order of the bootstrap values. |
| `PermutationTest.PValue` | eq_test.py:47 | 1/(1+nboot) <= p <= 1. |
| `PermutationTest.PValueMonotone` | eq_test.py:47 | p does not decrease when the count grows. |
| `PermutationTest.PValueReorder` | eq_test.py:47 | Reordering the bootstrap array leaves p unchanged. |
| `PermutationTest.PValueSingleBoot` | eq_test.py:47 | With nboot = 1, p is 1 when the one bootstrap value reaches F1_en, and 1/2 otherwise. |
| `PermutationTest.FillBootstrap` | eq_test.py:42-46 | The loop returns a fresh array of nboot slots. Slot i holds the statistic of the i-th resplit. The loop invariant says iteration i writes slot i only and unwritten slots keep their initial 0. |
| `PermutationTest.EqTest` | eq_test.py:39-48 | The returned F is energy(x, y). p is (1 + count of bootstrap values >= F) / (1 + nboot), and 1/(1+nboot) <= p <= 1. |
| `PermutationTest.EmptySamplePValue` | eq_test.py:39-48 | With an empty sample, F1_en is nan and p is 1/(1+nboot), the smallest p-value the test can report. |
| `PermutationTest.EqTestAsWritten` | eq_test.py:39-48 | As written, the loop stops at the undefined `energy2` on its first pass. eq_test returns exactly when nboot = 0, and then it returns p = 1 and F = energy(x, y). |

## Findings

| source | as written | input that shows it | evidently intended | confidence | as-written member | corrected member |
|---|---|---|---|---|---|---|
| eq_test.py:46 | The loop calls `energy2`, which is never defined, so its first iteration raises NameError. | Any x, y with nboot >= 1, such as the default nboot = 1000 | Call `energy` on the two resplit groups | high; not executed | `PermutationTest.EqTestAsWritten` | `PermutationTest.EqTest` |

## Left out

- `numpy.random.permutation` and the global random state are left out. The permutations are the `perms` parameter, so the model cannot say anything about their distribution.
- Floating-point rounding is left out. Arithmetic is exact over `real`. Float behaviour appears only where the source divides by zero, as nan or ±inf in `Stat`.
- Numpy's RuntimeWarning on division by zero is an I/O side effect and is not modelled.
- The default `nboot = 1000` is not modelled. A negative nboot makes `np.zeros` raise, and the model cannot express it because nboot is `|perms|`.
- `np.vstack` at eq_test.py:40 raises ValueError when the two samples have different widths. `EnergyStatistic.Energy` and `PermutationTest.EqTest` require rectangular input instead, as the docstring's shapes (n1, p) and (n2, p) demand.
- An empty sample of a different width is not modelled. For example, x of shape (0, 3) and y of shape (5, 2) make `np.vstack` raise ValueError. A sample with no rows has no width in the model, so the model returns nan instead.
- `nboot = None`, which the docstring allows, is not modelled. The source then raises in `np.zeros(nboot)` or `range(nboot)`. In the model nboot is `|perms|`, which is always a number.
- One-dimensional arrays for x or y are not modelled. The model takes two-dimensional samples only, as the docstring specifies.
- SciPy and NumPy internals (`pdist`, `cdist`, `vstack`, `np.sum`) are modelled by their mathematical meaning, as recursive sums.
- Statistical claims are left out. Examples are that p is near 1 for equal distributions or small for separated ones. These are statements about random draws.
- The usage example in the docstring (eq_test.py:31-36) is left out, and so is any precomputed distance matrix.
