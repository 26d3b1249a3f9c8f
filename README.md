# Blocking time-series split, modelled in Dafny

This project models `BlockingTimeSeriesSplit`, the cross-validation splitter
used to evaluate the cement-plant regression models. The splitter cuts a
dataset of `n` ordered samples into `n_splits` contiguous blocks of
`n // n_splits` samples each. The samples past the last block belong to no
fold. Each block yields one (train, test) pair of index arrays:

- train is `[start, mid)`, with `mid = start + int(train_size * k)`;
- test is `[mid + margin, stop)`.

Here `k` is the block size and the margin is a gap that keeps test samples
away from the training samples before them.

Files:

- `python_semantics.dfy` (module `PythonSemantics`) holds the Python and
  numpy behaviour the splitter depends on:
  - floor division `//` and truncating `int()`;
  - `numpy.arange`;
  - one-step slicing, with negative bounds counting from the end and
    out-of-range bounds clamped.
- `blocking_time_series_split.dfy` (module `BlockingTimeSeriesSplitting`)
  holds the splitter:
  - pure per-block arithmetic over a `SplitConfig` value. The block size is
    defined by counting how many whole times `n_splits` fits into `n`. Each
    block is defined to start where the previous one stops. Lemmas prove
    these equal to the source's `n // n_splits` and `i * k`;
  - `Splits`, the full list of folds, or the error;
  - the class `BlockingTimeSeriesSplit`, whose three `const` fields are set
    only by its constructor. Its `Split` method builds the folds in a loop
    with the source's own formulas and is proved equal to `Splits`;
  - the lemmas about the folds.

The operations accept any configuration, as the source does:

- `n_splits == 0` gives `Failure(ZeroDivisionError)`. Line 15 divides by
  zero before any fold is produced.
- A negative `n_splits` gives no folds, because `range` is empty.
- Any real `train_size` and any integer `margin` are evaluated as Python would
  evaluate them.

The layout properties need a valid configuration (`n_splits > 0`,
`0 <= train_size <= 1`, `margin >= 0`). The lemmas take it as a
hypothesis; the operations do not require it. `OversizedTrainSpills` shows
why it is needed.

## Model

| member | source | states |
|---|---|---|
| `PythonSemantics.FloorDiv` | src/cross_validation/blocking_time_series_split.py:15 | `//` rounds toward negative infinity: the remainder has the divisor's sign and is smaller than the divisor |
| `PythonSemantics.Trunc` | src/cross_validation/blocking_time_series_split.py:21 | `int()` truncates toward zero: for a non-negative value it is the floor, for a negative one the ceiling |
| `PythonSemantics.SliceBound` | src/cross_validation/blocking_time_series_split.py:22 | a slice bound is clamped to `[0, len]`; a non-negative bound becomes `min(i, len)`, a negative one counts from the end, and one below `-len` becomes 0 |
| `PythonSemantics.Slice` | src/cross_validation/blocking_time_series_split.py:22 | a slice is no longer than its array, and it is empty, not an error, when its normalised bounds cross |
| `PythonSemantics.ArangeSlice` | src/cross_validation/blocking_time_series_split.py:16-22 | a slice of `arange(n)` is the run of consecutive integers between its normalised bounds: each element equals its position |
| `BlockingTimeSeriesSplitting.Splits` | src/cross_validation/blocking_time_series_split.py:13-22 | `split` fails exactly when `n_splits == 0` (ZeroDivisionError), yields exactly `n_splits` folds when it is positive, and yields none when it is negative |
| `PythonSemantics.DivCount` | src/cross_validation/blocking_time_series_split.py:15 | the block-size count: how many whole times `b` fits into `a`; it is at most `a` and zero exactly when `a < b` (`DivCountIsFloorDiv` equates it with `a // b`) |
| `PythonSemantics.RangeLen` | src/cross_validation/blocking_time_series_split.py:18 | the number of iterations of `range(n_splits)`: zero for a non-positive argument, the argument itself otherwise |
| `PythonSemantics.Arange` | src/cross_validation/blocking_time_series_split.py:16 | `np.arange(n_samples)`: `n` entries, entry `j` equal to `j` (`ArangeSlice` describes its slices) |
| `BlockingTimeSeriesSplitting.BlockSize` | src/cross_validation/blocking_time_series_split.py:15 | `k_fold_size`: at most `n`, and zero exactly when `n < n_splits` (`BlockSizeIsFloorDiv` equates it with `n_samples // n_splits`) |
| `BlockingTimeSeriesSplitting.BlockStart` | src/cross_validation/blocking_time_series_split.py:19 | `start` of block `i`, defined as 0 for the first block and as the previous block's stop for later ones; it carries no contract of its own (`BlockStartIsProduct` equates it with `i * k_fold_size`, `BlockStartMonotone` orders it) |
| `BlockingTimeSeriesSplitting.BlockStop` | src/cross_validation/blocking_time_series_split.py:20 | `stop = start + k_fold_size`; it carries no contract of its own (`BlockLayout` shows it is where the next block starts and inside `[0, n]`) |
| `BlockingTimeSeriesSplitting.Covered` | src/cross_validation/blocking_time_series_split.py:15-20 | the end of the covered prefix, which is the stop of the last block `n_splits - 1` (`CoveredPrefix` and `RemainderDropped` give `n_splits * k` and `n % n_splits`) |
| `PythonSemantics.DivCountIsFloorDiv` | src/cross_validation/blocking_time_series_split.py:15 | counting how many whole times `b` fits into a count `a` gives Python's `a // b` |
| `BlockingTimeSeriesSplitting.BlockSizeIsFloorDiv` | src/cross_validation/blocking_time_series_split.py:15 | the block size of the model is `n_samples // n_splits` |
| `BlockingTimeSeriesSplitting.BlockStartIsProduct` | src/cross_validation/blocking_time_series_split.py:19 | block `i`, defined as starting where block `i - 1` stops, starts at `i * k` |
| `BlockingTimeSeriesSplitting.BlockStartMonotone` | src/cross_validation/blocking_time_series_split.py:19-20 | later blocks never start before earlier ones |
| `BlockingTimeSeriesSplitting.CoveredPrefix` | src/cross_validation/blocking_time_series_split.py:15-20 | the blocks end at `n_splits * k`, which is at most `n`, and fewer than `n_splits` samples remain after it |
| `BlockingTimeSeriesSplitting.RemainderDropped` | src/cross_validation/blocking_time_series_split.py:15 | the samples after the last block number exactly `n % n_splits` |
| `BlockingTimeSeriesSplitting.BlockLayout` | src/cross_validation/blocking_time_series_split.py:19-20 | each block is `k` long, stops exactly where the next one starts, and ends inside the covered prefix of `[0, n)` |
| `BlockingTimeSeriesSplitting.RemainderInNoFold` | src/cross_validation/blocking_time_series_split.py:15-22 | no index at or past `n_splits * k` appears in any fold |
| `BlockingTimeSeriesSplitting.SplitPoint` | src/cross_validation/blocking_time_series_split.py:21 | `mid = int(train_size * (stop - start)) + start`: not below `start` for a non-negative fraction, not past `stop` for a fraction of at most 1 (`SplitPointInBlock` gives the floor form) |
| `BlockingTimeSeriesSplitting.FoldAt` | src/cross_validation/blocking_time_series_split.py:16-22 | the pair yielded for block `i`, two slices of `arange(n)`: every index in it lies in `[0, n)`, for any configuration (`FoldShape` and `FoldWithinBlock` give its exact shape) |
| `BlockingTimeSeriesSplitting.SplitPointInBlock` | src/cross_validation/blocking_time_series_split.py:21 | with `0 <= train_size <= 1`, `mid = start + floor(train_size * k)` and lies in `[start, stop]` |
| `BlockingTimeSeriesSplitting.FoldShape` | src/cross_validation/blocking_time_series_split.py:16-22 | train is exactly the consecutive indices `[start, mid)` and test exactly `[mid + margin, stop)`, clamped slicing notwithstanding |
| `BlockingTimeSeriesSplitting.FoldWithinBlock` | src/cross_validation/blocking_time_series_split.py:19-22 | every index of fold `i` lies in block `i` |
| `BlockingTimeSeriesSplitting.TrainPrecedesTest` | src/cross_validation/blocking_time_series_split.py:21-22 | every train index is more than `margin` below every test index of the same fold |
| `BlockingTimeSeriesSplitting.TrainTestDisjoint` | src/cross_validation/blocking_time_series_split.py:21-22 | no index is both a train and a test index of one fold |
| `BlockingTimeSeriesSplitting.EmptyTestIff` | src/cross_validation/blocking_time_series_split.py:22 | the test indices are empty exactly when `mid + margin >= stop`, and no error is raised |
| `BlockingTimeSeriesSplitting.FoldsOrdered` | src/cross_validation/blocking_time_series_split.py:18-22 | every index of an earlier fold is below every index of a later fold, so folds never overlap |
| `BlockingTimeSeriesSplitting.SplitsInBlockOrder` | src/cross_validation/blocking_time_series_split.py:18-22 | the yielded sequence is in block order: the same ordering holds across its positions |
| `BlockingTimeSeriesSplitting.MoreFoldsThanSamples` | src/cross_validation/blocking_time_series_split.py:15-22 | with `n_splits > n` the block size is 0 and every fold has empty train and test, for any fraction and margin |
| `BlockingTimeSeriesSplitting.OversizedTrainSpills` | src/cross_validation/blocking_time_series_split.py:21-22 | with `train_size = 1.5` the train slice of block 0 reaches index 2, which is in block 1 |
| `BlockingTimeSeriesSplitting.ExampleFiveFolds` | src/cross_validation/blocking_time_series_split.py:13-22 | `n = 10`, 5 folds, fraction 0.8: folds `([2i], [2i+1])`; with margin 1 the first test is empty |
| `BlockingTimeSeriesSplitting.ExampleRemainder` | src/cross_validation/blocking_time_series_split.py:13-22 | `n = 9`, 4 folds, fraction 1: folds `([2i, 2i+1], [])`, and index 8 is in none |
| `BlockingTimeSeriesSplitting.BlockingTimeSeriesSplit.constructor` | src/cross_validation/blocking_time_series_split.py:5-8 | stores `n_splits`, `train_size` and `margin` (default 0) unchanged |
| `BlockingTimeSeriesSplitting.BlockingTimeSeriesSplit.Configuration` | src/cross_validation/blocking_time_series_split.py:5-8 | the configuration the splitter computes with is the one stored by the constructor |
| `BlockingTimeSeriesSplitting.BlockingTimeSeriesSplit.GetNSplits` | src/cross_validation/blocking_time_series_split.py:10-11 | returns the configured `n_splits`, whatever `X`, `y` and `groups` are |
| `BlockingTimeSeriesSplitting.BlockingTimeSeriesSplit.Split` | src/cross_validation/blocking_time_series_split.py:13-22 | the loop over `range(n_splits)` yields exactly `Splits(config, len(X))`: fold `i` is the pair for block `i`, or the error |
| `BlockingTimeSeriesSplitting.GetNSplitsCountsFolds` | src/cross_validation/blocking_time_series_split.py:10-22 | for positive `n_splits`, `get_n_splits` equals the number of folds `split` yields |
| `BlockingTimeSeriesSplitting.SplitReplays` | src/cross_validation/blocking_time_series_split.py:5-22 | calling `split` twice on the same data yields identical folds, since the configuration is only read |

## Left out

- Float rounding: `train_size * (stop - start)` is computed on exact reals, not IEEE doubles.
- Laziness: the generator is modelled as an eagerly built sequence. The order is the same. The only error the model has, the ZeroDivisionError of line 15, happens before the first fold, so for that error the behaviour is also the same. The errors of `int()` below are not modelled.
- Views and aliasing: numpy basic slicing returns views that share the one buffer of `indices = np.arange(n_samples)` (lines 16 and 22), so a write through one yielded array shows in every other array over the same positions (with `train_size > 1`, fold 0's train `[0, 1, 2]` shares index 2 with fold 1). The model yields independent immutable sequences; the values are the same, the sharing is not modelled.
- Infinite and NaN `train_size`: `real` has no IEEE infinity or NaN, so the errors `int()` raises on line 21 for them are not modelled (OverflowError for an infinite fraction times a non-empty block, ValueError for NaN, including infinity times an empty block).
- `y` and `groups` of `split` are not modelled; the source ignores them. `X` is modelled by a sequence, of which only the length is used.
- Non-integer `n_splits` or `margin`, and a non-numeric `train_size`, are not modelled: the fields are typed `int`, `real` and `int`.
- A negative `n_splits` makes `get_n_splits` return that negative number while `split` yields no folds. The model reproduces this; `GetNSplitsCountsFolds` is stated for positive `n_splits` only.
- Notebook execution and patching scripts, the Keras model definitions, metric scoring, result tables and score printing are not part of this model. They are I/O and floating-point glue over external libraries.
