# Ensemble dynamics-model training driver — a Dafny model

This project models the discrete control logic of `training_dynamics` in
`benchmark/pretrain_dynamics.py` of NeoRL's benchmark: the driver that fits an
ensemble of probabilistic transition models on logged transitions, keeps each
member's best validation loss, checkpoints improving members, stops after five
epochs without improvement, selects the best members and names the saved
artifact. The tensor numerics (training steps, the validation evaluation) and
the random generators are collaborators whose results enter as inputs.

Modules, one per piece of the driver:

- `Losses` (`losses.dfy`): a validation loss is `Inf` or `Fin(r)`; `Less` is
  the driver's `<`, a strict total order with `Inf` on top.
- `Selection` (`selection.dfy`): `_select_best_indexes` as a stable insertion
  sort of `(metric, index)` pairs on the metric, then the first `n` indices.
  `IsBestSelection` states what the result is (the `n` members of lowest loss,
  ties in ascending index order, listed in that order), and
  `BestSelectionIsUnique` shows that this statement determines the result.
- `Split` (`split.dfy`): `val_size`/`train_size`, and the two index lists that
  `random_split` cuts from the permutation it draws.
- `Batches` (`batches.dfy`): `ceil(T / batch_size)` slices per bootstrap row,
  their shape, that they partition the row, and the mini-batch loop.
- `Epochs` (`epochs.dfy`): the in-place best-loss update (`UpdateBest`, over an
  `array`), the state after `k` epochs (`After`, built from `Step`), the
  stagnation counter and the break, and the epoch loop `TrainUntilStagnant`,
  proved to compute `After` and to stop exactly where `StopsAt` says.
- `Artifact` (`artifact.dfy`): Python's `str` on integers, the file name
  `{task}-{level}-{amount}-{seed}.pt`, and POSIX `os.path.join`.
- `Driver` (`driver.dfy`): `training_dynamics` as a whole, with the
  `finance`/`10000` skip.

Inputs standing for what the model cannot see: the permutation drawn by
`random_split`, one bootstrap sample (one row per member, `ensemble_size` rows, each of
`train_size` indices below `train_size`) and one validation-loss vector per epoch, and the final `performance`
vector. The loop consumes a finite sequence of epochs; if it runs out before
the stagnation limit the run ends as `OutOfEpochs`, where the source would keep
looping.

The model follows the code where it differs from the `{dynamics_path}/{name}`
form one might expect: the artifact path is `os.path.join(dynamics_path, name)`, which adds no
separator after a directory that already ends in `/` and drops the directory
when the name itself is absolute; and `zip` at line 97 visits only as many
members as the shorter of the two loss lists.

## Model

| member | source | states |
|---|---|---|
| Losses.LessIsStrictTotalOrder | benchmark/pretrain_dynamics.py:98 | the loss comparison is irreflexive, asymmetric, transitive and total, with `+infinity` above every loss |
| Selection.Enumerate | benchmark/pretrain_dynamics.py:15 | the pairs list every member once, as `(metrics[j], j)`, in ascending index order; `SortRanks` and `SortedEnumeration` build on it |
| Selection.Insert | benchmark/pretrain_dynamics.py:16 | inserting a pair adds exactly that pair to the multiset of pairs |
| Selection.InsertKeepsRanked | benchmark/pretrain_dynamics.py:16 | inserting a pair whose index is smaller than every index in a ranked list, ahead of the pairs whose metric is not smaller, keeps the list ranked by (metric, index) |
| Selection.SortByMetric | benchmark/pretrain_dynamics.py:16 | the sorted list is a permutation of the pairs |
| Selection.SortRanks | benchmark/pretrain_dynamics.py:15-16 | sorting pairs listed in ascending index order yields them ranked by metric and, among equal metrics, by index (stability) |
| Selection.SortedEnumeration | benchmark/pretrain_dynamics.py:15-16 | the sorted `zip(metrics, range(len(metrics)))` is ranked, holds every member's pair once, and each entry carries its member's metric |
| Selection.PrefixIsBestSelection | benchmark/pretrain_dynamics.py:17 | the indices of the first `n` sorted pairs are a best selection |
| Selection.LeftOutRanksLater | benchmark/pretrain_dynamics.py:17 | a member whose pair is not among the first `n` ranks after all of them |
| Selection.SelectBestIndexes | benchmark/pretrain_dynamics.py:14-18 | for `n <= len(metrics)`: exactly `n` distinct indices in range, in ascending (metric, index) order, each with a loss below, or equal and at a smaller index than, every member left out |
| Selection.BestSelectionIsUnique | benchmark/pretrain_dynamics.py:14-18 | any two index lists with that property are equal, so the result is the stable-sort answer whatever the sort algorithm |
| Split.SplitSizes | benchmark/pretrain_dynamics.py:72-74 | `train + val == N`; `1 <= val <= 1000`; below the cap `val - 1 == floor(N / 5)`; the cap is reached exactly from `N = 4995`; for `N >= 1` the training size is not negative and `val <= N`; training is non-empty exactly when `N >= 2` |
| Split.RandomSplit | benchmark/pretrain_dynamics.py:75-78 | the two index lists have sizes `train_size` and `val_size`, are disjoint, and together hold every position `0 .. N-1` |
| Batches.NumBatches | benchmark/pretrain_dynamics.py:90 | the batch count is the ceiling of `T / batch_size`: enough batches to hold `T`, one fewer would not, and none exactly for `T == 0` |
| Batches.BatchShape | benchmark/pretrain_dynamics.py:90-91 | each slice is non-empty and inside the row, at most `batch_size` wide, exactly that wide and followed without gap by the next one unless it is the last, and the last ends at `T` |
| Batches.BatchesAreDisjoint | benchmark/pretrain_dynamics.py:90-91 | slices are pairwise disjoint and in order |
| Batches.PositionInBatch | benchmark/pretrain_dynamics.py:90-91 | every position `k < T` of a row lies in slice `k / batch_size`, so with disjointness it is covered exactly once |
| Batches.RowBatches | benchmark/pretrain_dynamics.py:90-91 | a member's row is cut into `ceil(T / batch_size)` slices, each non-empty and at most `batch_size` wide; `RowBatchesCoverRow` proves they rebuild the row |
| Batches.RowBatchesCoverRow | benchmark/pretrain_dynamics.py:89-93 | concatenating a member's slices in order gives back its whole bootstrap row |
| Batches.MiniBatches | benchmark/pretrain_dynamics.py:90-92 | the loop produces `ceil(T / batch_size)` batches, batch `b` holding slice `b` of every member's row |
| Epochs.Improve | benchmark/pretrain_dynamics.py:97-100 | the updated best list has one entry per member and no entry grows; `ImproveIsPointwiseMin` proves each changes exactly on strict improvement |
| Epochs.ImprovedIndexes | benchmark/pretrain_dynamics.py:96-99 | `indexes` holds exactly the members whose new loss is strictly below their best, strictly ascending; `ImprovedIndexesIsExact` adds that it is empty exactly when the best list is unchanged |
| Epochs.ImproveIsPointwiseMin | benchmark/pretrain_dynamics.py:97-100 | a best loss changes exactly when the new loss is strictly smaller; each entry becomes the smaller of old and new and never grows; the length is kept |
| Epochs.ImprovedUpToIsExact | benchmark/pretrain_dynamics.py:96-99 | after `k` steps, `indexes` holds exactly the improving members below `k`, strictly ascending |
| Epochs.ImprovedIndexesIsExact | benchmark/pretrain_dynamics.py:96-100 | `indexes` is exactly the set of improved members in ascending order; it is empty exactly when no member improves, exactly when the best list is unchanged |
| Epochs.UpdateBest | benchmark/pretrain_dynamics.py:96-100 | the in-place loop leaves `val_losses` equal to the improved list and returns the improving indices |
| Epochs.Start | benchmark/pretrain_dynamics.py:82-85 | before the first epoch there is one best loss per member, each at least as large as any loss, the counter is 0 and nothing is saved; `FirstEpochImprovesAll` builds on it |
| Epochs.Step | benchmark/pretrain_dynamics.py:96-106 | one epoch keeps the member count and appends this epoch's `indexes` to the history; a counter that is not reset is one more than before and leaves the best losses unchanged; by `ImprovedIndexesIsExact` the reset happens exactly when some member improves, and `CounterCountsStagnation` and `BestNeverIncreases` carry this over many epochs |
| Epochs.After | benchmark/pretrain_dynamics.py:82-106 | after `k` epochs there is one history entry per epoch and one best loss per member |
| Epochs.NextEpoch | benchmark/pretrain_dynamics.py:96-106 | one more epoch updates the best losses, resets the counter on any improvement and otherwise adds one, and saves the improving list when it is non-empty |
| Epochs.CounterCountsStagnation | benchmark/pretrain_dynamics.py:102-106 | the counter always equals the number of trailing epochs that improved no member, and never exceeds the epoch count |
| Epochs.TrailingWindow | benchmark/pretrain_dynamics.py:102-109 | at least `w` trailing stagnant epochs means the last `w` epochs improved nothing |
| Epochs.BestNeverIncreases | benchmark/pretrain_dynamics.py:98-100 | every member's best loss is non-increasing from any epoch to any later one |
| Epochs.StopMeansFiveStagnantEpochs | benchmark/pretrain_dynamics.py:102-109 | the loop breaks at epoch `k` exactly when epochs `k-5 .. k-1` improved nothing, and no earlier window of five epochs was stagnant |
| Epochs.StopsWithCounterFive | benchmark/pretrain_dynamics.py:104-109 | at the break the counter is exactly 5 and at least five epochs have run |
| Epochs.StopsAtIsUnique | benchmark/pretrain_dynamics.py:87-109 | the epoch count and whether the loop breaks are determined by the losses |
| Epochs.FirstEpochImprovesAll | benchmark/pretrain_dynamics.py:82-100 | from all-`+infinity` best losses, a first epoch of finite losses improves every member, in order, and its losses become the best ones |
| Epochs.SixEpochs | benchmark/pretrain_dynamics.py:82-109 | with finite first-epoch losses that no later epoch undercuts, the loop breaks after exactly six epochs with the first epoch's losses as the best |
| Epochs.FiveEpochsWithoutImprovement | benchmark/pretrain_dynamics.py:82-109 | when no member's loss ever falls below `+infinity`, the loop breaks after exactly five epochs |
| Epochs.RunEpoch | benchmark/pretrain_dynamics.py:88-106 | one epoch trains on the mini-batches of its sample, updates `val_losses` in place, and sets the counter to 0 on improvement and to one more otherwise |
| Epochs.TrainUntilStagnant | benchmark/pretrain_dynamics.py:82-109 | the loop runs until the first epoch whose counter reaches 5 (or the supplied epochs run out), returns the best losses of `After` at that epoch, the non-empty improving lists in order, and the mini-batches of every epoch |
| Artifact.NatToString | benchmark/pretrain_dynamics.py:115 | a natural renders as a non-empty string of decimal digits without a leading zero |
| Artifact.ParseNatToString | benchmark/pretrain_dynamics.py:115 | reading the rendering of a natural back gives the natural |
| Artifact.IntToString | benchmark/pretrain_dynamics.py:115 | `str` of an integer is non-empty, starts with `-` exactly for a negative number, and the digits after the sign read back as its absolute value; `IntToStringInjective` follows |
| Artifact.IntToStringInjective | benchmark/pretrain_dynamics.py:115 | distinct integers render as distinct strings |
| Artifact.ArtifactName | benchmark/pretrain_dynamics.py:115 | the file name starts with `{task}-{level}-`, ends with `.pt` and leaves room for both numbers; `ArtifactNameInjective` proves when it tells runs apart |
| Artifact.ArtifactNameInjective | benchmark/pretrain_dynamics.py:114-115 | two runs with a dash-free level and non-negative amount and seed get the same file name only if task, level, amount and seed all agree |
| Artifact.Join | benchmark/pretrain_dynamics.py:114-115 | an absolute name replaces the directory; otherwise the path starts with the directory, followed by `/` unless the directory is empty or already ends in one; `JoinEndsWithName` and `JoinKeepsNamesApart` complete it |
| Artifact.JoinEndsWithName | benchmark/pretrain_dynamics.py:114 | the joined path ends with the file name |
| Artifact.JoinKeepsNamesApart | benchmark/pretrain_dynamics.py:114 | under one directory, distinct relative file names give distinct paths, and a non-empty relative name gives a non-empty path |
| Driver.TrainingDynamics | benchmark/pretrain_dynamics.py:43-122 | the `finance`/`10000` case returns `{performance: [], path: ''}` and calls nothing; otherwise the split, the epoch loop, the saved lists, the selection of `ensemble_selected` best members and the path `os.path.join(dynamics_path, '{task}-{level}-{amount}-{seed}.pt')` are as the modules above state, and the path is never empty |

## Left out

- `_train_transition` and `_eval_transition` (lines 21-40): negative
  log-likelihood, the log-std penalty, mean squared error and the AdamW step are
  floating-point numerics on a model class outside this model. Their effect is
  the supplied per-epoch validation-loss vector; the final `performance` is a
  supplied vector too.
- `EnsembleTransition`, its construction and its optimiser (lines 56-70), and
  the keys `hidden_units`, `nb_layers`, `learning_rate` and `optim_wd` they take:
  not part of the control logic, so `Driver.Config` leaves them out.
- `transition.update_save`, `transition.set_select` and `torch.save` (lines 103,
  112, 117): only their arguments are recorded (`Calls.saved`,
  `Calls.selected`); the checkpointing and the file write are not modelled.
- Indexing the buffers with the split and batch indices (lines 77-78, 92):
  tensor gathers; the model records the indices only.
- `setup_seed`, `np.random.randint`, `torch.utils.data.random_split` (lines 51,
  75, 89): library random generators; their results are inputs, required to be
  a permutation of `0 .. N-1` and, per epoch, `ensemble_size` rows of
  `train_size` indices below `train_size`.
- `load_data_from_neorl` and the device choice (lines 53-59): data loading and
  hardware probing; a loader failure is not modelled.
- The `__main__` block (lines 125-161): ray/tune orchestration and pickling.
- Termination of `while True` (line 87): not guaranteed by the source; the loop
  is driven by a finite sequence of epochs and ends as `OutOfEpochs` when that
  runs out first.
- Floating point: NaN (which compares false at line 98) is not a `Loss`;
  `int(N * 0.2)` is taken as `N / 5`; `np.ceil(T / batch_size)` is taken as the
  exact ceiling.
- Driver.TrainingDynamics: requires a positive `batch_size`; with 0 the
  division at line 90 raises `ZeroDivisionError` in the first epoch, and a
  negative one gives epochs without mini-batches; neither is modelled.
- Selection.SelectBestIndexes: requires `n <= len(metrics)`; for larger `n` the
  source raises `IndexError` at line 17, which is not modelled.
- Driver.TrainingDynamics: requires a non-empty buffer; with none the training
  size `0 - 1` at line 74 is negative, and what the libraries then do is not
  modelled. With one transition the training part is empty, every epoch trains
  on no batch, and the run is modelled.
- Artifact.ArtifactNameInjective: stated only for a level without `-` and
  non-negative amount and seed; otherwise distinct runs can share a file name
  (task `a-b`, level `c` against task `a`, level `b-c`).
- `porl/__init__.py` is not part of this model: `make` dispatches to external
  simulators whose behaviour is not visible.
