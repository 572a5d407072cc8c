/** `training_dynamics(config)`: the skip check, the split, the epoch loop, the
    final selection and the artifact path. The model, its optimiser, data
    loading and the random generators are collaborators: their results arrive
    as inputs. */
module Driver {
  import opened Losses
  import Selection
  import Split
  import Batches
  import Epochs
  import Artifact

  /** The configuration keys the control logic reads. */
  datatype Config = Config(
    task: string,
    level: string,
    amount: int,
    seed: int,
    ensembleSize: nat,
    ensembleSelected: nat,
    batchSize: nat,
    dynamicsPath: string)

  /** The returned mapping `{'performance': ..., 'path': ...}`. */
  datatype Outcome = Outcome(performance: seq<Loss>, path: string)

  /** What the driver handed to its collaborators: the two index lists cut by
      `random_split`, the mini-batches of every epoch, the lists passed to
      `update_save`, the list passed to `set_select`, and the epoch count. */
  datatype Calls = Calls(
    trainIndices: seq<nat>,
    valIndices: seq<nat>,
    trained: seq<seq<seq<seq<nat>>>>,
    saved: seq<seq<nat>>,
    selected: seq<nat>,
    epochs: nat)

  const NoCalls := Calls([], [], [], [], [], 0)

  /** A run either returns, or uses up the supplied epochs without reaching the
      stagnation limit (where the source would go on looping). */
  datatype Run = Returned(outcome: Outcome, calls: Calls) | OutOfEpochs(calls: Calls)

  /** The combination known to be unavailable upstream. */
  predicate IsSkipped(cfg: Config) {
    cfg.task == "finance" && cfg.amount == 10000
  }

  /** What the configuration and the libraries provide to a run that is not
      skipped: a positive batch size, no more members selected than trained, a
      non-empty buffer (with one transition the training part is empty and
      every epoch trains on no batch), a permutation of its positions from
      `random_split`, and per epoch one validation loss vector and one
      bootstrap sample `randint(train_size, size=[ensemble_size, train_size])`:
      one row per member, each of `train_size` indices below `train_size`. */
  ghost predicate Supplied(cfg: Config, dataSize: nat, perm: seq<nat>,
                           samples: seq<seq<seq<nat>>>, losses: seq<seq<Loss>>)
  {
    && 0 < cfg.batchSize
    && cfg.ensembleSelected <= cfg.ensembleSize
    && 1 <= dataSize
    && Split.IsPermutation(perm, dataSize)
    && |samples| == |losses|
    && (forall e :: 0 <= e < |samples| ==> |samples[e]| == cfg.ensembleSize)
    && (forall e :: 0 <= e < |samples| ==>
         Batches.Rectangular(samples[e], Split.SplitSizes(dataSize).train as nat))
    && (forall e, m, k :: 0 <= e < |samples| && 0 <= m < |samples[e]| && 0 <= k < |samples[e][m]| ==>
         samples[e][m][k] < Split.SplitSizes(dataSize).train)
  }

  /** The full run. `performance` stands for the evaluation of the selected
      members that the model reports at the end. */
  method TrainingDynamics(cfg: Config, dataSize: nat, perm: seq<nat>,
                          samples: seq<seq<seq<nat>>>, losses: seq<seq<Loss>>,
                          performance: seq<Loss>)
    returns (run: Run)
    requires !IsSkipped(cfg) ==> Supplied(cfg, dataSize, perm, samples, losses)
    ensures IsSkipped(cfg) ==> run == Returned(Outcome([], ""), NoCalls)
    ensures !IsSkipped(cfg) ==>
      && run.calls.trainIndices == Split.RandomSplit(perm, dataSize).train
      && run.calls.valIndices == Split.RandomSplit(perm, dataSize).val
    ensures !IsSkipped(cfg) ==> Epochs.StopsAt(cfg.ensembleSize, losses, run.calls.epochs, run.Returned?)
    ensures !IsSkipped(cfg) ==>
      && |run.calls.trained| == run.calls.epochs
      && Epochs.EpochsBatched(run.calls.trained, samples, Split.SplitSizes(dataSize).train as nat, cfg.batchSize)
    ensures !IsSkipped(cfg) ==>
      run.calls.saved == Epochs.Saved(Epochs.After(cfg.ensembleSize, losses, run.calls.epochs).improved)
    ensures !IsSkipped(cfg) && run.OutOfEpochs? ==> run.calls.selected == []
    ensures !IsSkipped(cfg) && run.Returned? ==>
      && run.calls.selected == Selection.SelectBestIndexes(
           Epochs.After(cfg.ensembleSize, losses, run.calls.epochs).best, cfg.ensembleSelected)
      && run.outcome.performance == performance
      && run.outcome.path == Artifact.Join(cfg.dynamicsPath,
           Artifact.ArtifactName(cfg.task, cfg.level, cfg.amount, cfg.seed))
      && run.outcome.path != ""
  {
    if IsSkipped(cfg) {
      return Returned(Outcome([], ""), NoCalls);
    }
    var sizes := Split.SplitSizes(dataSize);
    var parts := Split.RandomSplit(perm, dataSize);
    var trainSize := sizes.train as nat;
    var best, epochs, stopped, saved, trained :=
      Epochs.TrainUntilStagnant(cfg.ensembleSize, cfg.batchSize, trainSize, samples, losses);
    if !stopped {
      return OutOfEpochs(Calls(parts.train, parts.val, trained, saved, [], epochs));
    }
    var selected := Selection.SelectBestIndexes(best, cfg.ensembleSelected);
    var name := Artifact.ArtifactName(cfg.task, cfg.level, cfg.amount, cfg.seed);
    var path := Artifact.Join(cfg.dynamicsPath, name);
    Artifact.JoinEndsWithName(cfg.dynamicsPath, name);
    run := Returned(Outcome(performance, path), Calls(parts.train, parts.val, trained, saved, selected, epochs));
  }
}
