/** The epoch loop of `training_dynamics`: train on mini-batches, compare each
    member's new validation loss with its best, reset or advance the stagnation
    counter, and stop once five epochs in a row improved no member. */
module Epochs {
  import opened Losses
  import Batches

  /** When the stagnation counter reaches this value the loop breaks. */
  const Patience: nat := 5

  /** The number of members `zip(range(len(val_losses)), new_val_losses,
      val_losses)` visits. */
  function Paired(best: seq<Loss>, latest: seq<Loss>): nat {
    if |latest| < |best| then |latest| else |best|
  }

  /** Member `i` improves: its new loss is strictly below its recorded best. */
  predicate Improves(best: seq<Loss>, latest: seq<Loss>, i: nat) {
    i < Paired(best, latest) && Less(latest[i], best[i])
  }

  /** The best losses after one epoch's comparison. */
  function Improve(best: seq<Loss>, latest: seq<Loss>): (r: seq<Loss>)
    ensures |r| == |best|
    ensures forall i :: 0 <= i < |best| ==> LessEq(r[i], best[i])
  {
    seq(|best|, i requires 0 <= i < |best| =>
      if Improves(best, latest, i) then latest[i] else best[i])
  }

  /** The list `indexes` built by the comparison loop after its first `k` steps. */
  function ImprovedUpTo(best: seq<Loss>, latest: seq<Loss>, k: nat): seq<nat>
    requires k <= Paired(best, latest)
  {
    if k == 0 then []
    else ImprovedUpTo(best, latest, k - 1) + (if Improves(best, latest, k - 1) then [k - 1] else [])
  }

  /** The list `indexes` handed to `update_save` (when non-empty). */
  function ImprovedIndexes(best: seq<Loss>, latest: seq<Loss>): (indexes: seq<nat>)
    ensures forall i: nat :: i in indexes <==> Improves(best, latest, i)
    ensures forall a, b :: 0 <= a < b < |indexes| ==> indexes[a] < indexes[b]
  {
    ImprovedUpToIsExact(best, latest, Paired(best, latest));
    ImprovedUpTo(best, latest, Paired(best, latest))
  }

  /** A best entry is replaced exactly when the new loss is strictly smaller, so
      it becomes the smaller of the two and never grows; the length is kept. */
  lemma ImproveIsPointwiseMin(best: seq<Loss>, latest: seq<Loss>)
    ensures |Improve(best, latest)| == |best|
    ensures forall i :: 0 <= i < |best| ==>
      (Improve(best, latest)[i] != best[i] <==> Improves(best, latest, i))
    ensures forall i :: 0 <= i < |best| ==>
      LessEq(Improve(best, latest)[i], best[i])
    ensures forall i :: 0 <= i < Paired(best, latest) ==>
      LessEq(Improve(best, latest)[i], latest[i])
      && (Improve(best, latest)[i] == best[i] || Improve(best, latest)[i] == latest[i])
  {
  }

  /** `indexes` lists exactly the improving members, in ascending order. */
  lemma {:induction false} ImprovedUpToIsExact(best: seq<Loss>, latest: seq<Loss>, k: nat)
    requires k <= Paired(best, latest)
    ensures forall i: nat :: i in ImprovedUpTo(best, latest, k) <==> i < k && Improves(best, latest, i)
    ensures forall a, b :: 0 <= a < b < |ImprovedUpTo(best, latest, k)| ==>
      ImprovedUpTo(best, latest, k)[a] < ImprovedUpTo(best, latest, k)[b]
  {
    if k > 0 {
      ImprovedUpToIsExact(best, latest, k - 1);
      var prev := ImprovedUpTo(best, latest, k - 1);
      var extra: seq<nat> := if Improves(best, latest, k - 1) then [k - 1] else [];
      assert ImprovedUpTo(best, latest, k) == prev + extra;
      assert forall a :: 0 <= a < |prev| ==> prev[a] < k - 1 by {
        forall a | 0 <= a < |prev| ensures prev[a] < k - 1 {
          assert prev[a] in prev;
        }
      }
    }
  }

  lemma ImprovedIndexesIsExact(best: seq<Loss>, latest: seq<Loss>)
    ensures forall i: nat :: i in ImprovedIndexes(best, latest) <==> Improves(best, latest, i)
    ensures forall a, b :: 0 <= a < b < |ImprovedIndexes(best, latest)| ==>
      ImprovedIndexes(best, latest)[a] < ImprovedIndexes(best, latest)[b]
    ensures ImprovedIndexes(best, latest) == [] <==> forall i: nat :: !Improves(best, latest, i)
    ensures ImprovedIndexes(best, latest) == [] <==> Improve(best, latest) == best
  {
    ImprovedUpToIsExact(best, latest, Paired(best, latest));
    ImproveIsPointwiseMin(best, latest);
    if ImprovedIndexes(best, latest) != [] {
      assert ImprovedIndexes(best, latest)[0] in ImprovedIndexes(best, latest);
    }
    if Improve(best, latest) == best {
      forall i: nat ensures !Improves(best, latest, i) {
        if i < |best| {
          assert Improve(best, latest)[i] == best[i];
        }
      }
    }
  }

  /** The comparison loop, lines 96-100: `val_losses` is updated in place and
      the improving indices are appended in ascending order. */
  method UpdateBest(valLosses: array<Loss>, latest: seq<Loss>) returns (indexes: seq<nat>)
    modifies valLosses
    ensures valLosses[..] == Improve(old(valLosses[..]), latest)
    ensures indexes == ImprovedIndexes(old(valLosses[..]), latest)
  {
    ghost var before := valLosses[..];
    var count := Paired(valLosses[..], latest);
    indexes := [];
    for i := 0 to count
      invariant indexes == ImprovedUpTo(before, latest, i)
      invariant forall j :: 0 <= j < i ==> valLosses[j] == Improve(before, latest)[j]
      invariant forall j :: i <= j < valLosses.Length ==> valLosses[j] == before[j]
    {
      var newLoss, oldLoss := latest[i], valLosses[i];
      if Less(newLoss, oldLoss) {
        indexes := indexes + [i];
        valLosses[i] := newLoss;
      }
    }
  }

  /** The loop state after some epochs: the best losses, the stagnation counter,
      and the improving index list of every epoch so far. */
  datatype State = State(best: seq<Loss>, cnt: nat, improved: seq<seq<nat>>)

  /** Before the first epoch: every member's best is `+infinity`. */
  function Start(ensembleSize: nat): (s: State)
    ensures |s.best| == ensembleSize && s.cnt == 0 && s.improved == []
    ensures forall i, l: Loss :: 0 <= i < ensembleSize ==> LessEq(l, s.best[i])
  {
    State(seq(ensembleSize, _ => Inf), 0, [])
  }

  /** One epoch, lines 96-106. */
  function Step(s: State, latest: seq<Loss>): (r: State)
    ensures |r.best| == |s.best| && r.improved == s.improved + [ImprovedIndexes(s.best, latest)]
    ensures r.cnt != 0 ==> r.cnt == s.cnt + 1 && r.best == s.best
  {
    ImprovedIndexesIsExact(s.best, latest);
    var indexes := ImprovedIndexes(s.best, latest);
    State(Improve(s.best, latest), if |indexes| > 0 then 0 else s.cnt + 1, s.improved + [indexes])
  }

  /** The state after the first `k` per-epoch loss vectors, ignoring the break. */
  function After(ensembleSize: nat, losses: seq<seq<Loss>>, k: nat): (s: State)
    requires k <= |losses|
    ensures |s.improved| == k && |s.best| == ensembleSize
  {
    if k == 0 then Start(ensembleSize) else Step(After(ensembleSize, losses, k - 1), losses[k - 1])
  }

  /** The lists passed to `update_save`: the non-empty improving lists. */
  function Saved(improved: seq<seq<nat>>): seq<seq<nat>> {
    if improved == [] then []
    else
      var last := improved[|improved| - 1];
      Saved(improved[..|improved| - 1]) + (if last != [] then [last] else [])
  }

  /** The number of epochs at the end of the history that improved nothing. */
  function Trailing(improved: seq<seq<nat>>): nat {
    if improved == [] || improved[|improved| - 1] != [] then 0
    else Trailing(improved[..|improved| - 1]) + 1
  }

  /** Epochs `from .. to-1` of the history improved no member. */
  predicate Stagnant(improved: seq<seq<nat>>, from: int, to: int) {
    forall j :: from <= j < to && 0 <= j < |improved| ==> improved[j] == []
  }

  /** The five epochs before epoch `j` (epochs `j-5 .. j-1`) improved nothing. */
  predicate StagnantBefore(improved: seq<seq<nat>>, j: int) {
    Patience <= j && Stagnant(improved, j - Patience, j)
  }

  /** The break was not taken at any epoch before `k`. */
  ghost predicate NoBreakBefore(ensembleSize: nat, losses: seq<seq<Loss>>, k: nat)
    requires k <= |losses|
  {
    forall j :: 0 <= j < k ==> After(ensembleSize, losses, j).cnt < Patience
  }

  /** The loop ran `k` epochs: the break was not taken before epoch `k`, and it
      is taken at `k` exactly when `stopped`; a run that does not stop has used
      every supplied epoch. */
  ghost predicate StopsAt(ensembleSize: nat, losses: seq<seq<Loss>>, k: nat, stopped: bool) {
    && k <= |losses|
    && NoBreakBefore(ensembleSize, losses, k)
    && (stopped <==> After(ensembleSize, losses, k).cnt >= Patience)
    && (!stopped ==> k == |losses|)
  }

  /** The counter always equals the number of trailing stagnant epochs; the
      history is one list per epoch and the best list keeps its length. */
  lemma {:induction false} CounterCountsStagnation(ensembleSize: nat, losses: seq<seq<Loss>>, k: nat)
    requires k <= |losses|
    ensures After(ensembleSize, losses, k).cnt == Trailing(After(ensembleSize, losses, k).improved)
    ensures After(ensembleSize, losses, k).cnt <= k
  {
    if k > 0 {
      CounterCountsStagnation(ensembleSize, losses, k - 1);
      var prev := After(ensembleSize, losses, k - 1);
      assert After(ensembleSize, losses, k).improved[..k - 1] == prev.improved;
    }
  }

  /** Earlier states' histories are prefixes of later ones. */
  lemma {:induction false} HistoryGrows(ensembleSize: nat, losses: seq<seq<Loss>>, j: nat, k: nat)
    requires j <= k <= |losses|
    ensures After(ensembleSize, losses, k).improved[..j] == After(ensembleSize, losses, j).improved
    decreases k
  {
    if j < k {
      HistoryGrows(ensembleSize, losses, j, k - 1);
      var prev := After(ensembleSize, losses, k - 1).improved;
      var h := After(ensembleSize, losses, k).improved;
      assert h == prev + [h[k - 1]];
      assert h[..k - 1] == prev;
      assert h[..j] == prev[..j];
    }
  }

  /** `Trailing(h) >= w` says the last `w` epochs of `h` improved nothing. */
  lemma {:induction false} TrailingWindow(h: seq<seq<nat>>, w: nat)
    ensures Trailing(h) >= w <==> w <= |h| && Stagnant(h, |h| - w, |h|)
    decreases w
  {
    if w > 0 && h != [] {
      var init := h[..|h| - 1];
      TrailingWindow(init, w - 1);
      assert Stagnant(h, |h| - w, |h|) <==> h[|h| - 1] == [] && Stagnant(init, |init| - (w - 1), |init|);
    }
  }

  /** Every member's best loss is non-increasing from epoch to epoch. */
  lemma {:induction false} BestNeverIncreases(ensembleSize: nat, losses: seq<seq<Loss>>, j: nat, k: nat)
    requires j <= k <= |losses|
    ensures |After(ensembleSize, losses, k).best| == |After(ensembleSize, losses, j).best| == ensembleSize
    ensures forall i :: 0 <= i < ensembleSize ==>
      LessEq(After(ensembleSize, losses, k).best[i], After(ensembleSize, losses, j).best[i])
    decreases k
  {
    if j < k {
      BestNeverIncreases(ensembleSize, losses, j, k - 1);
      var prev := After(ensembleSize, losses, k - 1).best;
      var now := After(ensembleSize, losses, k).best;
      var earlier := After(ensembleSize, losses, j).best;
      assert now == Improve(prev, losses[k - 1]);
      forall i | 0 <= i < ensembleSize ensures LessEq(now[i], earlier[i]) {
        LessEqTransitive(now[i], prev[i], earlier[i]);
      }
    }
  }

  /** The loop stops at epoch `k` exactly when epochs `k-5 .. k-1` improved
      nothing, and no earlier window of five epochs was stagnant. */
  lemma StopMeansFiveStagnantEpochs(ensembleSize: nat, losses: seq<seq<Loss>>, k: nat, stopped: bool)
    requires StopsAt(ensembleSize, losses, k, stopped)
    ensures var h := After(ensembleSize, losses, k).improved;
      && (stopped <==> StagnantBefore(h, k))
      && (forall j :: 0 <= j < k ==> !StagnantBefore(h, j))
  {
    var h := After(ensembleSize, losses, k).improved;
    CounterCountsStagnation(ensembleSize, losses, k);
    TrailingWindow(h, Patience);
    forall j | 0 <= j < k ensures !StagnantBefore(h, j) {
      NoStagnantWindowBefore(ensembleSize, losses, j, k);
    }
  }

  /** A counter below five at epoch `j` rules out five stagnant epochs before `j`. */
  lemma NoStagnantWindowBefore(ensembleSize: nat, losses: seq<seq<Loss>>, j: nat, k: nat)
    requires j <= k <= |losses|
    requires After(ensembleSize, losses, j).cnt < Patience
    ensures !StagnantBefore(After(ensembleSize, losses, k).improved, j)
  {
    var h := After(ensembleSize, losses, k).improved;
    CounterCountsStagnation(ensembleSize, losses, j);
    HistoryGrows(ensembleSize, losses, j, k);
    TrailingWindow(h[..j], Patience);
  }

  /** The break is taken when the counter reaches five, never beyond it. */
  lemma StopsWithCounterFive(ensembleSize: nat, losses: seq<seq<Loss>>, k: nat)
    requires StopsAt(ensembleSize, losses, k, true)
    ensures Patience <= k && After(ensembleSize, losses, k).cnt == Patience
  {
    CounterCountsStagnation(ensembleSize, losses, k);
    assert After(ensembleSize, losses, k - 1).cnt < Patience;
  }

  /** The run length and the outcome are determined by the losses. */
  lemma StopsAtIsUnique(ensembleSize: nat, losses: seq<seq<Loss>>, k1: nat, s1: bool, k2: nat, s2: bool)
    requires StopsAt(ensembleSize, losses, k1, s1) && StopsAt(ensembleSize, losses, k2, s2)
    ensures k1 == k2 && s1 == s2
  {
  }

  /** Starting from `+infinity`, a first epoch whose losses are all finite
      improves every member, which takes over the epoch's losses. */
  lemma FirstEpochImprovesAll(ensembleSize: nat, latest: seq<Loss>)
    requires ensembleSize <= |latest|
    requires forall i :: 0 <= i < ensembleSize ==> latest[i].Fin?
    ensures ImprovedIndexes(Start(ensembleSize).best, latest) == seq(ensembleSize, i => i)
    ensures Improve(Start(ensembleSize).best, latest) == latest[..ensembleSize]
  {
    AllImproveUpTo(Start(ensembleSize).best, latest, ensembleSize);
  }

  lemma {:induction false} AllImproveUpTo(best: seq<Loss>, latest: seq<Loss>, k: nat)
    requires k <= Paired(best, latest)
    requires forall i :: 0 <= i < k ==> Improves(best, latest, i)
    ensures ImprovedUpTo(best, latest, k) == seq(k, i => i)
  {
    if k > 0 {
      AllImproveUpTo(best, latest, k - 1);
      assert seq(k, i => i) == seq(k - 1, i => i) + [k - 1];
    }
  }

  /** Losses that never come below the first epoch's keep the history flat. */
  lemma {:induction false} FlatAfterFirstEpoch(ensembleSize: nat, losses: seq<seq<Loss>>, j: nat)
    requires 1 <= j <= |losses| && 1 <= ensembleSize <= |losses[0]|
    requires forall i :: 0 <= i < ensembleSize ==> losses[0][i].Fin?
    requires forall e, i :: 1 <= e < |losses| && 0 <= i < ensembleSize && i < |losses[e]| ==>
      LessEq(losses[0][i], losses[e][i])
    ensures After(ensembleSize, losses, j).best == losses[0][..ensembleSize]
    ensures After(ensembleSize, losses, j).cnt == j - 1
  {
    if j == 1 {
      FirstEpochImprovesAll(ensembleSize, losses[0]);
      assert After(ensembleSize, losses, 0) == Start(ensembleSize);
      assert |ImprovedIndexes(Start(ensembleSize).best, losses[0])| == ensembleSize;
    } else {
      FlatAfterFirstEpoch(ensembleSize, losses, j - 1);
      var best, latest := After(ensembleSize, losses, j - 1).best, losses[j - 1];
      ImprovedIndexesIsExact(best, latest);
      forall i: nat ensures !Improves(best, latest, i) {
        if i < Paired(best, latest) {
          LessIsStrictTotalOrder(losses[0][i], losses[j - 1][i], losses[0][i]);
        }
      }
    }
  }

  /** When the first epoch's losses are all finite and no later epoch brings a
      member's loss below them, the loop runs exactly six epochs: one that
      improves everything and five stagnant ones. */
  lemma SixEpochs(ensembleSize: nat, losses: seq<seq<Loss>>)
    requires 1 <= ensembleSize && 6 <= |losses| && ensembleSize <= |losses[0]|
    requires forall i :: 0 <= i < ensembleSize ==> losses[0][i].Fin?
    requires forall e, i :: 1 <= e < |losses| && 0 <= i < ensembleSize && i < |losses[e]| ==>
      LessEq(losses[0][i], losses[e][i])
    ensures StopsAt(ensembleSize, losses, 6, true)
    ensures After(ensembleSize, losses, 6).best == losses[0][..ensembleSize]
  {
    forall j | 0 <= j < 6 ensures After(ensembleSize, losses, j).cnt < Patience {
      if j > 0 {
        FlatAfterFirstEpoch(ensembleSize, losses, j);
      }
    }
    FlatAfterFirstEpoch(ensembleSize, losses, 6);
  }

  /** If no member's loss ever drops below `+infinity` (no members, or only
      infinite losses), the loop stops after exactly five epochs. */
  lemma FiveEpochsWithoutImprovement(ensembleSize: nat, losses: seq<seq<Loss>>)
    requires 5 <= |losses|
    requires forall e, i :: 0 <= e < |losses| && 0 <= i < ensembleSize && i < |losses[e]| ==>
      losses[e][i] == Inf
    ensures StopsAt(ensembleSize, losses, 5, true)
  {
    forall j | 0 <= j <= 5 ensures After(ensembleSize, losses, j).cnt == j {
      NothingImproves(ensembleSize, losses, j);
    }
  }

  lemma {:induction false} NothingImproves(ensembleSize: nat, losses: seq<seq<Loss>>, j: nat)
    requires j <= |losses|
    requires forall e, i :: 0 <= e < |losses| && 0 <= i < ensembleSize && i < |losses[e]| ==>
      losses[e][i] == Inf
    ensures After(ensembleSize, losses, j).best == Start(ensembleSize).best
    ensures After(ensembleSize, losses, j).cnt == j
  {
    if j > 0 {
      NothingImproves(ensembleSize, losses, j - 1);
      var best, latest := After(ensembleSize, losses, j - 1).best, losses[j - 1];
      ImprovedIndexesIsExact(best, latest);
      forall i: nat ensures !Improves(best, latest, i) {
      }
    }
  }

  /** The loop's variables after `k` epochs agree with `After`. */
  ghost predicate Tracks(ensembleSize: nat, losses: seq<seq<Loss>>, k: nat,
                         best: seq<Loss>, cnt: nat, saved: seq<seq<nat>>)
  {
    && k <= |losses|
    && best == After(ensembleSize, losses, k).best
    && cnt == After(ensembleSize, losses, k).cnt
    && saved == Saved(After(ensembleSize, losses, k).improved)
  }

  /** One more epoch: the best losses are updated, the counter is reset on any
      improvement and otherwise advanced, and a non-empty improving list is
      saved. */
  lemma NextEpoch(ensembleSize: nat, losses: seq<seq<Loss>>, k: nat,
                  best: seq<Loss>, cnt: nat, saved: seq<seq<nat>>)
    requires k < |losses| && Tracks(ensembleSize, losses, k, best, cnt, saved)
    requires NoBreakBefore(ensembleSize, losses, k) && cnt < Patience
    ensures var indexes := ImprovedIndexes(best, losses[k]);
      Tracks(ensembleSize, losses, k + 1, Improve(best, losses[k]),
             if |indexes| > 0 then 0 else cnt + 1,
             saved + (if indexes != [] then [indexes] else []))
    ensures NoBreakBefore(ensembleSize, losses, k + 1)
  {
    var s := After(ensembleSize, losses, k);
    var indexes := ImprovedIndexes(s.best, losses[k]);
    assert After(ensembleSize, losses, k + 1).improved == s.improved + [indexes];
    assert (s.improved + [indexes])[..k] == s.improved;
  }

  /** Epoch `e` trained on the mini-batches of its sample, for every epoch run. */
  ghost predicate EpochsBatched(trained: seq<seq<seq<seq<nat>>>>, samples: seq<seq<seq<nat>>>,
                                trainSize: nat, batchSize: nat)
    requires 0 < batchSize
  {
    && |trained| <= |samples|
    && forall e :: 0 <= e < |trained| ==> Batches.BatchesOf(trained[e], samples[e], trainSize, batchSize)
  }

  lemma BatchedOneMore(trained: seq<seq<seq<seq<nat>>>>, samples: seq<seq<seq<nat>>>,
                       trainSize: nat, batchSize: nat, batches: seq<seq<seq<nat>>>)
    requires 0 < batchSize && |trained| < |samples|
    requires EpochsBatched(trained, samples, trainSize, batchSize)
    requires Batches.BatchesOf(batches, samples[|trained|], trainSize, batchSize)
    ensures EpochsBatched(trained + [batches], samples, trainSize, batchSize)
  {
  }

  /** The body of one epoch, lines 88-106: train on the mini-batches of the
      sample, compare the new losses with the best ones in place, and reset or
      advance the stagnation counter. */
  method RunEpoch(valLosses: array<Loss>, cnt: nat, sample: seq<seq<nat>>, latest: seq<Loss>,
                  trainSize: nat, batchSize: nat)
    returns (batches: seq<seq<seq<nat>>>, indexes: seq<nat>, newCnt: nat)
    requires 0 < batchSize && Batches.Rectangular(sample, trainSize)
    modifies valLosses
    ensures Batches.BatchesOf(batches, sample, trainSize, batchSize)
    ensures valLosses[..] == Improve(old(valLosses[..]), latest)
    ensures indexes == ImprovedIndexes(old(valLosses[..]), latest)
    ensures newCnt == if |indexes| > 0 then 0 else cnt + 1
  {
    batches := Batches.MiniBatches(sample, trainSize, batchSize);
    indexes := UpdateBest(valLosses, latest);
    if |indexes| > 0 {
      newCnt := 0;
    } else {
      newCnt := cnt + 1;
    }
  }

  /** The epoch loop, lines 82-109, driven by the supplied per-epoch bootstrap
      samples and validation losses. It returns the best losses, the number of
      epochs run, whether the break was taken, the lists passed to
      `update_save`, and the mini-batches of every epoch. */
  method TrainUntilStagnant(ensembleSize: nat, batchSize: nat, trainSize: nat,
                            samples: seq<seq<seq<nat>>>, losses: seq<seq<Loss>>)
    returns (best: seq<Loss>, epochs: nat, stopped: bool, saved: seq<seq<nat>>,
             trained: seq<seq<seq<seq<nat>>>>)
    requires 0 < batchSize && |samples| == |losses|
    requires forall e :: 0 <= e < |samples| ==> Batches.Rectangular(samples[e], trainSize)
    ensures StopsAt(ensembleSize, losses, epochs, stopped)
    ensures best == After(ensembleSize, losses, epochs).best
    ensures saved == Saved(After(ensembleSize, losses, epochs).improved)
    ensures |trained| == epochs
    ensures EpochsBatched(trained, samples, trainSize, batchSize)
  {
    var valLosses := new Loss[ensembleSize](_ => Inf);
    var cnt := 0;
    epochs, stopped, saved, trained := 0, false, [], [];
    while epochs < |losses|
      invariant Tracks(ensembleSize, losses, epochs, valLosses[..], cnt, saved)
      invariant NoBreakBefore(ensembleSize, losses, epochs) && cnt < Patience
      invariant |trained| == epochs
      invariant EpochsBatched(trained, samples, trainSize, batchSize)
    {
      NextEpoch(ensembleSize, losses, epochs, valLosses[..], cnt, saved);
      var batches, indexes;
      batches, indexes, cnt := RunEpoch(valLosses, cnt, samples[epochs], losses[epochs], trainSize, batchSize);
      BatchedOneMore(trained, samples, trainSize, batchSize, batches);
      trained := trained + [batches];
      if |indexes| > 0 {
        saved := saved + [indexes];
      }
      epochs := epochs + 1;
      if cnt >= Patience {
        stopped := true;
        break;
      }
    }
    best := valLosses[..];
  }
}
