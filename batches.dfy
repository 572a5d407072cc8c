/** The mini-batch loop of an epoch: the bootstrap sample of each member, a row
    of `T` indices, is cut into `ceil(T / batch_size)` consecutive slices. */
module Batches {

  /** `int(np.ceil(T / batch_size))`. */
  function NumBatches(t: nat, bs: nat): (nb: nat)
    requires 0 < bs
    ensures t <= nb * bs
    ensures nb == 0 || (nb - 1) * bs < t
    ensures nb == 0 <==> t == 0
  {
    var nb := (t + bs - 1) / bs;
    assert (t + bs - 1) == nb * bs + (t + bs - 1) % bs;
    nb
  }

  /** Slice `b` of a row is `[BatchStart(b) .. BatchEnd(b))`: numpy clamps the
      end `(b + 1) * batch_size` to the row length. */
  function BatchStart(b: nat, bs: nat): nat {
    b * bs
  }

  function BatchEnd(b: nat, t: nat, bs: nat): nat {
    if (b + 1) * bs < t then (b + 1) * bs else t
  }

  /** Every slice is non-empty and inside the row, follows its predecessor
      without gap, and has width `batch_size` except, possibly, the last. */
  lemma BatchShape(t: nat, bs: nat, b: nat)
    requires 0 < bs && b < NumBatches(t, bs)
    ensures BatchStart(b, bs) < BatchEnd(b, t, bs) <= t
    ensures b + 1 < NumBatches(t, bs) ==>
      BatchEnd(b, t, bs) - BatchStart(b, bs) == bs && BatchEnd(b, t, bs) == BatchStart(b + 1, bs)
    ensures b + 1 == NumBatches(t, bs) ==> BatchEnd(b, t, bs) == t
    ensures BatchEnd(b, t, bs) - BatchStart(b, bs) <= bs
  {
    var nb := NumBatches(t, bs);
    assert b * bs <= (nb - 1) * bs by { MulMonotone(b, nb - 1, bs); }
    if b + 1 < nb {
      assert (b + 1) * bs <= (nb - 1) * bs by { MulMonotone(b + 1, nb - 1, bs); }
    } else {
      assert (b + 1) * bs == nb * bs;
    }
  }

  lemma MulMonotone(x: nat, y: nat, z: nat)
    requires x <= y
    ensures x * z <= y * z
  {
  }

  /** BatchShape for every slice at once. */
  lemma BatchSizes(t: nat, bs: nat)
    requires 0 < bs
    ensures forall b :: 0 <= b < NumBatches(t, bs) ==>
      BatchStart(b, bs) < BatchEnd(b, t, bs) <= t && BatchEnd(b, t, bs) - BatchStart(b, bs) <= bs
  {
    forall b | 0 <= b < NumBatches(t, bs)
      ensures BatchStart(b, bs) < BatchEnd(b, t, bs) <= t && BatchEnd(b, t, bs) - BatchStart(b, bs) <= bs
    {
      BatchShape(t, bs, b);
    }
  }

  /** Slices are pairwise disjoint and in order. */
  lemma BatchesAreDisjoint(t: nat, bs: nat, b: nat, c: nat)
    requires 0 < bs && b < c < NumBatches(t, bs)
    ensures BatchEnd(b, t, bs) <= BatchStart(c, bs)
  {
    MulMonotone(b + 1, c, bs);
  }

  /** Position `k` of the row lies in slice `k / batch_size`; with the slices
      disjoint, it lies in no other, so the slices cover the row exactly once. */
  lemma PositionInBatch(t: nat, bs: nat, k: nat)
    requires 0 < bs && k < t
    ensures k / bs < NumBatches(t, bs)
    ensures BatchStart(k / bs, bs) <= k < BatchEnd(k / bs, t, bs)
  {
    var q := k / bs;
    assert k == q * bs + k % bs;
    assert q * bs <= k < (q + 1) * bs;
    var nb := NumBatches(t, bs);
    if nb <= q {
      MulMonotone(nb, q, bs);
    }
  }

  /** The slices of one row, in order. */
  function RowBatches(row: seq<nat>, bs: nat): (slices: seq<seq<nat>>)
    requires 0 < bs
    ensures |slices| == NumBatches(|row|, bs)
    ensures forall b :: 0 <= b < |slices| ==> 0 < |slices[b]| <= bs
  {
    BatchSizes(|row|, bs);
    var t := |row|;
    seq(NumBatches(t, bs), b requires 0 <= b < NumBatches(t, bs) =>
      BatchShape(t, bs, b); row[BatchStart(b, bs)..BatchEnd(b, t, bs)])
  }

  function Flatten(slices: seq<seq<nat>>): seq<nat> {
    if slices == [] then [] else Flatten(slices[..|slices| - 1]) + slices[|slices| - 1]
  }

  /** Concatenated in order, the slices give back the whole row: every sampled
      index is trained on once, in sample order. */
  lemma RowBatchesCoverRow(row: seq<nat>, bs: nat)
    requires 0 < bs
    ensures Flatten(RowBatches(row, bs)) == row
  {
    var t := |row|;
    var slices := RowBatches(row, bs);
    var nb := |slices|;
    if nb > 0 {
      PrefixesFlatten(row, bs, nb);
      BatchShape(t, bs, nb - 1);
      assert slices[..nb] == slices;
    }
  }

  lemma {:induction false} PrefixesFlatten(row: seq<nat>, bs: nat, j: nat)
    requires 0 < bs && 0 < j <= NumBatches(|row|, bs)
    ensures Flatten(RowBatches(row, bs)[..j]) == row[..BatchEnd(j - 1, |row|, bs)]
  {
    var t := |row|;
    var slices := RowBatches(row, bs);
    BatchShape(t, bs, j - 1);
    assert slices[..j][..j - 1] == slices[..j - 1];
    if j == 1 {
      assert slices[..1][..0] == slices[..0];
    } else {
      PrefixesFlatten(row, bs, j - 1);
      BatchShape(t, bs, j - 2);
      assert row[..BatchEnd(j - 1, t, bs)] == row[..BatchEnd(j - 2, t, bs)] + row[BatchStart(j - 1, bs)..BatchEnd(j - 1, t, bs)];
    }
  }

  /** All rows have the sample length `t`. */
  predicate Rectangular(rows: seq<seq<nat>>, t: nat) {
    forall m :: 0 <= m < |rows| ==> |rows[m]| == t
  }

  /** `batches` is the mini-batch sequence of the sample `rows`: there are
      `ceil(t / bs)` batches, and batch `b` holds slice `b` of every member's row. */
  ghost predicate BatchesOf(batches: seq<seq<seq<nat>>>, rows: seq<seq<nat>>, t: nat, bs: nat)
    requires 0 < bs
  {
    && Rectangular(rows, t)
    && |batches| == NumBatches(t, bs)
    && (forall b :: 0 <= b < |batches| ==> |batches[b]| == |rows|)
    && (forall b, m :: 0 <= b < |batches| && 0 <= m < |rows| ==>
          batches[b][m] == RowBatches(rows[m], bs)[b])
  }

  /** The mini-batch loop: batch `b` is `idxs[:, b * batch_size : (b + 1) * batch_size]`. */
  method MiniBatches(rows: seq<seq<nat>>, t: nat, bs: nat) returns (batches: seq<seq<seq<nat>>>)
    requires 0 < bs && Rectangular(rows, t)
    ensures BatchesOf(batches, rows, t, bs)
  {
    var nb := NumBatches(t, bs);
    batches := [];
    for b := 0 to nb
      invariant |batches| == b
      invariant forall c :: 0 <= c < b ==> |batches[c]| == |rows|
      invariant forall c, m :: 0 <= c < b && 0 <= m < |rows| ==>
        batches[c][m] == RowBatches(rows[m], bs)[c]
    {
      BatchShape(t, bs, b);
      var lo, hi := BatchStart(b, bs), BatchEnd(b, t, bs);
      var batch := seq(|rows|, m requires 0 <= m < |rows| => rows[m][lo..hi]);
      batches := batches + [batch];
    }
  }
}
