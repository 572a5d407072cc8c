/** The train/validation split of `training_dynamics`: the two sizes, and the
    two index lists `random_split` cuts from a random permutation. */
module Split {

  /** The sizes `(train_size, val_size)`; `train_size` is negative for an empty
      buffer, as in the source. */
  datatype Sizes = Sizes(train: int, val: nat)

  /** `val_size = min(int(N * 0.2) + 1, 1000)` and `train_size = N - val_size`,
      with `int(N * 0.2)` taken as `N / 5`. */
  function SplitSizes(n: nat): (s: Sizes)
    ensures s.train + s.val == n
    ensures 1 <= s.val <= 1000
    ensures s.val < 1000 ==> 5 * (s.val - 1) <= n < 5 * s.val
    ensures s.val == 1000 <==> 4995 <= n
    ensures 1 <= n ==> 0 <= s.train && s.val <= n
    ensures 1 <= s.train <==> 2 <= n
  {
    var val := if n / 5 + 1 < 1000 then n / 5 + 1 else 1000;
    Sizes(n - val, val)
  }

  /** What `randperm(n)` yields: each of `0 .. n-1` exactly once. */
  predicate IsPermutation(perm: seq<nat>, n: nat) {
    && |perm| == n
    && (forall i :: 0 <= i < n ==> perm[i] < n)
    && (forall x :: 0 <= x < n ==> x in perm)
    && (forall i, j :: 0 <= i < j < n ==> perm[i] != perm[j])
  }

  /** The index lists of the two subsets. */
  datatype Parts = Parts(train: seq<nat>, val: seq<nat>)

  /** `random_split(range(n), (train_size, val_size))` for the permutation `perm`
      it draws: the first `train_size` entries go to training, the rest to
      validation. */
  function RandomSplit(perm: seq<nat>, n: nat): (p: Parts)
    requires 1 <= n && IsPermutation(perm, n)
    ensures |p.train| == SplitSizes(n).train && |p.val| == SplitSizes(n).val
    ensures forall x :: x in p.train || x in p.val <==> 0 <= x < n
    ensures forall x :: x in p.train ==> x !in p.val
  {
    var t := SplitSizes(n).train;
    var p := Parts(perm[..t], perm[t..]);
    assert forall x :: x in p.train || x in p.val <==> x in perm by {
      assert perm == p.train + p.val;
    }
    forall x | x in p.train ensures x !in p.val {
      var i :| 0 <= i < t && perm[i] == x;
      assert forall j :: t <= j < n ==> perm[j] != perm[i];
    }
    p
  }
}
