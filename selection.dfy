/** `_select_best_indexes`: the indices of the `n` members with the lowest loss,
    found by a stable sort of (metric, index) pairs on the metric. */
module Selection {
  import opened Losses

  /** One `(metric, index)` pair of the list the selection sorts. */
  datatype Entry = Entry(metric: Loss, index: nat)

  /** The order a stable sort on the metric leaves the pairs in: by metric, and
      among equal metrics by original index. */
  predicate Precedes(p: Entry, q: Entry) {
    Less(p.metric, q.metric) || (p.metric == q.metric && p.index < q.index)
  }

  lemma PrecedesTransitive(p: Entry, q: Entry, r: Entry)
    requires Precedes(p, q) && Precedes(q, r)
    ensures Precedes(p, r)
  {
  }

  predicate Ranked(s: seq<Entry>) {
    forall i, j :: 0 <= i < j < |s| ==> Precedes(s[i], s[j])
  }

  /** The input order: original indices strictly increase along the list. */
  predicate IndexIncreasing(s: seq<Entry>) {
    forall i, j :: 0 <= i < j < |s| ==> s[i].index < s[j].index
  }

  /** The pairs `zip(metrics, range(len(metrics)))`. */
  function Enumerate(metrics: seq<Loss>): (s: seq<Entry>)
    ensures |s| == |metrics| && IndexIncreasing(s)
    ensures forall j :: 0 <= j < |metrics| ==> Entry(metrics[j], j) in s
  {
    var s := seq(|metrics|, i requires 0 <= i < |metrics| => Entry(metrics[i], i));
    assert forall j :: 0 <= j < |metrics| ==> s[j] == Entry(metrics[j], j) && s[j] in s;
    s
  }

  /** Inserts `p` in front of the first pair whose metric is not below its own,
      so that it stays ahead of the pairs with an equal metric that follow it. */
  function Insert(p: Entry, s: seq<Entry>): (r: seq<Entry>)
    ensures multiset(r) == multiset(s) + multiset{p}
  {
    if s == [] || LessEq(p.metric, s[0].metric) then [p] + s
    else
      assert s == [s[0]] + s[1..];
      [s[0]] + Insert(p, s[1..])
  }

  /** Inserting a pair whose index is smaller than every index in a ranked list
      keeps it ranked: it goes ahead of the pairs with an equal metric. */
  lemma {:induction false} InsertKeepsRanked(p: Entry, s: seq<Entry>)
    requires Ranked(s)
    requires forall k :: 0 <= k < |s| ==> p.index < s[k].index
    ensures Ranked(Insert(p, s))
  {
    if s == [] {
    } else if LessEq(p.metric, s[0].metric) {
      LessIsStrictTotalOrder(p.metric, s[0].metric, s[0].metric);
      assert Precedes(p, s[0]);
      forall k | 1 <= k < |s| ensures Precedes(p, s[k]) {
        PrecedesTransitive(p, s[0], s[k]);
      }
      assert Insert(p, s) == [p] + s;
    } else {
      LessIsStrictTotalOrder(p.metric, s[0].metric, s[0].metric);
      var tail := s[1..];
      assert Ranked(tail);
      InsertKeepsRanked(p, tail);
      var rest := Insert(p, tail);
      forall k | 0 <= k < |rest| ensures Precedes(s[0], rest[k]) {
        assert rest[k] in multiset(rest);
        assert rest[k] == p || rest[k] in multiset(tail);
        if rest[k] != p {
          var m :| 0 <= m < |tail| && tail[m] == rest[k];
          assert s[m + 1] == rest[k];
        }
      }
      assert Insert(p, s) == [s[0]] + rest;
    }
  }

  /** Python's `sorted(pairs, key=lambda x: x[0])`: a stable sort on the metric. */
  function SortByMetric(s: seq<Entry>): (r: seq<Entry>)
    ensures multiset(r) == multiset(s)
  {
    if s == [] then []
    else
      assert s == [s[0]] + s[1..];
      Insert(s[0], SortByMetric(s[1..]))
  }

  /** Sorting a list whose indices increase ranks it by (metric, index): the
      stable sort breaks ties by original position. */
  lemma {:induction false} SortRanks(s: seq<Entry>)
    requires IndexIncreasing(s)
    ensures Ranked(SortByMetric(s))
  {
    if s != [] {
      var tail := s[1..];
      assert IndexIncreasing(tail);
      SortRanks(tail);
      var rest := SortByMetric(tail);
      forall k | 0 <= k < |rest| ensures s[0].index < rest[k].index {
        assert rest[k] in multiset(tail);
        var m :| 0 <= m < |tail| && tail[m] == rest[k];
        assert s[m + 1] == rest[k];
      }
      InsertKeepsRanked(s[0], rest);
    }
  }

  /** Member `i` comes before member `j` in the selection order. */
  predicate RanksBefore(metrics: seq<Loss>, i: nat, j: nat)
    requires i < |metrics| && j < |metrics|
  {
    Precedes(Entry(metrics[i], i), Entry(metrics[j], j))
  }

  /** `s` names `n` distinct members, listed in selection order, and each of them
      ranks before every member it leaves out: `s` is the `n` lowest losses, ties
      taken in ascending index order. */
  predicate IsBestSelection(metrics: seq<Loss>, n: nat, s: seq<nat>) {
    && |s| == n
    && (forall k :: 0 <= k < |s| ==> s[k] < |metrics|)
    && (forall k, l :: 0 <= k < l < |s| ==> s[k] != s[l])
    && (forall k, l :: 0 <= k < l < |s| ==> RanksBefore(metrics, s[k], s[l]))
    && (forall k, j :: 0 <= k < |s| && 0 <= j < |metrics| && j !in s ==> RanksBefore(metrics, s[k], j))
  }

  /** A ranked list holding exactly the enumerated pairs. */
  predicate IsRankedEnumeration(metrics: seq<Loss>, sorted: seq<Entry>) {
    && |sorted| == |metrics|
    && Ranked(sorted)
    && (forall k :: 0 <= k < |sorted| ==>
          sorted[k].index < |metrics| && sorted[k].metric == metrics[sorted[k].index])
    && (forall j :: 0 <= j < |metrics| ==> Entry(metrics[j], j) in sorted)
  }

  /** The sorted pairs are exactly the enumerated pairs, in selection order. */
  lemma SortedEnumeration(metrics: seq<Loss>)
    ensures IsRankedEnumeration(metrics, SortByMetric(Enumerate(metrics)))
  {
    var pairs := Enumerate(metrics);
    var sorted := SortByMetric(pairs);
    SortRanks(pairs);
    assert |sorted| == |pairs| by {
      assert |multiset(sorted)| == |multiset(pairs)|;
    }
    forall k | 0 <= k < |sorted|
      ensures sorted[k].index < |metrics| && sorted[k].metric == metrics[sorted[k].index]
    {
      assert sorted[k] in multiset(pairs);
    }
    forall j | 0 <= j < |metrics| ensures Entry(metrics[j], j) in sorted {
      assert pairs[j] in multiset(sorted);
    }
  }

  /** The indices of the first `n` pairs of such a list form a best selection. */
  lemma PrefixIsBestSelection(metrics: seq<Loss>, sorted: seq<Entry>, n: nat)
    requires IsRankedEnumeration(metrics, sorted)
    requires n <= |metrics|
    ensures IsBestSelection(metrics, n, seq(n, k requires 0 <= k < n => sorted[k].index))
  {
    var s := seq(n, k requires 0 <= k < n => sorted[k].index);
    assert forall k :: 0 <= k < n ==> sorted[k] == Entry(metrics[s[k]], s[k]);
    assert forall k, l :: 0 <= k < l < n ==> RanksBefore(metrics, s[k], s[l]) by {
      forall k, l | 0 <= k < l < n ensures RanksBefore(metrics, s[k], s[l]) {
        assert Precedes(sorted[k], sorted[l]);
      }
    }
    assert forall k, l :: 0 <= k < l < n ==> s[k] != s[l] by {
      forall k, l | 0 <= k < l < n ensures s[k] != s[l] {
        assert RanksBefore(metrics, s[k], s[l]);
      }
    }
    forall k, j | 0 <= k < n && 0 <= j < |metrics| && j !in s
      ensures RanksBefore(metrics, s[k], j)
    {
      forall i | 0 <= i < n ensures sorted[i].index != j {
        assert s[i] == sorted[i].index;
      }
      LeftOutRanksLater(metrics, sorted, n, j);
      assert Precedes(sorted[k], Entry(metrics[j], j));
    }
  }

  /** A member whose pair is not among the first `n` sits behind all of them. */
  lemma LeftOutRanksLater(metrics: seq<Loss>, sorted: seq<Entry>, n: nat, j: nat)
    requires IsRankedEnumeration(metrics, sorted)
    requires n <= |metrics| && j < |metrics|
    requires forall i :: 0 <= i < n ==> sorted[i].index != j
    ensures forall k :: 0 <= k < n ==> Precedes(sorted[k], Entry(metrics[j], j))
  {
  }

  /** `_select_best_indexes(metrics, n)`; the source indexes past the end of the
      sorted list when `n > len(metrics)`. */
  function SelectBestIndexes(metrics: seq<Loss>, n: nat): (selected: seq<nat>)
    requires n <= |metrics|
    ensures IsBestSelection(metrics, n, selected)
  {
    var sorted := SortByMetric(Enumerate(metrics));
    SortedEnumeration(metrics);
    PrefixIsBestSelection(metrics, sorted, n);
    seq(n, k requires 0 <= k < n => sorted[k].index)
  }

  /** Two selections that both meet `IsBestSelection` agree: the property pins the
      result down completely, whatever sorting algorithm produced it. */
  lemma {:induction false} BestSelectionIsUnique(metrics: seq<Loss>, n: nat, s: seq<nat>, t: seq<nat>)
    requires IsBestSelection(metrics, n, s) && IsBestSelection(metrics, n, t)
    ensures s == t
  {
    forall k | 0 <= k < n ensures s[k] == t[k] {
      AgreeAt(metrics, n, s, t, k);
    }
  }

  lemma {:induction false} AgreeAt(metrics: seq<Loss>, n: nat, s: seq<nat>, t: seq<nat>, k: nat)
    requires IsBestSelection(metrics, n, s) && IsBestSelection(metrics, n, t)
    requires k < n
    ensures s[k] == t[k]
    decreases k
  {
    forall m | 0 <= m < k ensures s[m] == t[m] {
      AgreeAt(metrics, n, s, t, m);
    }
    var x, y := s[k], t[k];
    // x occurs in t at k or later, if at all, so t ranks y no later than x;
    // and symmetrically s ranks x no later than y
    assert forall m :: 0 <= m < k ==> t[m] != x && s[m] != y;
    assert forall m :: k < m < n ==> RanksBefore(metrics, y, t[m]) && RanksBefore(metrics, x, s[m]);
    assert x !in t ==> RanksBefore(metrics, y, x);
    assert y !in s ==> RanksBefore(metrics, x, y);
    assert x == y || RanksBefore(metrics, y, x);
    assert y == x || RanksBefore(metrics, x, y);
    LessIsStrictTotalOrder(metrics[x], metrics[y], metrics[x]);
  }
}
