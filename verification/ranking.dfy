/**
 * The top-N selection of the recommendation generator:
 * `np.argsort(similarities)[::-1][:top_n]`. The similarity values
 * themselves are inputs; only their order matters here.
 */
module Ranking {
  import opened Seqs
  import Sorting

  /** Orders candidate positions by their score. */
  function ScoreKey(scores: seq<real>): nat -> real {
    (i: nat) => if i < |scores| then scores[i] else 0.0
  }

  /**
   * A descending argsort: every position of `scores` exactly once, scores
   * never increasing. numpy's default sort is not stable, so the order among
   * equal scores is deliberately left open.
   */
  ghost predicate IsRanking(scores: seq<real>, order: seq<nat>) {
    && multiset(order) == multiset(Range(|scores|))
    && (forall k :: 0 <= k < |order| ==> order[k] < |scores|)
    && forall i, j :: 0 <= i < j < |order| ==> scores[order[i]] >= scores[order[j]]
  }

  /** One descending argsort of `scores`, in which equal scores keep their input order. */
  function Rank(scores: seq<real>): (order: seq<nat>)
    ensures IsRanking(scores, order)
    ensures forall i, j :: 0 <= i < j < |order| && scores[order[i]] == scores[order[j]] ==> order[i] < order[j]
  {
    var key := ScoreKey(scores);
    var order: seq<nat> := Sorting.SortDesc<nat>(Range(|scores|), key);
    Sorting.SortDescStable(Range(|scores|), key);
    PermutationOfRange(order, |scores|);
    assert forall i :: 0 <= i < |order| ==> key(order[i]) == scores[order[i]];
    order
  }

  /**
   * `argsort(scores)[::-1][:top_n]`: distinct positions of `scores`, as many
   * as Python's slice keeps, in non-increasing score order, and no position
   * left out scores higher than one taken.
   */
  function TopN(scores: seq<real>, topN: int): (sel: seq<nat>)
    ensures |sel| == PySliceLen(|scores|, topN)
    ensures forall k :: 0 <= k < |sel| ==> sel[k] < |scores|
    ensures Distinct(sel)
    ensures forall k, l :: 0 <= k < l < |sel| ==> scores[sel[k]] >= scores[sel[l]]
    ensures forall k, j :: 0 <= k < |sel| && 0 <= j < |scores| && j !in sel ==> scores[sel[k]] >= scores[j]
    ensures topN >= |scores| ==> forall j :: 0 <= j < |scores| ==> j in sel
  {
    var order := Rank(scores);
    PermutationOfRange(order, |scores|);
    var sel := PySlice(order, topN);
    assert sel == order[..|sel|];
    PrefixDominates(scores, order, |sel|);
    assert topN >= |scores| ==> sel == order;
    sel
  }

  /** In a ranking, every position in the first `m` outscores (or ties) every position after them. */
  lemma PrefixDominates(scores: seq<real>, order: seq<nat>, m: nat)
    requires IsRanking(scores, order)
    requires m <= |order|
    ensures forall k, j :: 0 <= k < m && 0 <= j < |scores| && j !in order[..m] ==> scores[order[k]] >= scores[j]
  {
    PermutationOfRange(order, |scores|);
    forall k, j | 0 <= k < m && 0 <= j < |scores| && j !in order[..m]
      ensures scores[order[k]] >= scores[j]
    {
      assert (j as nat) in order;
      var p :| 0 <= p < |order| && order[p] == j;
    }
  }
}
