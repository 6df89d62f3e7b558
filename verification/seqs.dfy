/** Sequence helpers shared by the table model and the ranking. */
module Seqs {
  import opened Optional

  /** `next(i for i, x in enumerate(xs) if p(x))`: the first position satisfying `p`. */
  function IndexWhere<T>(xs: seq<T>, p: T -> bool): (r: Option<nat>)
    ensures r.Some? ==> r.value < |xs| && p(xs[r.value])
    ensures r.Some? ==> forall j :: 0 <= j < r.value ==> !p(xs[j])
    ensures r.None? ==> forall j :: 0 <= j < |xs| ==> !p(xs[j])
  {
    if |xs| == 0 then None
    else if p(xs[0]) then Some(0)
    else
      match IndexWhere(xs[1..], p)
      case None => None
      case Some(i) => Some(i + 1)
  }

  /** Two sequences that agree on `p` at every position have the same first `p`-position. */
  lemma {:induction false} IndexWherePointwise<T>(xs: seq<T>, ys: seq<T>, p: T -> bool)
    requires |xs| == |ys|
    requires forall k :: 0 <= k < |xs| ==> p(xs[k]) == p(ys[k])
    ensures IndexWhere(xs, p) == IndexWhere(ys, p)
  {
    if |xs| > 0 {
      IndexWherePointwise(xs[1..], ys[1..], p);
    }
  }

  /** Appending an element that fails `p` changes no first `p`-position. */
  lemma {:induction false} IndexWhereAppend<T>(xs: seq<T>, ys: seq<T>, p: T -> bool)
    requires |ys| == |xs| + 1
    requires forall k :: 0 <= k < |xs| ==> ys[k] == xs[k]
    requires !p(ys[|xs|])
    ensures IndexWhere(ys, p) == IndexWhere(xs, p)
  {
    if |xs| > 0 {
      IndexWhereAppend(xs[1..], ys[1..], p);
    }
  }

  /** `[x for x in xs if p(x)]`. */
  function Filter<T(!new)>(xs: seq<T>, p: T -> bool): (r: seq<T>)
    ensures forall x :: multiset(r)[x] == if p(x) then multiset(xs)[x] else 0
    ensures forall k :: 0 <= k < |r| ==> p(r[k]) && r[k] in xs
  {
    if |xs| == 0 then []
    else
      var rest := Filter(xs[1..], p);
      var r := if p(xs[0]) then [xs[0]] + rest else rest;
      FilterStep(xs, p, rest, r);
      r
  }

  /** Keeping or dropping the head on top of a filtered tail filters the whole. */
  lemma FilterStep<T(!new)>(xs: seq<T>, p: T -> bool, rest: seq<T>, r: seq<T>)
    requires |xs| > 0
    requires forall x :: multiset(rest)[x] == if p(x) then multiset(xs[1..])[x] else 0
    requires forall k :: 0 <= k < |rest| ==> p(rest[k]) && rest[k] in xs[1..]
    requires r == if p(xs[0]) then [xs[0]] + rest else rest
    ensures forall x :: multiset(r)[x] == if p(x) then multiset(xs)[x] else 0
    ensures forall k :: 0 <= k < |r| ==> p(r[k]) && r[k] in xs
  {
    assert xs == [xs[0]] + xs[1..];
    assert multiset(xs) == multiset{xs[0]} + multiset(xs[1..]);
    forall k | 0 <= k < |r| ensures p(r[k]) && r[k] in xs {
      if p(xs[0]) && k == 0 {
        assert r[k] == xs[0];
      } else {
        var j := if p(xs[0]) then k - 1 else k;
        assert r[k] == rest[j];
      }
    }
  }

  /** `list(range(n))`. */
  function Range(n: nat): (r: seq<nat>)
    ensures |r| == n
    ensures forall i :: 0 <= i < n ==> r[i] == i
  {
    seq(n, i requires 0 <= i => i as nat)
  }

  ghost predicate Distinct<T>(xs: seq<T>) {
    forall i, j :: 0 <= i < j < |xs| ==> xs[i] != xs[j]
  }

  /** Past the head, position `k` of `[h] + rest` is position `k - 1` of `rest`. */
  lemma ConsAt<T>(h: T, rest: seq<T>, whole: seq<T>, k: nat)
    requires whole == [h] + rest && k < |whole|
    ensures k == 0 ==> whole[k] == h
    ensures 0 < k ==> k - 1 < |rest| && whole[k] == rest[k - 1]
  {
  }

  lemma {:induction false} RangeMultiplicity(n: nat, x: nat)
    ensures multiset(Range(n))[x] == if x < n then 1 else 0
  {
    if n > 0 {
      var before := Range(n - 1);
      RangeMultiplicity(n - 1, x);
      assert Range(n) == before + [n - 1];
      CountAfterAppend(before, n - 1, x, Range(n));
    }
  }

  /** Appending one element adds one to its count and nothing to the others. */
  lemma CountAfterAppend(r: seq<nat>, last: nat, x: nat, full: seq<nat>)
    requires full == r + [last]
    ensures multiset(full)[x] == multiset(r)[x] + if x == last then 1 else 0
  {
    assert multiset(full) == multiset(r) + multiset{last};
  }

  /** A reordering of `range(n)` lists each index below `n` exactly once. */
  lemma PermutationOfRange(xs: seq<nat>, n: nat)
    requires multiset(xs) == multiset(Range(n))
    ensures |xs| == n
    ensures forall k :: 0 <= k < |xs| ==> xs[k] < n
    ensures forall x: nat :: x < n ==> x in xs
    ensures Distinct(xs)
  {
    assert |xs| == |multiset(xs)| == |multiset(Range(n))| == n;
    forall k | 0 <= k < |xs|
      ensures xs[k] < n
    {
      assert xs[k] in multiset(xs);
      RangeMultiplicity(n, xs[k]);
    }
    forall x: nat | x < n
      ensures x in xs
    {
      RangeMultiplicity(n, x);
      assert x in multiset(xs);
    }
    forall i, j | 0 <= i < j < |xs|
      ensures xs[i] != xs[j]
    {
      if xs[i] == xs[j] {
        TwoOccurrences(xs, i, j);
        RangeMultiplicity(n, xs[i]);
      }
    }
  }

  lemma TwoOccurrences<T>(xs: seq<T>, i: nat, j: nat)
    requires i < j < |xs| && xs[i] == xs[j]
    ensures multiset(xs)[xs[i]] >= 2
  {
    assert xs == xs[..j] + [xs[j]] + xs[j + 1..];
    assert xs[i] in multiset(xs[..j]);
  }

  /** The length of `xs[:stop]` for a list of length `n` (a negative stop counts from the end). */
  function PySliceLen(n: nat, stop: int): (len: nat)
    ensures len <= n
    ensures stop >= 0 ==> len == if stop < n then stop else n
    ensures stop < 0 ==> len == if n + stop > 0 then n + stop else 0
  {
    if stop >= 0 then (if stop < n then stop else n)
    else if n + stop > 0 then n + stop else 0
  }

  /** Python's `xs[:stop]`. */
  function PySlice<T>(xs: seq<T>, stop: int): (r: seq<T>)
    ensures r <= xs && |r| == PySliceLen(|xs|, stop)
  {
    xs[..PySliceLen(|xs|, stop)]
  }
}
