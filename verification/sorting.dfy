/** Ordering rows by a key, largest first (`ORDER BY key DESC`). */
module Sorting {

  /** Keys never increase along `s`. */
  ghost predicate SortedDesc<T>(s: seq<T>, key: T -> real) {
    forall i, j :: 0 <= i < j < |s| ==> key(s[i]) >= key(s[j])
  }

  /** Puts `x` after every element whose key is larger, and so ahead of those whose key equals it. */
  function Insert<T>(x: T, s: seq<T>, key: T -> real): (r: seq<T>)
    requires SortedDesc(s, key)
    ensures multiset(r) == multiset(s) + multiset{x}
    ensures SortedDesc(r, key)
  {
    if |s| == 0 then [x]
    else if key(s[0]) <= key(x) then [x] + s
    else
      var rest := Insert(x, s[1..], key);
      assert s == [s[0]] + s[1..];
      TailBelowHead(s, key);
      MembersBelow(s[0], x, s[1..], rest, key);
      ConsSorted(s[0], rest, key);
      [s[0]] + rest
  }

  /** In a sorted sequence the head's key bounds every later key. */
  lemma TailBelowHead<T>(s: seq<T>, key: T -> real)
    requires |s| > 0 && SortedDesc(s, key)
    ensures forall k :: 0 <= k < |s[1..]| ==> key(s[0]) >= key(s[1..][k])
  {
    forall k | 0 <= k < |s[1..]|
      ensures key(s[0]) >= key(s[1..][k])
    {
      assert s[1..][k] == s[k + 1];
    }
  }

  /** A bound on the keys of `tail` and of `x` is a bound on every element of a reordering of them. */
  lemma MembersBelow<T>(h: T, x: T, tail: seq<T>, rest: seq<T>, key: T -> real)
    requires multiset(rest) == multiset(tail) + multiset{x}
    requires key(h) >= key(x)
    requires forall k :: 0 <= k < |tail| ==> key(h) >= key(tail[k])
    ensures forall k :: 0 <= k < |rest| ==> key(h) >= key(rest[k])
  {
    forall k | 0 <= k < |rest|
      ensures key(h) >= key(rest[k])
    {
      assert rest[k] in multiset(rest);
      if rest[k] != x {
        assert rest[k] in multiset(tail);
        var m :| 0 <= m < |tail| && tail[m] == rest[k];
      }
    }
  }

  /** A head whose key bounds a sorted tail's keys keeps the sequence sorted. */
  lemma ConsSorted<T>(h: T, rest: seq<T>, key: T -> real)
    requires SortedDesc(rest, key)
    requires forall k :: 0 <= k < |rest| ==> key(h) >= key(rest[k])
    ensures SortedDesc([h] + rest, key)
  {
    var r := [h] + rest;
    forall i, j | 0 <= i < j < |r|
      ensures key(r[i]) >= key(r[j])
    {
      assert r[j] == rest[j - 1];
      if i > 0 {
        assert r[i] == rest[i - 1];
      }
    }
  }

  /**
   * A reordering of `s` with keys in non-increasing order. The head goes in
   * ahead of equal keys from the tail, so equal keys keep their input order.
   */
  function SortDesc<T>(s: seq<T>, key: T -> real): (r: seq<T>)
    ensures multiset(r) == multiset(s)
    ensures SortedDesc(r, key)
  {
    if |s| == 0 then []
    else
      assert s == [s[0]] + s[1..];
      Insert(s[0], SortDesc(s[1..], key), key)
  }

  // ------------------------------------------------------------ stability

  /** Among equal keys, the smaller number comes first. */
  ghost predicate TiesAscending(s: seq<nat>, key: nat -> real) {
    forall i, j :: 0 <= i < j < |s| && key(s[i]) == key(s[j]) ==> s[i] < s[j]
  }

  ghost predicate Increasing(s: seq<nat>) {
    forall i, j :: 0 <= i < j < |s| ==> s[i] < s[j]
  }

  /**
   * Sorting numbers given in increasing order lists equal keys in increasing
   * order: the sort keeps the input order of ties.
   */
  lemma {:induction false} SortDescStable(s: seq<nat>, key: nat -> real)
    requires Increasing(s)
    ensures TiesAscending(SortDesc(s, key), key)
  {
    if |s| > 0 {
      var tail := s[1..];
      assert Increasing(tail) by {
        forall i, j | 0 <= i < j < |tail| ensures tail[i] < tail[j] {
          assert tail[i] == s[i + 1] && tail[j] == s[j + 1];
        }
      }
      SortDescStable(tail, key);
      var sorted := SortDesc(tail, key);
      forall k | 0 <= k < |sorted| ensures s[0] < sorted[k] {
        assert sorted[k] in multiset(tail);
        var m :| 0 <= m < |tail| && tail[m] == sorted[k];
        assert tail[m] == s[m + 1];
      }
      InsertTiesAscending(s[0], sorted, key);
    }
  }

  /** Inserting a number smaller than every element keeps ties ascending. */
  lemma {:induction false} InsertTiesAscending(x: nat, s: seq<nat>, key: nat -> real)
    requires SortedDesc(s, key) && TiesAscending(s, key)
    requires forall k :: 0 <= k < |s| ==> x < s[k]
    ensures TiesAscending(Insert(x, s, key), key)
  {
    if |s| == 0 {
    } else if key(s[0]) <= key(x) {
      ConsTies(x, s, key);
    } else {
      var tail := s[1..];
      TailTies(s, key);
      InsertTiesAscending(x, tail, key);
      var rest := Insert(x, tail, key);
      HeadTiesBelow(s[0], x, tail, rest, key);
      ConsTies(s[0], rest, key);
    }
  }

  /** The tail of a sorted sequence with ascending ties is one too, and the head precedes its ties in it. */
  lemma TailTies(s: seq<nat>, key: nat -> real)
    requires |s| > 0 && SortedDesc(s, key) && TiesAscending(s, key)
    ensures SortedDesc(s[1..], key) && TiesAscending(s[1..], key)
    ensures forall k :: 0 <= k < |s[1..]| && key(s[0]) == key(s[1..][k]) ==> s[0] < s[1..][k]
  {
    var tail := s[1..];
    forall i, j | 0 <= i < j < |tail|
      ensures key(tail[i]) >= key(tail[j])
      ensures key(tail[i]) == key(tail[j]) ==> tail[i] < tail[j]
    {
      assert tail[i] == s[i + 1] && tail[j] == s[j + 1];
    }
    forall k | 0 <= k < |tail| ensures key(s[0]) == key(tail[k]) ==> s[0] < tail[k] {
      assert tail[k] == s[k + 1];
    }
  }

  /** A head that precedes its ties in `tail`, and whose key differs from `x`'s, precedes its ties in any reordering of `tail` and `x`. */
  lemma HeadTiesBelow(h: nat, x: nat, tail: seq<nat>, rest: seq<nat>, key: nat -> real)
    requires multiset(rest) == multiset(tail) + multiset{x}
    requires key(h) != key(x)
    requires forall k :: 0 <= k < |tail| && key(h) == key(tail[k]) ==> h < tail[k]
    ensures forall k :: 0 <= k < |rest| && key(h) == key(rest[k]) ==> h < rest[k]
  {
    forall k | 0 <= k < |rest| && key(h) == key(rest[k])
      ensures h < rest[k]
    {
      assert rest[k] in multiset(rest);
      assert rest[k] != x;
      assert rest[k] in multiset(tail);
      var m :| 0 <= m < |tail| && tail[m] == rest[k];
    }
  }

  /** A head that precedes its ties keeps ties ascending. */
  lemma ConsTies(h: nat, rest: seq<nat>, key: nat -> real)
    requires TiesAscending(rest, key)
    requires forall k :: 0 <= k < |rest| && key(h) == key(rest[k]) ==> h < rest[k]
    ensures TiesAscending([h] + rest, key)
  {
    var r := [h] + rest;
    forall i, j | 0 <= i < j < |r| && key(r[i]) == key(r[j])
      ensures r[i] < r[j]
    {
      assert r[j] == rest[j - 1];
      if i > 0 {
        assert r[i] == rest[i - 1];
      }
    }
  }
}
