/**
 Order-related building blocks of the store's queries: filtering, sorting by a
 key, the cursor `limit`, and order-preserving subsequences.
 */
module Sequences {

  /** `s` is in ascending order of `key` (ties allowed). */
  ghost predicate SortedBy<T>(s: seq<T>, key: T -> int) {
    forall i, j :: 0 <= i < j < |s| ==> key(s[i]) <= key(s[j])
  }

  /** `a` can be obtained from `b` by deleting elements, keeping the order of the rest. */
  predicate IsSubsequence<T(==)>(a: seq<T>, b: seq<T>)
    decreases |b|
  {
    if a == [] then true
    else if b == [] then false
    else (a[0] == b[0] && IsSubsequence(a[1..], b[1..])) || IsSubsequence(a, b[1..])
  }

  /** The elements of `s` that satisfy `keep`, in their original order (a query filter). */
  function Filter<T(==)>(s: seq<T>, keep: T -> bool): (r: seq<T>)
    ensures forall i :: 0 <= i < |r| ==> r[i] in s && keep(r[i])
    ensures forall x :: x in s && keep(x) ==> x in r
    ensures IsSubsequence(r, s)
  {
    if s == [] then []
    else if keep(s[0]) then [s[0]] + Filter(s[1..], keep)
    else Filter(s[1..], keep)
  }

  /** One step of a filter: the head is kept or dropped, the tail is filtered. */
  lemma FilterCons<T>(s: seq<T>, keep: T -> bool)
    requires s != []
    ensures Filter(s, keep) == if keep(s[0]) then [s[0]] + Filter(s[1..], keep) else Filter(s[1..], keep)
  {
  }

  /** A filter never duplicates an element. */
  lemma {:induction false} FilterMultiset<T>(s: seq<T>, keep: T -> bool)
    ensures multiset(Filter(s, keep)) <= multiset(s)
  {
    if s != [] {
      FilterMultiset(s[1..], keep);
      assert s == [s[0]] + s[1..];
    }
  }

  lemma PrefixMultiset<T>(a: seq<T>, b: seq<T>)
    requires a <= b
    ensures multiset(a) <= multiset(b)
  {
    assert b == a + b[|a|..];
  }

  /** A filter and its complement split the input between them. */
  lemma {:induction false} FilterPartition<T>(s: seq<T>, keep: T -> bool, drop: T -> bool)
    requires forall i :: 0 <= i < |s| ==> drop(s[i]) == !keep(s[i])
    ensures |Filter(s, keep)| + |Filter(s, drop)| == |s|
  {
    if s != [] {
      FilterPartition(s[1..], keep, drop);
    }
  }

  /** The index of the first element of `s` whose key is not smaller than `k` (|s| if none). */
  function InsertPoint<T>(k: int, s: seq<T>, key: T -> int): (p: nat)
    ensures p <= |s|
    ensures forall i :: 0 <= i < p ==> key(s[i]) < k
    ensures p < |s| ==> k <= key(s[p])
  {
    if s == [] || k <= key(s[0]) then 0 else 1 + InsertPoint(k, s[1..], key)
  }

  /** Places `x` into the sorted `s` before the first element whose key is not smaller. */
  function Insert<T>(x: T, s: seq<T>, key: T -> int): (r: seq<T>)
    requires SortedBy(s, key)
    ensures SortedBy(r, key)
    ensures multiset(r) == multiset(s) + multiset{x}
  {
    var p := InsertPoint(key(x), s, key);
    InsertSorted(x, s, key, p);
    InsertMultiset(x, s, p);
    s[..p] + [x] + s[p..]
  }

  lemma InsertSorted<T>(x: T, s: seq<T>, key: T -> int, p: nat)
    requires SortedBy(s, key)
    requires p == InsertPoint(key(x), s, key)
    ensures SortedBy(s[..p] + [x] + s[p..], key)
  {
    var r := s[..p] + [x] + s[p..];
    forall i, j | 0 <= i < j < |r|
      ensures key(r[i]) <= key(r[j])
    {
      if i < p {
        assert r[i] == s[i];
      } else if i == p {
        assert r[i] == x;
      } else {
        assert r[i] == s[i - 1];
      }
      if j < p {
        assert r[j] == s[j];
      } else if j == p {
        assert r[j] == x;
      } else {
        assert r[j] == s[j - 1];
        assert key(x) <= key(s[p]);
      }
    }
  }

  lemma InsertMultiset<T>(x: T, s: seq<T>, p: nat)
    requires p <= |s|
    ensures multiset(s[..p] + [x] + s[p..]) == multiset(s) + multiset{x}
  {
    assert s == s[..p] + s[p..];
  }

  /** `s` sorted by ascending `key` (a cursor's `sort`); equal keys keep storage order. */
  function SortBy<T>(s: seq<T>, key: T -> int): (r: seq<T>)
    ensures SortedBy(r, key)
    ensures multiset(r) == multiset(s)
  {
    if s == [] then []
    else
      assert s == [s[0]] + s[1..];
      Insert(s[0], SortBy(s[1..], key), key)
  }

  /** Sorting is stable: an already sorted sequence comes back unchanged. */
  lemma {:induction false} SortBySorted<T>(s: seq<T>, key: T -> int)
    requires SortedBy(s, key)
    ensures SortBy(s, key) == s
  {
    if s != [] {
      SortedTail(s, key);
      SortBySorted(s[1..], key);
      InsertFront(s[0], s[1..], key);
      assert s == [s[0]] + s[1..];
    }
  }

  lemma SortedTail<T>(s: seq<T>, key: T -> int)
    requires s != [] && SortedBy(s, key)
    ensures SortedBy(s[1..], key)
    ensures |s| > 1 ==> key(s[0]) <= key(s[1..][0])
  {
    var tail := s[1..];
    forall i, j | 0 <= i < j < |tail|
      ensures key(tail[i]) <= key(tail[j])
    {
      assert tail[i] == s[i + 1] && tail[j] == s[j + 1];
    }
  }

  /** An element that sorts no later than the head of `s` goes in front. */
  lemma InsertFront<T>(x: T, s: seq<T>, key: T -> int)
    requires SortedBy(s, key)
    requires s == [] || key(x) <= key(s[0])
    ensures Insert(x, s, key) == [x] + s
  {
    assert InsertPoint(key(x), s, key) == 0;
    assert s[..0] + [x] + s[0..] == [x] + s;
  }

  /** A cursor's `limit`: the first `limit` elements, where a limit of 0 means no limit. */
  function Cap<T>(s: seq<T>, limit: nat): (r: seq<T>)
    ensures r <= s
    ensures limit > 0 ==> |r| <= limit
    ensures |r| < |s| ==> limit > 0 && |r| == limit
  {
    if limit == 0 || |s| <= limit then s else s[..limit]
  }

  /** The first `n` elements of `s`, or all of `s` when it is shorter. */
  function Prefix<T>(s: seq<T>, n: nat): (r: seq<T>)
    ensures r <= s
    ensures |r| == if n <= |s| then n else |s|
  {
    if n <= |s| then s[..n] else s
  }

  lemma {:induction false} SubsequenceMembers<T>(a: seq<T>, b: seq<T>)
    requires IsSubsequence(a, b)
    ensures forall i :: 0 <= i < |a| ==> a[i] in b
    ensures |a| <= |b|
    decreases |b|
  {
    if a != [] {
      if a[0] == b[0] && IsSubsequence(a[1..], b[1..]) {
        SubsequenceMembers(a[1..], b[1..]);
        forall i | 0 < i < |a|
          ensures a[i] in b
        {
          assert a[i] == a[1..][i - 1];
        }
      } else {
        SubsequenceMembers(a, b[1..]);
      }
    }
  }

  /** Dropping elements from a sorted sequence leaves it sorted. */
  lemma {:induction false} SubsequenceSorted<T>(a: seq<T>, b: seq<T>, key: T -> int)
    requires IsSubsequence(a, b)
    requires SortedBy(b, key)
    ensures SortedBy(a, key)
    decreases |b|
  {
    if a != [] {
      if a[0] == b[0] && IsSubsequence(a[1..], b[1..]) {
        SubsequenceSorted(a[1..], b[1..], key);
        SubsequenceMembers(a[1..], b[1..]);
        forall j | 0 < j < |a|
          ensures key(a[0]) <= key(a[j])
        {
          assert a[j] == a[1..][j - 1];
          assert a[j] in b[1..];
        }
      } else {
        SubsequenceSorted(a, b[1..], key);
      }
    }
  }

  /** Subsequences compose. */
  lemma {:induction false} SubsequenceTransitive<T>(a: seq<T>, b: seq<T>, c: seq<T>)
    requires IsSubsequence(a, b)
    requires IsSubsequence(b, c)
    ensures IsSubsequence(a, c)
    decreases |c|
  {
    if a != [] {
      assert b != [] && c != [];
      if b[0] == c[0] && IsSubsequence(b[1..], c[1..]) {
        if a[0] == b[0] && IsSubsequence(a[1..], b[1..]) {
          SubsequenceTransitive(a[1..], b[1..], c[1..]);
        } else {
          SubsequenceTransitive(a, b[1..], c[1..]);
        }
      } else {
        SubsequenceTransitive(a, b, c[1..]);
      }
    }
  }

  /** A sequence is a subsequence of any sequence it is a prefix of. */
  lemma {:induction false} PrefixIsSubsequence<T>(a: seq<T>, b: seq<T>)
    requires a <= b
    ensures IsSubsequence(a, b)
    decreases |b|
  {
    if a != [] {
      assert a[0] == b[0];
      PrefixIsSubsequence(a[1..], b[1..]);
    }
  }

  /**
   Sorting then applying a positive limit keeps the earliest elements: an
   element that was cut off has a key no smaller than every kept one.
   */
  lemma CapKeepsEarliest<T>(s: seq<T>, limit: nat, key: T -> int, x: T)
    requires SortedBy(s, key)
    requires x in s && x !in Cap(s, limit)
    ensures limit > 0 && |Cap(s, limit)| == limit
    ensures forall k :: 0 <= k < |Cap(s, limit)| ==> key(Cap(s, limit)[k]) <= key(x)
  {
    var i :| 0 <= i < |s| && s[i] == x;
    assert i >= limit;
  }

  /**
   A cursor `find(filter).sort(key).limit(limit)`: the elements that pass
   `keep`, in ascending `key` order, cut to `limit`. A passing element is
   left out only when the limit is reached by elements that sort no later.
   */
  function Query<T(==)>(s: seq<T>, keep: T -> bool, key: T -> int, limit: nat): (r: seq<T>)
    ensures limit > 0 ==> |r| <= limit
    ensures SortedBy(r, key)
    ensures forall k :: 0 <= k < |r| ==> r[k] in s && keep(r[k])
    ensures forall x :: x in s && keep(x) && x !in r ==>
      limit > 0 && |r| == limit && forall k :: 0 <= k < |r| ==> key(r[k]) <= key(x)
    ensures multiset(r) <= multiset(s)
  {
    var sorted := SortBy(Filter(s, keep), key);
    FilterMultiset(s, keep);
    PrefixMultiset(Cap(sorted, limit), sorted);
    QuerySorted(sorted, key, limit);
    QueryMembers(s, keep, key, limit);
    QueryComplete(s, keep, key, limit);
    Cap(sorted, limit)
  }

  lemma QuerySorted<T>(sorted: seq<T>, key: T -> int, limit: nat)
    requires SortedBy(sorted, key)
    ensures SortedBy(Cap(sorted, limit), key)
  {
    PrefixIsSubsequence(Cap(sorted, limit), sorted);
    SubsequenceSorted(Cap(sorted, limit), sorted, key);
  }

  lemma QueryMembers<T>(s: seq<T>, keep: T -> bool, key: T -> int, limit: nat)
    ensures var r := Cap(SortBy(Filter(s, keep), key), limit);
            forall k :: 0 <= k < |r| ==> r[k] in s && keep(r[k])
  {
    var due := Filter(s, keep);
    var sorted := SortBy(due, key);
    var r := Cap(sorted, limit);
    forall k | 0 <= k < |r|
      ensures r[k] in s && keep(r[k])
    {
      assert r[k] == sorted[k];
      assert sorted[k] in multiset(due);
    }
  }

  lemma QueryComplete<T>(s: seq<T>, keep: T -> bool, key: T -> int, limit: nat)
    ensures var r := Cap(SortBy(Filter(s, keep), key), limit);
            forall x :: x in s && keep(x) && x !in r ==>
              limit > 0 && |r| == limit && forall k :: 0 <= k < |r| ==> key(r[k]) <= key(x)
  {
    var sorted := SortBy(Filter(s, keep), key);
    forall x | x in s && keep(x) && x !in Cap(sorted, limit)
      ensures limit > 0 && |Cap(sorted, limit)| == limit &&
        forall k :: 0 <= k < |Cap(sorted, limit)| ==> key(Cap(sorted, limit)[k]) <= key(x)
    {
      assert x in multiset(sorted);
      CapKeepsEarliest(sorted, limit, key, x);
    }
  }

  /** A filter every element passes keeps the whole sequence. */
  lemma {:induction false} FilterAll<T>(s: seq<T>, keep: T -> bool)
    requires forall i :: 0 <= i < |s| ==> keep(s[i])
    ensures Filter(s, keep) == s
  {
    if s != [] {
      assert forall i :: 0 <= i < |s[1..]| ==> keep(s[1..][i]) by {
        forall i | 0 <= i < |s[1..]|
          ensures keep(s[1..][i])
        {
          assert s[1..][i] == s[i + 1];
        }
      }
      FilterAll(s[1..], keep);
      assert s == [s[0]] + s[1..];
    }
  }

  /** A query over sorted elements that all pass the filter, within the limit, returns them as they are. */
  lemma QueryAll<T>(s: seq<T>, keep: T -> bool, key: T -> int, limit: nat)
    requires forall i :: 0 <= i < |s| ==> keep(s[i])
    requires SortedBy(s, key)
    requires limit == 0 || |s| <= limit
    ensures Query(s, keep, key, limit) == s
  {
    FilterAll(s, keep);
    SortBySorted(s, key);
  }
}
