/** Kotlin's list combinators that the core relies on: `filter`, `take`, `drop`,
    `distinct`, and the stable `sortedByDescending`, modelled as insertion sort
    under a "may stay ahead of" relation `before`. */
module Sorting {

  /** `before` is total and transitive, as "key(a) >= key(b)" is for any key. */
  ghost predicate TotalPreorder<T(!new)>(before: (T, T) -> bool) {
    && (forall a, b :: before(a, b) || before(b, a))
    && (forall a, b, c :: before(a, b) && before(b, c) ==> before(a, c))
  }

  /** Every element may stay ahead of every later one. */
  ghost predicate SortedBy<T>(s: seq<T>, before: (T, T) -> bool) {
    forall i, j :: 0 <= i < j < |s| ==> before(s[i], s[j])
  }

  /** Places `x` ahead of the first element it may precede: elements already in `s`
      that compare equal to `x` stay behind it. */
  function InsertBy<T>(x: T, s: seq<T>, before: (T, T) -> bool): (r: seq<T>)
    ensures |r| == |s| + 1
    ensures multiset(r) == multiset(s) + multiset{x}
  {
    if |s| == 0 then [x]
    else if before(x, s[0]) then [x] + s
    else
      assert s == [s[0]] + s[1..];
      [s[0]] + InsertBy(x, s[1..], before)
  }

  lemma InsertByMembers<T>(x: T, s: seq<T>, before: (T, T) -> bool)
    ensures forall a :: a in InsertBy(x, s, before) <==> a in s || a == x
  {
    var r := InsertBy(x, s, before);
    forall a ensures a in r <==> a in multiset(r) {
    }
    forall a ensures a in s <==> a in multiset(s) {
    }
  }

  /** Kotlin's stable `sortedByDescending`: insertion from the back keeps equal
      elements in their input order. */
  function SortBy<T>(s: seq<T>, before: (T, T) -> bool): (r: seq<T>)
    ensures |r| == |s|
    ensures multiset(r) == multiset(s)
  {
    if |s| == 0 then []
    else
      assert s == [s[0]] + s[1..];
      InsertBy(s[0], SortBy(s[1..], before), before)
  }

  lemma {:induction false} InsertBySorted<T(!new)>(x: T, s: seq<T>, before: (T, T) -> bool)
    requires TotalPreorder(before)
    requires SortedBy(s, before)
    ensures SortedBy(InsertBy(x, s, before), before)
    decreases |s|
  {
    if |s| > 0 && !before(x, s[0]) {
      var t := InsertBy(x, s[1..], before);
      TailSorted(s, before);
      InsertBySorted(x, s[1..], before);
      InsertByMembers(x, s[1..], before);
      forall k | 0 <= k < |t| ensures before(s[0], t[k]) {
        if t[k] != x {
          HeadBeforeMember(s, t[k], before);
        }
      }
      ConsSorted(s[0], t, before);
    } else if |s| > 0 {
      forall k | 0 <= k < |s| ensures before(x, s[k]) {
        if k > 0 {
          assert before(s[0], s[k]);
        }
      }
      ConsSorted(x, s, before);
    }
  }

  lemma TailSorted<T>(s: seq<T>, before: (T, T) -> bool)
    requires SortedBy(s, before) && |s| > 0
    ensures SortedBy(s[1..], before)
  {
    forall i, j | 0 <= i < j < |s[1..]| ensures before(s[1..][i], s[1..][j]) {
      assert s[1..][i] == s[i + 1] && s[1..][j] == s[j + 1];
    }
  }

  lemma HeadBeforeMember<T>(s: seq<T>, y: T, before: (T, T) -> bool)
    requires SortedBy(s, before) && |s| > 0
    requires y in s[1..]
    ensures before(s[0], y)
  {
    var k :| 0 <= k < |s[1..]| && s[1..][k] == y;
    assert s[k + 1] == y;
  }

  /** The result of `SortBy` is sorted whenever `before` is a total preorder. */
  lemma {:induction false} SortBySorted<T(!new)>(s: seq<T>, before: (T, T) -> bool)
    requires TotalPreorder(before)
    ensures SortedBy(SortBy(s, before), before)
    decreases |s|
  {
    if |s| > 0 {
      SortBySorted(s[1..], before);
      InsertBySorted(s[0], SortBy(s[1..], before), before);
    }
  }

  lemma TakeSorted<T>(s: seq<T>, before: (T, T) -> bool, n: int)
    requires SortedBy(s, before)
    ensures SortedBy(Take(s, n), before)
  {
  }

  lemma DropSorted<T>(s: seq<T>, before: (T, T) -> bool, n: int)
    requires SortedBy(s, before)
    ensures SortedBy(Drop(s, n), before)
  {
    if 0 < n < |s| {
      var r := s[n..];
      forall i, j | 0 <= i < j < |r| ensures before(r[i], r[j]) {
        assert r[i] == s[n + i] && r[j] == s[n + j];
      }
    }
  }

  /** In a sorted sequence, each of the first `k` elements may stay ahead of every
      element left over once those `k` are taken. */
  lemma SortedPrefixDominates<T>(s: seq<T>, before: (T, T) -> bool, k: nat)
    requires SortedBy(s, before)
    requires k <= |s|
    ensures forall x, y :: x in s[..k] && y in multiset(s) - multiset(s[..k]) ==> before(x, y)
  {
    assert s == s[..k] + s[k..];
    assert multiset(s) - multiset(s[..k]) == multiset(s[k..]);
    forall x, y | x in s[..k] && y in multiset(s[k..]) ensures before(x, y) {
      var i :| 0 <= i < k && s[i] == x;
      var j :| k <= j < |s| && s[j] == y by {
        assert y in s[k..];
      }
    }
  }

  /** Kotlin's `take(n)`: the first `n` elements, or all of them when there are fewer. */
  function Take<T>(s: seq<T>, n: int): (r: seq<T>)
    ensures |r| == if n <= 0 then 0 else if n < |s| then n else |s|
    ensures forall i :: 0 <= i < |r| ==> r[i] == s[i]
  {
    if n <= 0 then [] else if n < |s| then s[..n] else s
  }

  /** Kotlin's `drop(n)`: everything after the first `n` elements. */
  function Drop<T>(s: seq<T>, n: int): (r: seq<T>)
    ensures |r| == if n <= 0 then |s| else if n < |s| then |s| - n else 0
    ensures forall i :: 0 <= i < |r| ==> r[i] == s[i + |s| - |r|]
  {
    if n <= 0 then s else if n < |s| then s[n..] else []
  }

  lemma TakeSubMultiset<T>(s: seq<T>, n: int)
    ensures multiset(Take(s, n)) <= multiset(s)
  {
    if 0 < n < |s| {
      assert s == s[..n] + s[n..];
    }
  }

  lemma DropSubMultiset<T>(s: seq<T>, n: int)
    ensures multiset(Drop(s, n)) <= multiset(s)
  {
    if 0 < n < |s| {
      assert s == s[..n] + s[n..];
    }
  }

  /** Kotlin's `filter`: the elements satisfying `p`, in their original order. */
  function Filter<T(==,!new)>(s: seq<T>, p: T -> bool): (r: seq<T>)
    ensures |r| <= |s|
    ensures forall i :: 0 <= i < |r| ==> p(r[i]) && r[i] in s
    ensures forall x :: x in s && p(x) ==> x in r
    ensures multiset(r) <= multiset(s)
  {
    if |s| == 0 then []
    else
      assert s == [s[0]] + s[1..];
      var rest := Filter(s[1..], p);
      if p(s[0]) then [s[0]] + rest else rest
  }

  /** Filtering keeps the relative order of what it keeps. */
  lemma {:induction false} FilterSorted<T(!new)>(s: seq<T>, p: T -> bool, before: (T, T) -> bool)
    requires SortedBy(s, before)
    ensures SortedBy(Filter(s, p), before)
  {
    if |s| > 0 {
      TailSorted(s, before);
      FilterSorted(s[1..], p, before);
      if p(s[0]) {
        HeadBeforeAll(s, Filter(s[1..], p), before);
        ConsSorted(s[0], Filter(s[1..], p), before);
      }
    }
  }

  lemma HeadBeforeAll<T>(s: seq<T>, t: seq<T>, before: (T, T) -> bool)
    requires SortedBy(s, before) && |s| > 0
    requires forall i :: 0 <= i < |t| ==> t[i] in s[1..]
    ensures forall i :: 0 <= i < |t| ==> before(s[0], t[i])
  {
    forall i | 0 <= i < |t| ensures before(s[0], t[i]) {
      HeadBeforeMember(s, t[i], before);
    }
  }

  lemma ConsSorted<T>(x: T, t: seq<T>, before: (T, T) -> bool)
    requires SortedBy(t, before)
    requires forall i :: 0 <= i < |t| ==> before(x, t[i])
    ensures SortedBy([x] + t, before)
  {
    var r := [x] + t;
    forall i, j | 0 <= i < j < |r| ensures before(r[i], r[j]) {
      assert r[j] == t[j - 1];
      if i > 0 {
        assert r[i] == t[i - 1];
      }
    }
  }

  /** `filter` distributes over concatenation, which is what "order preserved" means. */
  lemma {:induction false} FilterConcat<T(!new)>(a: seq<T>, b: seq<T>, p: T -> bool)
    ensures Filter(a + b, p) == Filter(a, p) + Filter(b, p)
    decreases |a|
  {
    if |a| > 0 {
      assert (a + b)[1..] == a[1..] + b;
      FilterConcat(a[1..], b, p);
    } else {
      assert a + b == b;
    }
  }

  /** `filter` keeps a list whose every element passes. */
  lemma {:induction false} FilterKeepsAll<T(!new)>(s: seq<T>, p: T -> bool)
    requires forall i :: 0 <= i < |s| ==> p(s[i])
    ensures Filter(s, p) == s
    decreases |s|
  {
    if |s| > 0 {
      FilterKeepsAll(s[1..], p);
    }
  }

  /** No element occurs twice. */
  predicate NoDuplicates<T(==)>(s: seq<T>) {
    forall i, j :: 0 <= i < j < |s| ==> s[i] != s[j]
  }

  /** The position of the first occurrence of `x` in `s`. */
  function FirstIndex<T(==)>(s: seq<T>, x: T): (i: nat)
    requires x in s
    ensures i < |s| && s[i] == x
    ensures forall j :: 0 <= j < i ==> s[j] != x
  {
    if s[0] == x then 0
    else
      assert x in s[1..];
      FirstIndex(s[1..], x) + 1
  }

  /** Kotlin's `distinct()`: first occurrences only, in order. Elements in `seen`
      are treated as already taken. */
  function DistinctFrom<T(==,!new)>(s: seq<T>, seen: set<T>): (r: seq<T>)
    ensures NoDuplicates(r)
    ensures forall x :: x in r <==> x in s && x !in seen
    ensures |r| <= |s|
    ensures forall i, j :: 0 <= i < j < |r| ==> FirstIndex(s, r[i]) < FirstIndex(s, r[j])
  {
    if |s| == 0 then []
    else
      assert forall x :: x in s <==> x == s[0] || x in s[1..];
      if s[0] in seen then
        var r := DistinctFrom(s[1..], seen);
        FirstIndexInTail(s, r);
        r
      else
        var rest := DistinctFrom(s[1..], seen + {s[0]});
        FirstIndexInTail(s, rest);
        var r := [s[0]] + rest;
        assert forall i :: 0 < i < |r| ==> r[i] == rest[i - 1];
        r
  }

  /** Elements of the tail other than the head are found one place later in `s`. */
  lemma FirstIndexInTail<T>(s: seq<T>, t: seq<T>)
    requires |s| > 0
    requires forall i :: 0 <= i < |t| ==> t[i] in s[1..] && t[i] != s[0]
    ensures forall i :: 0 <= i < |t| ==> FirstIndex(s, t[i]) == FirstIndex(s[1..], t[i]) + 1
  {
  }

  /** Kotlin's `distinct()`: each element once, at the place it first occurs. */
  function Distinct<T(==,!new)>(s: seq<T>): (r: seq<T>)
    ensures NoDuplicates(r)
    ensures forall x :: x in r <==> x in s
    ensures |r| <= |s|
    ensures forall i, j :: 0 <= i < j < |r| ==> FirstIndex(s, r[i]) < FirstIndex(s, r[j])
  {
    DistinctFrom(s, {})
  }
}
