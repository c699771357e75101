/**
  The specification side of median selection: what "sorted", "the median" and
  "the rank of a value" mean for a sequence of channel values. The in-place
  QuickSort of module Sorting is proved against these definitions.
 */
module OrderStatistics {

  /** The elements of `s` with indices in [lo, hi) are in ascending order. */
  ghost predicate SortedBetween(s: seq<int>, lo: int, hi: int)
    requires 0 <= lo <= hi <= |s|
  {
    forall i, j :: lo <= i < j < hi ==> s[i] <= s[j]
  }

  ghost predicate Sorted(s: seq<int>) {
    SortedBetween(s, 0, |s|)
  }

  /** Inserts `x` into a sorted sequence, keeping it sorted. */
  function Insert(x: int, s: seq<int>): (r: seq<int>)
    ensures |r| == |s| + 1
    ensures multiset(r) == multiset(s) + multiset{x}
  {
    if s == [] || x <= s[0] then
      [x] + s
    else
      assert s == [s[0]] + s[1..];
      [s[0]] + Insert(x, s[1..])
  }

  lemma {:induction false} InsertSorted(x: int, s: seq<int>)
    requires Sorted(s)
    ensures Sorted(Insert(x, s))
  {
    if s != [] && s[0] < x {
      var r := Insert(x, s[1..]);
      InsertSorted(x, s[1..]);
      forall j | 0 <= j < |r|
        ensures s[0] <= r[j]
      {
        assert r[j] in multiset(s[1..]) + multiset{x};
        if r[j] != x {
          assert r[j] in multiset(s[1..]);
          var i :| 0 <= i < |s[1..]| && s[1..][i] == r[j];
          assert s[i + 1] == r[j];
        }
      }
      assert Insert(x, s) == [s[0]] + r;
    }
  }

  /** Functional insertion sort: shows that every sequence has a sorted arrangement. */
  function InsertionSort(s: seq<int>): (r: seq<int>)
    ensures |r| == |s|
    ensures multiset(r) == multiset(s)
    ensures Sorted(r)
  {
    if s == [] then
      []
    else
      assert s == [s[0]] + s[1..];
      InsertSorted(s[0], InsertionSort(s[1..]));
      Insert(s[0], InsertionSort(s[1..]))
  }

  /**
    The ascending arrangement of the elements of `s`, specified rather than
    computed; SortedUnique shows that there is only one.
   */
  ghost function SortedCopy(s: seq<int>): (r: seq<int>)
    ensures |r| == |s|
    ensures multiset(r) == multiset(s)
    ensures Sorted(r)
  {
    assert Sorted(InsertionSort(s));
    var r :| Sorted(r) && multiset(r) == multiset(s);
    assert |r| == |multiset(r)| == |multiset(s)| == |s|;
    r
  }

  /** The median: the element at index |s|/2 of the ascending arrangement of `s`. */
  ghost function Median(s: seq<int>): (m: int)
    requires |s| > 0
    ensures m in multiset(s)
  {
    SortedCopy(s)[|s| / 2]
  }

  /** The number of elements of `s` strictly below `bound`. */
  function CountBelow(s: seq<int>, bound: int): (n: nat)
    ensures n <= |s|
  {
    if s == [] then 0 else (if s[0] < bound then 1 else 0) + CountBelow(s[1..], bound)
  }

  /** The number of elements of `s` that are at most `v`. */
  function CountAtMost(s: seq<int>, v: int): (n: nat)
    ensures n <= |s|
  {
    CountBelow(s, v + 1)
  }

  lemma {:induction false} CountBelowAppend(s: seq<int>, t: seq<int>, bound: int)
    ensures CountBelow(s + t, bound) == CountBelow(s, bound) + CountBelow(t, bound)
  {
    if s != [] {
      assert (s + t)[0] == s[0];
      assert (s + t)[1..] == s[1..] + t;
      CountBelowAppend(s[1..], t, bound);
      assert CountBelow(s + t, bound)
          == (if s[0] < bound then 1 else 0) + CountBelow(s[1..] + t, bound);
    } else {
      assert s + t == t;
    }
  }

  lemma {:induction false} CountBelowMonotone(s: seq<int>, b1: int, b2: int)
    requires b1 <= b2
    ensures CountBelow(s, b1) <= CountBelow(s, b2)
  {
    if s != [] {
      CountBelowMonotone(s[1..], b1, b2);
    }
  }

  /** Over the integers, "at most v" implies "below w" when v < w. */
  lemma AtMostBelowStrict(s: seq<int>, v: int, w: int)
    requires v < w
    ensures CountAtMost(s, v) <= CountBelow(s, w)
  {
    CountBelowMonotone(s, v + 1, w);
  }

  /** Counting depends only on the multiset of elements, not on their order. */
  lemma {:induction false} CountBelowPermutation(s: seq<int>, t: seq<int>, bound: int)
    requires multiset(s) == multiset(t)
    ensures CountBelow(s, bound) == CountBelow(t, bound)
  {
    if s == [] {
      assert |t| == |multiset(t)| == 0;
    } else {
      var x := s[0];
      assert s == [x] + s[1..];
      assert x in multiset(t);
      var i :| 0 <= i < |t| && t[i] == x;
      var rest := t[..i] + t[i + 1..];
      assert t == t[..i] + [x] + t[i + 1..];
      assert multiset(t) == multiset(t[..i]) + multiset{x} + multiset(t[i + 1..]);
      assert multiset(s) == multiset{x} + multiset(s[1..]);
      assert multiset(rest) == multiset(t[..i]) + multiset(t[i + 1..]);
      assert multiset(rest) == multiset(t) - multiset{x};
      assert multiset(s[1..]) == multiset(s) - multiset{x};
      CountBelowPermutation(s[1..], rest, bound);
      CountBelowAppend(t[..i] + [x], t[i + 1..], bound);
      CountBelowAppend(t[..i], [x], bound);
      CountBelowAppend(t[..i], t[i + 1..], bound);
    }
  }

  lemma {:induction false} CountBelowNone(s: seq<int>, bound: int)
    requires forall i :: 0 <= i < |s| ==> bound <= s[i]
    ensures CountBelow(s, bound) == 0
  {
    if s != [] {
      CountBelowNone(s[1..], bound);
    }
  }

  lemma {:induction false} CountBelowAll(s: seq<int>, bound: int)
    requires forall i :: 0 <= i < |s| ==> s[i] < bound
    ensures CountBelow(s, bound) == |s|
  {
    if s != [] {
      CountBelowAll(s[1..], bound);
    }
  }

  /**
    In a sorted sequence the element at index k has rank k: at most k elements
    are strictly smaller and at least k + 1 are smaller or equal.
   */
  lemma SortedRank(t: seq<int>, k: int)
    requires Sorted(t) && 0 <= k < |t|
    ensures CountBelow(t, t[k]) <= k
    ensures CountAtMost(t, t[k]) >= k + 1
  {
    assert t == t[..k] + t[k..];
    CountBelowAppend(t[..k], t[k..], t[k]);
    CountBelowNone(t[k..], t[k]);
    var b := t[k] + 1;
    assert CountAtMost(t, t[k]) == CountBelow(t, b);
    assert t == t[..k + 1] + t[k + 1..];
    CountBelowAppend(t[..k + 1], t[k + 1..], b);
    CountBelowAll(t[..k + 1], b);
  }

  /**
    The median is the (|s|/2)-th order statistic: fewer than |s|/2 + 1 elements
    are strictly smaller than it and at least |s|/2 + 1 are smaller or equal.
   */
  lemma MedianRank(s: seq<int>)
    requires |s| > 0
    ensures CountBelow(s, Median(s)) <= |s| / 2
    ensures CountAtMost(s, Median(s)) >= |s| / 2 + 1
  {
    PermutedRank(s, SortedCopy(s), |s| / 2);
  }

  /** The rank of an element of a sorted arrangement carries over to the original sequence. */
  lemma PermutedRank(s: seq<int>, t: seq<int>, k: int)
    requires Sorted(t) && multiset(s) == multiset(t) && 0 <= k < |t|
    ensures CountBelow(s, t[k]) <= k
    ensures CountAtMost(s, t[k]) >= k + 1
  {
    SortedRank(t, k);
    CountBelowPermutation(s, t, t[k]);
    CountBelowPermutation(s, t, t[k] + 1);
  }

  /** Conversely, the rank condition singles out the median. */
  lemma MedianUnique(s: seq<int>, v: int)
    requires |s| > 0
    requires CountBelow(s, v) <= |s| / 2 < CountAtMost(s, v)
    ensures v == Median(s)
  {
    var m := Median(s);
    MedianRank(s);
    if v < m {
      AtMostBelowStrict(s, v, m);
    } else if m < v {
      AtMostBelowStrict(s, m, v);
    }
  }

  lemma SortedHeadIsLeast(a: seq<int>, x: int)
    requires Sorted(a) && x in multiset(a)
    ensures |a| > 0 && a[0] <= x
  {
    var i :| 0 <= i < |a| && a[i] == x;
  }

  lemma SortedTail(a: seq<int>)
    requires Sorted(a) && |a| > 0
    ensures Sorted(a[1..])
  {
    forall i, j | 0 <= i < j < |a| - 1
      ensures a[1..][i] <= a[1..][j]
    {
      assert a[1..][i] == a[i + 1] && a[1..][j] == a[j + 1];
    }
  }

  /** Removing equal heads from two arrangements of the same elements leaves arrangements of the same elements. */
  lemma TailsPermuted(a: seq<int>, b: seq<int>)
    requires |a| > 0 && |b| > 0 && a[0] == b[0] && multiset(a) == multiset(b)
    ensures multiset(a[1..]) == multiset(b[1..])
  {
    assert a == [a[0]] + a[1..];
    assert b == [b[0]] + b[1..];
    assert multiset(a[1..]) == multiset(a) - multiset{a[0]};
    assert multiset(b[1..]) == multiset(b) - multiset{b[0]};
  }

  /** Two sorted arrangements of the same elements are equal. */
  lemma {:induction false} SortedUnique(a: seq<int>, b: seq<int>)
    requires Sorted(a) && Sorted(b) && multiset(a) == multiset(b)
    ensures a == b
  {
    if a == [] {
      assert |b| == |multiset(b)| == 0;
    } else {
      assert |b| == |multiset(b)| > 0;
      SortedHeadIsLeast(a, b[0]);
      SortedHeadIsLeast(b, a[0]);
      TailsPermuted(a, b);
      SortedTail(a);
      SortedTail(b);
      SortedUnique(a[1..], b[1..]);
      assert a == [a[0]] + a[1..];
      assert b == [b[0]] + b[1..];
    }
  }

  /** The median depends only on the multiset of the inputs. */
  lemma MedianPermutation(s: seq<int>, t: seq<int>)
    requires |s| > 0 && multiset(s) == multiset(t)
    ensures |t| == |s| && Median(s) == Median(t)
  {
    assert |t| == |multiset(t)| == |multiset(s)| == |s|;
    SortedUnique(SortedCopy(s), SortedCopy(t));
  }

  /** Any sorted permutation of `s` holds the median at index |s|/2. */
  lemma SortedPermutationMedian(s: seq<int>, t: seq<int>)
    requires |s| > 0 && Sorted(t) && multiset(t) == multiset(s)
    ensures |t| == |s| && t[|s| / 2] == Median(s)
  {
    assert |t| == |multiset(t)| == |multiset(s)| == |s|;
    SortedUnique(t, SortedCopy(s));
  }

  /** A sorted sequence holds its own median at index |s|/2. */
  lemma SortedMedianIndex(s: seq<int>)
    requires |s| > 0
    ensures Sorted(s) ==> s[|s| / 2] == Median(s)
  {
    if Sorted(s) {
      SortedPermutationMedian(s, s);
    }
  }

  /** A value held by more than half of the elements is the median. */
  lemma MajorityMedian(s: seq<int>, v: int)
    requires |s| > 0
    requires CountAtMost(s, v) - CountBelow(s, v) > |s| / 2
    ensures Median(s) == v
  {
    var m := Median(s);
    MedianRank(s);
    if m < v {
      AtMostBelowStrict(s, m, v);
    } else if v < m {
      AtMostBelowStrict(s, v, m);
    }
  }

  /** When every element but the one at index c equals v, v occurs at least |s| - 1 times. */
  lemma {:induction false} CountAllButOne(s: seq<int>, c: int, v: int)
    requires forall k :: 0 <= k < |s| && k != c ==> s[k] == v
    ensures CountAtMost(s, v) - CountBelow(s, v) >= |s| - (if 0 <= c < |s| then 1 else 0)
  {
    if s != [] {
      CountAllButOne(s[1..], c - 1, v);
      assert CountAtMost(s, v) == (if s[0] < v + 1 then 1 else 0) + CountBelow(s[1..], v + 1);
      assert CountBelow(s, v) == (if s[0] < v then 1 else 0) + CountBelow(s[1..], v);
      assert (if s[0] < v + 1 then 1 else 0) - (if s[0] < v then 1 else 0) >= (if c == 0 then 0 else 1);
    }
  }

  /** Nine equal values but one: the odd one out never becomes the median. */
  lemma ImpulseMedian(s: seq<int>, c: int, v: int)
    requires |s| >= 3
    requires forall k :: 0 <= k < |s| && k != c ==> s[k] == v
    ensures Median(s) == v
  {
    CountAllButOne(s, c, v);
    MajorityMedian(s, v);
  }

  /** The median of values in [lo, hi] lies in [lo, hi]. */
  lemma MedianBounds(s: seq<int>, lo: int, hi: int)
    requires |s| > 0
    requires forall i :: 0 <= i < |s| ==> lo <= s[i] <= hi
    ensures lo <= Median(s) <= hi
  {
    assert Median(s) in s;
  }

  /** Ties do not move the median: five 5s and four 9s give 5. */
  lemma TieMedian()
    ensures Median([5, 5, 5, 5, 5, 9, 9, 9, 9]) == 5
  {
    var s := [5, 5, 5, 5, 5, 9, 9, 9, 9];
    assert CountAtMost(s, 5) == 5;
    assert CountBelow(s, 5) == 0;
    MajorityMedian(s, 5);
  }
}
