/**
  SortArray: a sorter that holds a reference to its caller's array, sorts it
  in place with recursive QuickSort over a Lomuto partition (last element as
  pivot, `<=` comparison) and reads the median at index length/2.
  The element type is `int`, the only instantiation the filter uses.
 */
module Sorting {
  import opened Wrappers
  import opened OrderStatistics

  /**
    `s` and `t` hold the same elements and agree outside [lo, hi):
    `s` is `t` with that range permuted.
   */
  ghost predicate PermutedWithin(s: seq<int>, t: seq<int>, lo: int, hi: int) {
    && |s| == |t|
    && 0 <= lo <= hi <= |s|
    && multiset(s) == multiset(t)
    && forall k :: 0 <= k < |s| && !(lo <= k < hi) ==> s[k] == t[k]
  }

  /** When the outside of a range is unchanged, the range itself holds the same elements. */
  lemma PermutedRange(s: seq<int>, t: seq<int>, lo: int, hi: int)
    requires PermutedWithin(s, t, lo, hi)
    ensures multiset(s[lo..hi]) == multiset(t[lo..hi])
  {
    assert s == s[..lo] + s[lo..hi] + s[hi..];
    assert t == t[..lo] + t[lo..hi] + t[hi..];
    assert s[..lo] == t[..lo];
    assert s[hi..] == t[hi..];
    var outside := multiset(s[..lo]) + multiset(s[hi..]);
    assert multiset(s) == multiset(s[lo..hi]) + outside;
    assert multiset(t) == multiset(t[lo..hi]) + outside;
    assert multiset(s[lo..hi]) == multiset(s) - outside;
    assert multiset(t[lo..hi]) == multiset(t) - outside;
  }

  /** Bounds that hold of every element of a range survive a permutation of it. */
  lemma PermutedBounds(s: seq<int>, t: seq<int>, lo: int, hi: int, pivot: int)
    requires PermutedWithin(s, t, lo, hi)
    ensures (forall k :: lo <= k < hi ==> t[k] <= pivot) ==> (forall k :: lo <= k < hi ==> s[k] <= pivot)
    ensures (forall k :: lo <= k < hi ==> t[k] > pivot) ==> (forall k :: lo <= k < hi ==> s[k] > pivot)
  {
    PermutedRange(s, t, lo, hi);
    forall k | lo <= k < hi
      ensures exists k' :: lo <= k' < hi && s[k] == t[k']
    {
      assert s[k] == s[lo..hi][k - lo];
      assert s[k] in multiset(t[lo..hi]);
      var k' :| 0 <= k' < hi - lo && t[lo..hi][k'] == s[k];
      assert t[lo + k'] == s[k];
    }
  }

  /** Two sorted ranges split by a pivot that bounds both make one sorted range. */
  lemma JoinAroundPivot(s: seq<int>, low: int, p: int, high: int)
    requires 0 <= low <= p <= high < |s|
    requires SortedBetween(s, low, p) && SortedBetween(s, p + 1, high + 1)
    requires forall k :: low <= k < p ==> s[k] <= s[p]
    requires forall k :: p < k <= high ==> s[k] > s[p]
    ensures SortedBetween(s, low, high + 1)
  {
  }

  class SortArray {
    /** The caller's array: the sorter keeps the reference, not a copy. */
    var data: array?<int>

    /** A sorter with no array. */
    constructor Empty()
      ensures data == null
    {
      data := null;
    }

    /** Stores the caller's reference; sorting through it sorts the caller's array. */
    constructor (a: array?<int>)
      ensures data == a
    {
      data := a;
    }

    method SetArray(a: array?<int>)
      modifies this
      ensures data == a
    {
      data := a;
    }

    /** Sorts the whole array ascending; a missing array or one of length 0 or 1 is left alone. */
    method QuickSort()
      modifies data
      ensures data != null ==> Sorted(data[..])
      ensures data != null ==> multiset(data[..]) == multiset(old(data[..]))
      ensures data != null && data.Length <= 1 ==> data[..] == old(data[..])
    {
      if data == null || data.Length <= 1 {
        return;
      }
      QuickSortRange(0, data.Length - 1);
      assert data[..] == data[0..data.Length];
      assert old(data[..]) == old(data[..])[0..data.Length];
    }

    /** Sorts the inclusive range [low, high] and touches nothing outside it. */
    method QuickSortRange(low: int, high: int)
      requires data != null && 0 <= low && high < data.Length && low <= high + 1
      modifies data
      ensures SortedBetween(data[..], low, high + 1)
      ensures PermutedWithin(data[..], old(data[..]), low, high + 1)
      decreases high + 1 - low
    {
      if low < high {
        ghost var s0 := data[..];
        var pivotIndex := Partition(low, high);
        ghost var s1 := data[..];
        QuickSortRange(low, pivotIndex - 1);
        ghost var s2 := data[..];
        QuickSortRange(pivotIndex + 1, high);
        ghost var s3 := data[..];

        PermutedBounds(s2, s1, low, pivotIndex, s1[pivotIndex]);
        PermutedBounds(s3, s2, pivotIndex + 1, high + 1, s1[pivotIndex]);
        JoinAroundPivot(s3, low, pivotIndex, high);

      }
    }

    /**
      Lomuto partition of [low, high] around the pivot data[high]: returns
      the pivot's final index p, with every element before it `<=` the pivot
      and every element after it, up to high, greater.
     */
    method Partition(low: int, high: int) returns (p: int)
      requires data != null && 0 <= low < high < data.Length
      modifies data
      ensures low <= p <= high
      ensures data[p] == old(data[high])
      ensures forall k :: low <= k < p ==> data[k] <= data[p]
      ensures forall k :: p < k <= high ==> data[k] > data[p]
      ensures PermutedWithin(data[..], old(data[..]), low, high + 1)
    {
      var pivot := data[high];
      var i := low - 1;
      for j := low to high
        invariant low - 1 <= i < j
        invariant data[high] == pivot
        invariant forall k :: low <= k <= i ==> data[k] <= pivot
        invariant forall k :: i < k < j ==> data[k] > pivot
        invariant forall k :: 0 <= k < data.Length && !(low <= k <= high) ==> data[k] == old(data[k])
        invariant multiset(data[..]) == old(multiset(data[..]))
      {
        if data[j] <= pivot {
          i := i + 1;
          Swap(i, j);
        }
      }
      Swap(i + 1, high);
      p := i + 1;
    }

    /** Exchanges the cells at i and j; every other cell keeps its value. */
    method Swap(i: int, j: int)
      requires data != null && 0 <= i < data.Length && 0 <= j < data.Length
      modifies data
      ensures data[i] == old(data[j]) && data[j] == old(data[i])
      ensures forall k :: 0 <= k < data.Length && k != i && k != j ==> data[k] == old(data[k])
      ensures multiset(data[..]) == multiset(old(data[..]))
    {
      var temp := data[i];
      data[i] := data[j];
      data[j] := temp;
    }

    /**
      The element at index length/2, or None when there is no data or it is
      empty. On a sorted data this is the median of its elements.
     */
    function GetMedian(): (r: Option<int>)
      reads this, data
      ensures r.None? <==> (data == null || data.Length == 0)
      ensures r.Some? ==> r.value == data[data.Length / 2]
      ensures r.Some? && Sorted(data[..]) ==> r.value == Median(data[..])
    {
      if data == null || data.Length == 0 then
        None
      else
        var medianIndex := data.Length / 2;
        SortedMedianIndex(data[..]);
        Some(data[medianIndex])
    }

    /**
      Sorts the referenced data (the caller's own data) and returns its
      median: the (length/2)-th order statistic of the original elements.
     */
    method SortAndGetMedian() returns (r: Option<int>)
      modifies data
      ensures data != null ==> Sorted(data[..])
      ensures data != null ==> multiset(data[..]) == multiset(old(data[..]))
      ensures r.None? <==> (data == null || data.Length == 0)
      ensures r.Some? ==> r.value == data[data.Length / 2]
      ensures r.Some? ==> r.value == Median(old(data[..]))
      ensures r.Some? ==> CountBelow(old(data[..]), r.value) <= data.Length / 2 < CountAtMost(old(data[..]), r.value)
    {
      QuickSort();
      r := GetMedian();
      if r.Some? {
        MedianPermutation(data[..], old(data[..]));
        MedianRank(old(data[..]));
      }
    }
  }
}
