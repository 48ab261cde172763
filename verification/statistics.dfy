/**
 Robust statistics of camFusion_Student.cpp: the median of a vector range and
 the median of a max-heap (std::priority_queue<float>).

 The vector median sorts a copy of the WHOLE vector and then indexes it with
 `mid = start + (end - start) / 2` (C++ truncating division). An odd-sized
 range yields the `mid`-th smallest sample; an even-sized range averages the
 samples at `mid - 1` and `mid`, which for a range starting at 0 is the pair
 just below the centre, and for a two-element range reads index `start - 1`.
 An index outside the vector is undefined behaviour in the source; the model
 returns `None` for it.
 */
module Statistics {
  import opened Common
  import opened Sorting

  /** `end - start + 1`, the number of indices in the inclusive range. */
  function RangeSize(start: int, end: int): int {
    end - start + 1
  }

  /** `start + (end - start) / 2` with C++ integer division. */
  function MidIndex(start: int, end: int): int {
    start + CDiv(end - start, 2)
  }

  /** The indexing step of getMedianFromVector, applied to the sorted copy. */
  function PickMedian(sorted: seq<real>, start: int, end: int): Option<real> {
    var mid := MidIndex(start, end);
    if CRem(RangeSize(start, end), 2) == 1 then
      if 0 <= mid < |sorted| then Some(sorted[mid]) else None
    else
      if 1 <= mid < |sorted| then Some((sorted[mid] + sorted[mid - 1]) / 2.0) else None
  }

  /** getMedianFromVector(vec, start, end): sorts a copy, then picks by index. */
  function MedianFromVector(vec: seq<real>, start: int, end: int): (r: Option<real>)
    ensures CRem(RangeSize(start, end), 2) == 1 ==>
              (r.Some? <==> 0 <= MidIndex(start, end) < |vec|)
    ensures CRem(RangeSize(start, end), 2) == 1 && r.Some? ==>
              IsOrderStat(vec, MidIndex(start, end), r.value)
    ensures CRem(RangeSize(start, end), 2) != 1 ==>
              (r.Some? <==> 1 <= MidIndex(start, end) < |vec|)
    ensures CRem(RangeSize(start, end), 2) != 1 && r.Some? ==>
              r.value == (OrderStat(vec, MidIndex(start, end) - 1) + OrderStat(vec, MidIndex(start, end))) / 2.0
  {
    var sorted := Sort(vec);
    var mid := MidIndex(start, end);
    assert 0 <= mid < |sorted| ==> sorted[mid] == OrderStat(vec, mid);
    assert 1 <= mid < |sorted| ==> sorted[mid - 1] == OrderStat(vec, mid - 1);
    PickMedian(sorted, start, end)
  }

  /** The median of the whole vector, as every caller in the core requests it. */
  function FullRangeMedian(vec: seq<real>): Option<real> {
    MedianFromVector(vec, 0, |vec| - 1)
  }

  /** The copy is sorted, so the caller's sample order never matters. */
  lemma MedianPermutationInvariant(a: seq<real>, b: seq<real>, start: int, end: int)
    requires multiset(a) == multiset(b)
    ensures MedianFromVector(a, start, end) == MedianFromVector(b, start, end)
  {
    SortPermutationInvariant(a, b);
    assert |a| == |multiset(a)| == |multiset(b)| == |b|;
  }

  /** Over the whole vector the median is defined unless the vector has zero
      or exactly two samples; with two samples the source reads index -1. */
  lemma FullRangeMedianDefined(vec: seq<real>)
    ensures FullRangeMedian(vec).Some? <==> |vec| != 0 && |vec| != 2
  {
    var n := |vec|;
    if n % 2 == 1 {
      assert CRem(n, 2) == 1;
    } else {
      assert CRem(n, 2) == 0;
      if n > 0 {
        assert CDiv(n - 1, 2) == n / 2 - 1;
      }
    }
  }

  /** For an odd sample count the median is a true median: at most half the
      samples lie strictly below it and at most half strictly above it. */
  lemma FullRangeOddIsTrueMedian(vec: seq<real>)
    requires |vec| % 2 == 1
    ensures FullRangeMedian(vec).Some?
    ensures var m := FullRangeMedian(vec).value;
              m in vec && CountLess(vec, m) <= |vec| / 2 && |vec| - CountAtMost(vec, m) <= |vec| / 2
  {
    var n := |vec|;
    assert CRem(n, 2) == 1;
    assert MidIndex(0, n - 1) == n / 2;
  }

  /** For an even sample count of at least four the median averages the
      (n/2 - 2)-th and (n/2 - 1)-th smallest samples, not the central pair. */
  lemma FullRangeEvenIsLowerPair(vec: seq<real>)
    requires |vec| % 2 == 0 && |vec| >= 4
    ensures FullRangeMedian(vec)
              == Some((OrderStat(vec, |vec| / 2 - 2) + OrderStat(vec, |vec| / 2 - 1)) / 2.0)
  {
    var n := |vec|;
    assert CRem(n, 2) == 0;
    assert MidIndex(0, n - 1) == n / 2 - 1;
  }

  /** Four distinct ascending samples: the result is the mean of the two
      smallest, not the mean of the two central samples. */
  lemma MedianOfFourIsLowerPair(v: seq<real>)
    requires |v| == 4 && v[0] < v[1] < v[2] < v[3]
    ensures FullRangeMedian(v) == Some((v[0] + v[1]) / 2.0)
    ensures FullRangeMedian(v) != Some((v[1] + v[2]) / 2.0)
  {
    FullRangeEvenIsLowerPair(v);
    OrderStatOfSorted(v, 0);
    OrderStatOfSorted(v, 1);
  }

  /** When every sample equals `c`, any defined median is `c`. */
  lemma MedianOfConstant(vec: seq<real>, c: real, start: int, end: int)
    requires forall i :: 0 <= i < |vec| ==> vec[i] == c
    requires MedianFromVector(vec, start, end).Some?
    ensures MedianFromVector(vec, start, end).value == c
  {
    var mid := MidIndex(start, end);
    if CRem(RangeSize(start, end), 2) != 1 {
      assert OrderStat(vec, mid - 1) in vec;
      assert OrderStat(vec, mid) in vec;
    }
  }

  /** The median of a non-negative sample is non-negative. */
  lemma MedianNonNegative(vec: seq<real>, start: int, end: int)
    requires forall i :: 0 <= i < |vec| ==> 0.0 <= vec[i]
    requires MedianFromVector(vec, start, end).Some?
    ensures 0.0 <= MedianFromVector(vec, start, end).value
  {
    var mid := MidIndex(start, end);
    if CRem(RangeSize(start, end), 2) != 1 {
      assert OrderStat(vec, mid - 1) in vec;
      assert OrderStat(vec, mid) in vec;
    }
  }

  /** std::priority_queue<float> with the default comparator: a max-heap.
      Its contents are kept in ascending order, so the top is the last item. */
  datatype MaxHeap = MaxHeap(items: seq<real>) {
    predicate Valid() {
      Sorted(items)
    }

    function Size(): nat {
      |items|
    }

    /** priority_queue::top: the largest element (see `TopIsMaximum`). */
    function Top(): real
      requires Valid() && |items| > 0
    {
      items[|items| - 1]
    }
  }

  lemma TopIsMaximum(h: MaxHeap)
    requires h.Valid() && h.Size() > 0
    ensures h.Top() in h.items
    ensures forall i :: 0 <= i < h.Size() ==> h.items[i] <= h.Top()
  {
  }

  /** priority_queue::push. */
  function Push(h: MaxHeap, x: real): (r: MaxHeap)
    requires h.Valid()
    ensures r.Valid()
    ensures multiset(r.items) == multiset(h.items) + multiset{x}
    ensures r.Size() == h.Size() + 1
  {
    MaxHeap(Insert(x, h.items))
  }

  /** priority_queue::pop: removes one copy of the largest element. */
  function Pop(h: MaxHeap): (r: MaxHeap)
    requires h.Valid() && h.Size() > 0
    ensures r.Valid()
    ensures multiset(r.items) == multiset(h.items) - multiset{h.Top()}
    ensures r.Size() == h.Size() - 1
    ensures r.items == h.items[..h.Size() - 1]
  {
    var n := |h.items|;
    assert h.items == h.items[..n - 1] + [h.items[n - 1]];
    MaxHeap(h.items[..n - 1])
  }

  /** Pops `n` times: what remains is the smallest `Size() - n` elements. */
  function PopN(h: MaxHeap, n: nat): (r: MaxHeap)
    requires h.Valid() && n <= h.Size()
    ensures r.Valid()
    ensures r.items == h.items[..h.Size() - n]
    decreases n
  {
    if n == 0 then h else PopN(Pop(h), n - 1)
  }

  /** The size left after popping `n / 2` of `n` elements. */
  function Remaining(n: nat): (rem: nat)
    ensures rem <= n
    ensures n > 0 ==> rem >= 1
    ensures n > 0 && rem % 2 == 0 ==> rem >= 2
  {
    n - n / 2
  }

  /** getMedianFromQueue(q): pops `size / 2` elements, then tests the parity of
      the size that REMAINS. An empty queue makes the source call top() on an
      empty container; the model returns `None` for it. As the heap is kept in
      ascending order, `items[k]` is its k-th smallest element
      (`QueueMedianOrderStats` restates the result in those terms). */
  function MedianFromQueue(q: MaxHeap): (r: Option<real>)
    requires q.Valid()
    ensures r.Some? <==> q.Size() > 0
    ensures var rem := Remaining(q.Size());
              rem % 2 == 1 ==> r == Some(q.items[rem - 1])
    ensures var rem := Remaining(q.Size());
              rem % 2 == 0 && rem > 0 ==> r == Some((q.items[rem - 1] + q.items[rem - 2]) / 2.0)
  {
    var rest := PopN(q, q.Size() / 2);
    var rem := rest.Size();
    assert rest.items == q.items[..rem];
    assert rem == q.Size() - q.Size() / 2;
    if rem % 2 == 0 then
      if rem == 0 then None
      else
        assert rem >= 2;
        var smaller := Pop(rest);
        assert smaller.items == q.items[..rem - 1];
        Some((rest.items[rem - 1] + smaller.items[rem - 2]) / 2.0)
    else
      Some(rest.items[rem - 1])
  }

  /** The queue median in terms of order statistics of the heap's contents. */
  lemma QueueMedianOrderStats(q: MaxHeap)
    requires q.Valid() && q.Size() > 0
    ensures var rem := Remaining(q.Size());
              rem % 2 == 1 ==> MedianFromQueue(q) == Some(OrderStat(q.items, rem - 1))
    ensures var rem := Remaining(q.Size());
              rem % 2 == 0 ==>
                MedianFromQueue(q) == Some((OrderStat(q.items, rem - 1) + OrderStat(q.items, rem - 2)) / 2.0)
  {
    MedianAsOrderStats(q.items, Remaining(q.Size()), MedianFromQueue(q));
  }

  /** A middle-of-prefix value of a sorted sequence, read as order statistics. */
  lemma MedianAsOrderStats(t: seq<real>, rem: nat, m: Option<real>)
    requires Sorted(t) && 1 <= rem <= |t|
    requires rem % 2 == 1 ==> m == Some(t[rem - 1])
    requires rem % 2 == 0 ==> rem >= 2 && m == Some((t[rem - 1] + t[rem - 2]) / 2.0)
    ensures rem % 2 == 1 ==> m == Some(OrderStat(t, rem - 1))
    ensures rem % 2 == 0 ==> m == Some((OrderStat(t, rem - 1) + OrderStat(t, rem - 2)) / 2.0)
  {
    OrderStatOfSorted(t, rem - 1);
    if rem % 2 == 0 {
      OrderStatOfSorted(t, rem - 2);
      SameAverage(m, t[rem - 1], t[rem - 2], OrderStat(t, rem - 1), OrderStat(t, rem - 2));
    }
  }

  /** Replacing both operands of an average by equal values. */
  lemma SameAverage(m: Option<real>, x: real, y: real, a: real, b: real)
    requires m == Some((x + y) / 2.0) && a == x && b == y
    ensures m == Some((a + b) / 2.0)
  {
  }

  /** On a full heap of five (the capacity the LiDAR estimator uses) the
      queue median is the third-smallest element, a true median. */
  lemma QueueMedianOfFive(q: MaxHeap)
    requires q.Valid() && q.Size() == 5
    ensures MedianFromQueue(q) == Some(q.items[2])
    ensures CountLess(q.items, q.items[2]) <= 2 && 5 - CountAtMost(q.items, q.items[2]) <= 2
  {
    assert Remaining(q.Size()) == 3;
    SortedIndexIsOrderStat(q.items, 2);
  }

  /** On three elements the size left after one pop is even, so the result
      averages the two smallest elements instead of taking the middle one. */
  lemma QueueMedianOfThree(q: MaxHeap)
    requires q.Valid() && q.Size() == 3
    ensures MedianFromQueue(q) == Some((q.items[0] + q.items[1]) / 2.0)
  {
    assert Remaining(q.Size()) == 2;
  }
}
