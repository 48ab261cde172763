/**
 LiDAR time-to-collision (computeTTCLidar in camFusion_Student.cpp).

 Each frame's points are scanned once, keeping a running minimum of the
 forward distance x (started at 1e8) and a max-heap capped at five entries
 that ends up holding the five smallest x values. The source hard-codes
 `useMedian = false`, so the raw minima feed the constant-velocity closure
 model TTC = currMin * dT / (prevMin - currMin) with dT = 1 / frameRate.
 */
module LidarTtc {
  import opened Common
  import opened Sorting
  import opened Statistics

  /** Capacity of the near-point heap (`queue_size`). */
  const HeapCapacity: nat := 5

  /** Initial value of the running minimum (`1e8`). */
  const NoPointMinX: real := 100000000.0

  /** The forward distances of a point cloud, in order. */
  function XValues(pts: seq<LidarPoint>): (xs: seq<real>)
    ensures |xs| == |pts|
    ensures forall i :: 0 <= i < |pts| ==> xs[i] == pts[i].x
  {
    seq(|pts|, i requires 0 <= i < |pts| => pts[i].x)
  }

  /** The running minimum after a scan of `xs`: the smallest of 1e8 and all of `xs`. */
  function LeastX(xs: seq<real>): (m: real)
    ensures m <= NoPointMinX
    ensures forall i :: 0 <= i < |xs| ==> m <= xs[i]
    ensures m == NoPointMinX || m in xs
  {
    if xs == [] then NoPointMinX
    else
      var m := LeastX(xs[..|xs| - 1]);
      var x := xs[|xs| - 1];
      assert xs == xs[..|xs| - 1] + [x];
      if m < x then m else x
  }

  /** `kept` holds smallest elements of `all`: it is drawn from `all`, and no
      element left out is below an element kept. */
  predicate KeepsSmallest(kept: seq<real>, all: seq<real>) {
    && multiset(kept) <= multiset(all)
    && forall y, z :: y in kept && z in multiset(all) - multiset(kept) ==> y <= z
  }

  /** The last element of an insertion is the larger of the new element and the old maximum. */
  lemma {:induction false} InsertLast(x: real, s: seq<real>)
    requires Sorted(s) && |s| > 0
    ensures var r := Insert(x, s); r[|r| - 1] == if x >= s[|s| - 1] then x else s[|s| - 1]
  {
    var r := Insert(x, s);
    if x <= s[0] {
      assert r == [x] + s;
      assert s[0] <= s[|s| - 1];
    } else {
      var t := s[1..];
      assert r == [s[0]] + Insert(x, t);
      if t == [] {
        assert r == [s[0], x];
      } else {
        SortedTail(s);
        InsertLast(x, t);
        assert t[|t| - 1] == s[|s| - 1];
      }
    }
  }

  /** The multiset `k` holds smallest elements of the multiset `a`. */
  ghost predicate SmallestOf(k: multiset<real>, a: multiset<real>) {
    && k <= a
    && forall y, z :: y in k && z in a - k ==> y <= z
  }

  /** `KeepsSmallest` is `SmallestOf` on the sequences' multisets. */
  lemma KeepsSmallestIsSmallestOf(kept: seq<real>, all: seq<real>)
    ensures KeepsSmallest(kept, all) <==> SmallestOf(multiset(kept), multiset(all))
  {
    if KeepsSmallest(kept, all) {
      forall y, z | y in multiset(kept) && z in multiset(all) - multiset(kept) ensures y <= z {
        assert y in kept;
      }
    }
    if SmallestOf(multiset(kept), multiset(all)) {
      forall y, z | y in kept && z in multiset(all) - multiset(kept) ensures y <= z {
        assert y in multiset(kept);
      }
    }
  }

  /** Seeing a value no smaller than anything kept, and keeping it out. */
  lemma SmallestOfAbove(k: multiset<real>, a: multiset<real>, x: real)
    requires SmallestOf(k, a)
    requires forall y :: y in k ==> y <= x
    ensures SmallestOf(k, a + multiset{x})
  {
    forall y, z | y in k && z in (a + multiset{x}) - k ensures y <= z {
      if z != x {
        assert z in a - k;
      }
    }
  }

  /** Seeing a value below the largest kept value `top`, keeping it and
      evicting one copy of `top`. */
  lemma SmallestOfBelow(k: multiset<real>, a: multiset<real>, x: real, top: real)
    requires SmallestOf(k, a)
    requires top in k && forall y :: y in k ==> y <= top
    requires x < top
    ensures SmallestOf(k - multiset{top} + multiset{x}, a + multiset{x})
  {
    var r := k - multiset{top} + multiset{x};
    var a' := a + multiset{x};
    assert r <= a';
    assert a' - r == (a - k) + multiset{top};
    forall y, z | y in r && z in a' - r ensures y <= z {
      if y != x {
        assert y in k;
      }
      if z != top {
        assert z in a - k;
      }
    }
  }

  /** The top of a heap bounds every value it holds, counted with multiplicity. */
  lemma TopBoundsContents(h: MaxHeap)
    requires h.Valid() && h.Size() > 0
    ensures h.Top() in multiset(h.items)
    ensures forall y :: y in multiset(h.items) ==> y <= h.Top()
  {
    TopIsMaximum(h);
    forall y | y in multiset(h.items) ensures y <= h.Top() {
      var i :| 0 <= i < |h.items| && h.items[i] == y;
    }
  }

  /** Adding one copy of a value and removing one copy gives back the multiset. */
  lemma AddThenRemove(m: multiset<real>, x: real)
    ensures m + multiset{x} - multiset{x} == m
  {
  }

  /** The push-then-pop step when the new value is at least the old maximum:
      the new value itself is evicted. */
  lemma PushPopAbove(h: MaxHeap, pre: seq<real>, x: real)
    requires h.Valid() && h.Size() > 0 && x >= h.Top()
    requires KeepsSmallest(h.items, pre)
    ensures KeepsSmallest(Pop(Push(h, x)).items, pre + [x])
  {
    var p := Push(h, x);
    var r := Pop(p);
    InsertLast(x, h.items);
    TopBoundsContents(h);
    assert p.Top() == x;
    AddThenRemove(multiset(h.items), x);
    assert multiset(r.items) == multiset(h.items);
    assert multiset(pre + [x]) == multiset(pre) + multiset{x};
    KeepsSmallestIsSmallestOf(h.items, pre);
    SmallestOfAbove(multiset(h.items), multiset(pre), x);
    KeepsSmallestIsSmallestOf(r.items, pre + [x]);
  }

  /** The push-then-pop step when the new value is below the old maximum:
      the old maximum is evicted and the new value kept. */
  lemma PushPopBelow(h: MaxHeap, pre: seq<real>, x: real)
    requires h.Valid() && h.Size() > 0 && x < h.Top()
    requires KeepsSmallest(h.items, pre)
    ensures KeepsSmallest(Pop(Push(h, x)).items, pre + [x])
  {
    var r := Pop(Push(h, x));
    var top := h.Top();
    InsertLast(x, h.items);
    TopBoundsContents(h);
    var k := multiset(h.items);
    assert top in k;
    assert multiset(r.items) == k + multiset{x} - multiset{top};
    assert k + multiset{x} - multiset{top} == k - multiset{top} + multiset{x};
    assert multiset(pre + [x]) == multiset(pre) + multiset{x};
    KeepsSmallestIsSmallestOf(h.items, pre);
    SmallestOfBelow(k, multiset(pre), x, top);
    KeepsSmallestIsSmallestOf(r.items, pre + [x]);
  }

  /** Pushing onto a full heap and popping its maximum keeps the smallest values. */
  lemma PushPopKeepsSmallest(h: MaxHeap, pre: seq<real>, x: real)
    requires h.Valid() && h.Size() > 0
    requires KeepsSmallest(h.items, pre)
    ensures KeepsSmallest(Pop(Push(h, x)).items, pre + [x])
  {
    if x >= h.Top() {
      PushPopAbove(h, pre, x);
    } else {
      PushPopBelow(h, pre, x);
    }
  }

  /** One scan step on the heap: push, then pop the maximum once the heap
      holds more than `HeapCapacity` values. */
  function Step(heap: MaxHeap, x: real): (r: MaxHeap)
    requires heap.Valid()
    ensures r.Valid()
  {
    var pushed := Push(heap, x);
    if pushed.Size() > HeapCapacity then Pop(pushed) else pushed
  }

  /** What the scan keeps about the heap after seeing `seen`: it is capped,
      holds everything while the cap is not reached, and holds smallest values. */
  predicate HeapInvariant(heap: MaxHeap, seen: seq<real>) {
    && heap.Valid()
    && heap.Size() == Min(|seen|, HeapCapacity)
    && (|seen| <= HeapCapacity ==> multiset(heap.items) == multiset(seen))
    && KeepsSmallest(heap.items, seen)
  }

  /** A scan step keeps the heap capped, and keeps the smallest values seen so far. */
  lemma StepKeepsSmallest(heap: MaxHeap, pre: seq<real>, x: real)
    requires HeapInvariant(heap, pre)
    ensures HeapInvariant(Step(heap, x), pre + [x])
  {
    if heap.Size() == HeapCapacity {
      StepAtCapacity(heap, pre, x);
    } else {
      StepBelowCapacity(heap, pre, x);
    }
  }

  /** A scan step on a full heap: the push is followed by a pop. */
  lemma StepAtCapacity(heap: MaxHeap, pre: seq<real>, x: real)
    requires HeapInvariant(heap, pre) && heap.Size() == HeapCapacity
    ensures HeapInvariant(Step(heap, x), pre + [x])
  {
    PushPopKeepsSmallest(heap, pre, x);
  }

  /** A scan step on a heap below the cap: the heap holds everything seen. */
  lemma StepBelowCapacity(heap: MaxHeap, pre: seq<real>, x: real)
    requires HeapInvariant(heap, pre) && heap.Size() < HeapCapacity
    ensures HeapInvariant(Step(heap, x), pre + [x])
  {
    var r := Step(heap, x);
    assert multiset(pre + [x]) == multiset(pre) + multiset{x};
    assert multiset(r.items) == multiset(pre + [x]);
    KeepsSmallestIsSmallestOf(r.items, pre + [x]);
  }

  /** The running minimum gains one comparison per value. */
  lemma LeastXSnoc(xs: seq<real>, x: real)
    ensures LeastX(xs + [x]) == if LeastX(xs) < x then LeastX(xs) else x
  {
    assert (xs + [x])[..|xs|] == xs;
  }

  /** The scan loop of computeTTCLidar over one frame's x values: the running
      minimum and the capped max-heap. */
  method ScanMinX(xs: seq<real>) returns (minX: real, heap: MaxHeap)
    ensures minX == LeastX(xs)
    ensures heap.Valid() && heap.Size() == Min(|xs|, HeapCapacity)
    ensures KeepsSmallest(heap.items, xs)
  {
    minX := NoPointMinX;
    heap := MaxHeap([]);
    var i := 0;
    ScanStart(xs);
    while i < |xs|
      invariant 0 <= i <= |xs|
      invariant minX == LeastX(xs[..i])
      invariant HeapInvariant(heap, xs[..i])
    {
      var x := xs[i];
      ScanStep(xs, i, minX, heap);
      minX := if minX < x then minX else x;
      heap := Step(heap, x);
      i := i + 1;
    }
    assert xs[..|xs|] == xs;
  }

  /** Before the scan both invariants hold of the empty prefix. */
  lemma ScanStart(xs: seq<real>)
    ensures NoPointMinX == LeastX(xs[..0])
    ensures HeapInvariant(MaxHeap([]), xs[..0])
  {
    assert xs[..0] == [];
  }

  /** One iteration of the scan keeps both of its invariants. */
  lemma ScanStep(xs: seq<real>, i: nat, minX: real, heap: MaxHeap)
    requires i < |xs| && minX == LeastX(xs[..i]) && HeapInvariant(heap, xs[..i])
    ensures (if minX < xs[i] then minX else xs[i]) == LeastX(xs[..i + 1])
    ensures HeapInvariant(Step(heap, xs[i]), xs[..i + 1])
  {
    assert xs[..i + 1] == xs[..i] + [xs[i]];
    LeastXSnoc(xs[..i], xs[i]);
    StepKeepsSmallest(heap, xs[..i], xs[i]);
  }

  /** The closure model: `currMin * dT / (prevMin - currMin)`, or a division by
      zero when the minimum did not change. */
  function ClosureTtc(prevMin: real, currMin: real, dT: real): (t: TtcResult)
    ensures t.Estimate? || t.ZeroDenominator?
    ensures t.ZeroDenominator? <==> prevMin == currMin
    ensures t.Estimate? ==> t.seconds * (prevMin - currMin) == currMin * dT
    ensures t.Estimate? && dT > 0.0 && 0.0 < currMin < prevMin ==> t.seconds > 0.0
    ensures t.Estimate? && dT > 0.0 && 0.0 < prevMin < currMin ==> t.seconds < 0.0
  {
    if prevMin - currMin == 0.0 then ZeroDenominator
    else Estimate(currMin * dT / (prevMin - currMin))
  }

  /** computeTTCLidar(prev, curr, frameRate, TTC) with `useMedian = false`. */
  method ComputeTTCLidar(prev: seq<LidarPoint>, curr: seq<LidarPoint>, frameRate: real)
    returns (ttc: TtcResult)
    requires frameRate != 0.0
    ensures ttc == ClosureTtc(LeastX(XValues(prev)), LeastX(XValues(curr)), 1.0 / frameRate)
  {
    var prevMin, prevHeap := ScanMinX(XValues(prev));
    var currMin, currHeap := ScanMinX(XValues(curr));
    var dT := 1.0 / frameRate;
    ttc := ClosureTtc(prevMin, currMin, dT);
  }

  /** A 20 m to 19 m closure at 10 frames per second gives 1.9 seconds. */
  lemma ClosureExample()
    ensures ClosureTtc(20.0, 19.0, 1.0 / 10.0) == Estimate(1.9)
  {
  }
}
