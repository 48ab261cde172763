/**
 Camera time-to-collision (getKeyPointDistanceRatios and computeTTCCamera in
 camFusion_Student.cpp).

 For every (outer, inner) pair of correspondences, with the outer index over
 0 .. n-2 and the inner index over 1 .. n-1, the distance between the two
 current-frame key points is divided by the distance between their
 previous-frame partners. The pair is kept only when the previous distance
 exceeds the double-precision machine epsilon and the current distance lies in
 [100, 160] pixels. The loops visit ordered pairs, so a self pair (i, i) and
 both orderings of a pair are visited; self pairs fall to the distance filter
 whenever the distance of a point to itself is zero. The TTC is
 -dT / (1 - median ratio), or NaN when no ratio survives.
 */
module CameraTtc {
  import opened Common
  import opened Sorting
  import opened Statistics

  /** std::numeric_limits<double>::epsilon(), 2^-52. */
  const Epsilon: real := 1.0 / 4503599627370496.0

  /** Accepted range of the current-frame distance, in pixels. */
  const MinDist: real := 100.0
  const MaxDist: real := 160.0

  /** The current-frame positions of the matched key points, in match order. */
  function CurrPoints(curr: seq<Keypoint>, matches: seq<Match>): (pts: seq<Point>)
    requires forall k :: 0 <= k < |matches| ==> 0 <= matches[k].trainIdx < |curr|
    ensures |pts| == |matches|
    ensures forall k :: 0 <= k < |matches| ==> pts[k] == curr[matches[k].trainIdx].pt
  {
    seq(|matches|, k requires 0 <= k < |matches| => curr[matches[k].trainIdx].pt)
  }

  /** The previous-frame positions of the matched key points, in match order. */
  function PrevPoints(prev: seq<Keypoint>, matches: seq<Match>): (pts: seq<Point>)
    requires forall k :: 0 <= k < |matches| ==> 0 <= matches[k].queryIdx < |prev|
    ensures |pts| == |matches|
    ensures forall k :: 0 <= k < |matches| ==> pts[k] == prev[matches[k].queryIdx].pt
  {
    seq(|matches|, k requires 0 <= k < |matches| => prev[matches[k].queryIdx].pt)
  }

  /** The distance filter for the pair (i, j) of correspondences, given their
      previous-frame positions `pp` and current-frame positions `pc`. */
  predicate PairAccepted(pp: seq<Point>, pc: seq<Point>, dist: Distance, i: int, j: int)
    requires |pp| == |pc|
    requires 0 <= i < |pc| && 0 <= j < |pc|
  {
    var dCurr := dist(pc[i], pc[j]);
    var dPrev := dist(pp[i], pp[j]);
    dPrev > Epsilon && MinDist <= dCurr <= MaxDist
  }

  /** The distance ratio of an accepted pair. */
  function PairRatio(pp: seq<Point>, pc: seq<Point>, dist: Distance, i: int, j: int): (ratio: real)
    requires |pp| == |pc|
    requires 0 <= i < |pc| && 0 <= j < |pc|
    requires PairAccepted(pp, pc, dist, i, j)
    ensures ratio * dist(pp[i], pp[j]) == dist(pc[i], pc[j])
    ensures ratio > 0.0
  {
    dist(pc[i], pc[j]) / dist(pp[i], pp[j])
  }

  /** The pair (i, j) is one the loops of getKeyPointDistanceRatios visit. */
  predicate Visited(n: int, i: int, j: int) {
    0 <= i < n - 1 && 1 <= j < n
  }

  /** A pair of correspondence indices: `i` from the outer loop, `j` from the inner one. */
  datatype IndexPair = IndexPair(i: int, j: int)

  /** The order in which the loops visit pairs: by outer index, then by inner index. */
  predicate PairBefore(a: IndexPair, b: IndexPair) {
    a.i < b.i || (a.i == b.i && a.j < b.j)
  }

  /** Every pair indexes one of `n` correspondences twice. */
  predicate PairsInRange(n: int, ps: seq<IndexPair>) {
    forall k :: 0 <= k < |ps| ==> 0 <= ps[k].i < n && 0 <= ps[k].j < n
  }

  /** The pairs are in strictly increasing visiting order. */
  predicate PairsAscending(ps: seq<IndexPair>) {
    forall k, l :: 0 <= k < l < |ps| ==> PairBefore(ps[k], ps[l])
  }

  /** The pairs (i, j), (i, j + 1), ..., (i, n - 1) of one inner loop. */
  function RowFrom(i: int, j: nat, n: nat): (r: seq<IndexPair>)
    decreases n - j
    ensures |r| == if j <= n then n - j else 0
    ensures forall k :: 0 <= k < |r| ==> r[k].i == i && j <= r[k].j < n
    ensures forall j' :: j <= j' < n ==> IndexPair(i, j') in r
    ensures forall k, l :: 0 <= k < l < |r| ==> r[k].j < r[l].j
  {
    if j >= n then [] else [IndexPair(i, j)] + RowFrom(i, j + 1, n)
  }

  /** Pairs of rows before `i + 1`, in visiting order, followed by pairs of
      row `i + 1` in increasing inner index, are in visiting order. */
  lemma RowThenRowsAscending(row: seq<IndexPair>, rest: seq<IndexPair>, i: int)
    requires forall k :: 0 <= k < |row| ==> row[k].i == i
    requires forall k, l :: 0 <= k < l < |row| ==> row[k].j < row[l].j
    requires forall k :: 0 <= k < |rest| ==> rest[k].i > i
    requires PairsAscending(rest)
    ensures PairsAscending(row + rest)
  {
  }

  /** Every pair the loops of getKeyPointDistanceRatios visit for `n`
      correspondences from outer index `i` on, each once, in visiting order. */
  function VisitedPairs(n: nat, i: nat): (r: seq<IndexPair>)
    decreases n - i
    ensures i < n ==> |r| == (n - 1 - i) * (n - 1)
    ensures forall k :: 0 <= k < |r| ==> Visited(n, r[k].i, r[k].j) && i <= r[k].i
    ensures forall i', j' :: i <= i' && Visited(n, i', j') ==> IndexPair(i', j') in r
    ensures PairsAscending(r) && PairsInRange(n, r)
  {
    if i + 1 >= n then []
    else
      var row := RowFrom(i, 1, n);
      var rest := VisitedPairs(n, i + 1);
      assert (n - 1 - i) * (n - 1) == (n - 1) + (n - 1 - (i + 1)) * (n - 1);
      RowThenRowsAscending(row, rest, i);
      row + rest
  }

  /** The pairs visited from outer index `i` on are those of row `i` followed by
      those visited from `i + 1` on. */
  lemma VisitedPairsStep(n: nat, i: nat)
    requires i + 1 < n
    ensures VisitedPairs(n, i) == RowFrom(i, 1, n) + VisitedPairs(n, i + 1)
  {
  }

  /** Every pair passes the distance filter. */
  predicate AllAccepted(pp: seq<Point>, pc: seq<Point>, dist: Distance, ps: seq<IndexPair>)
    requires |pp| == |pc| && PairsInRange(|pc|, ps)
  {
    forall k :: 0 <= k < |ps| ==> PairAccepted(pp, pc, dist, ps[k].i, ps[k].j)
  }

  /** The pairs of `ps` that pass the distance filter, in their order in `ps`. */
  function AcceptedAmong(pp: seq<Point>, pc: seq<Point>, dist: Distance, ps: seq<IndexPair>): (r: seq<IndexPair>)
    requires |pp| == |pc| && PairsInRange(|pc|, ps)
    ensures |r| <= |ps|
    ensures PairsInRange(|pc|, r) && AllAccepted(pp, pc, dist, r)
  {
    if ps == [] then []
    else
      var rest := AcceptedAmong(pp, pc, dist, ps[1..]);
      if PairAccepted(pp, pc, dist, ps[0].i, ps[0].j) then [ps[0]] + rest else rest
  }

  /** The filter keeps exactly the accepted pairs of `ps`, and keeps them in
      visiting order when `ps` is. */
  lemma {:induction false} AcceptedAmongExact(pp: seq<Point>, pc: seq<Point>, dist: Distance, ps: seq<IndexPair>)
    requires |pp| == |pc| && PairsInRange(|pc|, ps)
    ensures forall k :: 0 <= k < |AcceptedAmong(pp, pc, dist, ps)| ==> AcceptedAmong(pp, pc, dist, ps)[k] in ps
    ensures forall k :: 0 <= k < |ps| && PairAccepted(pp, pc, dist, ps[k].i, ps[k].j) ==>
      ps[k] in AcceptedAmong(pp, pc, dist, ps)
    ensures PairsAscending(ps) ==> PairsAscending(AcceptedAmong(pp, pc, dist, ps))
  {
    if ps != [] {
      AcceptedAmongExact(pp, pc, dist, ps[1..]);
      FilterHeadStep(pp, pc, dist, ps, AcceptedAmong(pp, pc, dist, ps[1..]), AcceptedAmong(pp, pc, dist, ps));
    }
  }

  /** Filtering the head of `ps` in front of an exact filter of its tail gives
      an exact filter of `ps`. */
  lemma FilterHeadStep(pp: seq<Point>, pc: seq<Point>, dist: Distance, ps: seq<IndexPair>, rest: seq<IndexPair>, r: seq<IndexPair>)
    requires |pp| == |pc| && PairsInRange(|pc|, ps) && ps != []
    requires r == if PairAccepted(pp, pc, dist, ps[0].i, ps[0].j) then [ps[0]] + rest else rest
    requires forall k :: 0 <= k < |rest| ==> rest[k] in ps[1..]
    requires forall k :: 1 <= k < |ps| && PairAccepted(pp, pc, dist, ps[k].i, ps[k].j) ==> ps[k] in rest
    requires PairsAscending(ps[1..]) ==> PairsAscending(rest)
    ensures forall k :: 0 <= k < |r| ==> r[k] in ps
    ensures forall k :: 0 <= k < |ps| && PairAccepted(pp, pc, dist, ps[k].i, ps[k].j) ==> ps[k] in r
    ensures PairsAscending(ps) ==> PairsAscending(r)
  {
    forall k | 0 <= k < |rest| ensures rest[k] in ps {
      var m :| 0 <= m < |ps[1..]| && ps[1..][m] == rest[k];
      assert ps[m + 1] == rest[k];
    }
    if PairsAscending(ps) {
      assert PairsAscending(ps[1..]);
    }
    AscendingHeadFirst(ps, rest);
  }

  /** In an ascending sequence the head comes before every element of a
      sequence drawn from its tail. */
  lemma AscendingHeadFirst(ps: seq<IndexPair>, rest: seq<IndexPair>)
    requires |ps| >= 1
    requires forall k :: 0 <= k < |rest| ==> rest[k] in ps[1..]
    ensures PairsAscending(ps) && PairsAscending(rest) ==> PairsAscending([ps[0]] + rest)
  {
    if PairsAscending(ps) && PairsAscending(rest) {
      forall k | 0 <= k < |rest| ensures PairBefore(ps[0], rest[k]) {
        var m :| 0 <= m < |ps[1..]| && ps[1..][m] == rest[k];
        assert ps[m + 1] == rest[k];
      }
    }
  }

  /** Filtering a pair in front of a sequence keeps it in front exactly when it
      passes the filter. */
  lemma AcceptedAmongCons(pp: seq<Point>, pc: seq<Point>, dist: Distance, p: IndexPair, ps: seq<IndexPair>)
    requires |pp| == |pc| && 0 <= p.i < |pc| && 0 <= p.j < |pc| && PairsInRange(|pc|, ps)
    ensures PairsInRange(|pc|, [p] + ps)
    ensures AcceptedAmong(pp, pc, dist, [p] + ps) ==
      (if PairAccepted(pp, pc, dist, p.i, p.j) then [p] else []) + AcceptedAmong(pp, pc, dist, ps)
  {
    assert ([p] + ps)[0] == p && ([p] + ps)[1..] == ps;
  }

  /** Filtering distributes over concatenation. */
  lemma {:induction false} AcceptedAmongAppend(pp: seq<Point>, pc: seq<Point>, dist: Distance, a: seq<IndexPair>, b: seq<IndexPair>)
    requires |pp| == |pc| && PairsInRange(|pc|, a) && PairsInRange(|pc|, b)
    ensures PairsInRange(|pc|, a + b)
    ensures AcceptedAmong(pp, pc, dist, a + b) == AcceptedAmong(pp, pc, dist, a) + AcceptedAmong(pp, pc, dist, b)
  {
    assert PairsInRange(|pc|, a + b) by {
      forall k | 0 <= k < |a + b| ensures 0 <= (a + b)[k].i < |pc| && 0 <= (a + b)[k].j < |pc| {
        if k >= |a| { assert (a + b)[k] == b[k - |a|]; }
      }
    }
    if a != [] {
      assert (a + b)[1..] == a[1..] + b;
      AcceptedAmongAppend(pp, pc, dist, a[1..], b);
    } else {
      assert a + b == b;
    }
  }

  /** The accepted visited pairs of `n` correspondences, in visiting order:
      strictly ascending, each one accepted and visited, and none left out. */
  function AcceptedPairs(pp: seq<Point>, pc: seq<Point>, dist: Distance): (r: seq<IndexPair>)
    requires |pp| == |pc|
    ensures PairsInRange(|pc|, r) && AllAccepted(pp, pc, dist, r)
    ensures forall k :: 0 <= k < |r| ==> Visited(|pc|, r[k].i, r[k].j)
    ensures forall i, j :: Visited(|pc|, i, j) && PairAccepted(pp, pc, dist, i, j) ==> IndexPair(i, j) in r
    ensures PairsAscending(r)
  {
    var visited := VisitedPairs(|pc|, 0);
    var r := AcceptedAmong(pp, pc, dist, visited);
    AcceptedAmongExact(pp, pc, dist, visited);
    forall i, j | Visited(|pc|, i, j) && PairAccepted(pp, pc, dist, i, j) ensures IndexPair(i, j) in r {
      var k :| 0 <= k < |visited| && visited[k] == IndexPair(i, j);
    }
    r
  }

  /** AcceptedPairs is the only strictly ascending listing of the accepted
      visited pairs. */
  lemma AcceptedPairsUnique(pp: seq<Point>, pc: seq<Point>, dist: Distance, s: seq<IndexPair>)
    requires |pp| == |pc|
    requires PairsAscending(s)
    requires forall k :: 0 <= k < |s| ==> Visited(|pc|, s[k].i, s[k].j) && PairAccepted(pp, pc, dist, s[k].i, s[k].j)
    requires forall i, j :: Visited(|pc|, i, j) && PairAccepted(pp, pc, dist, i, j) ==> IndexPair(i, j) in s
    ensures s == AcceptedPairs(pp, pc, dist)
  {
    var r := AcceptedPairs(pp, pc, dist);
    forall x ensures x in s <==> x in r {
      if x in s {
        var k :| 0 <= k < |s| && s[k] == x;
      }
      if x in r {
        var k :| 0 <= k < |r| && r[k] == x;
      }
    }
    PairListingsEqual(s, r);
  }

  /** Two strictly ascending listings of pairs with the same members are equal. */
  lemma PairListingsEqual(s: seq<IndexPair>, r: seq<IndexPair>)
    requires PairsAscending(s) && PairsAscending(r)
    requires forall x :: x in s <==> x in r
    ensures s == r
  {
    assert Ascending(s, PairBefore) && Ascending(r, PairBefore);
    AscendingSameMembersEqual(s, r, PairBefore);
  }

  /** `r` holds the ratios of the accepted pairs `ps`, one per pair, in order. */
  predicate RatiosOf(pp: seq<Point>, pc: seq<Point>, dist: Distance, ps: seq<IndexPair>, r: seq<real>)
    requires |pp| == |pc| && PairsInRange(|pc|, ps) && AllAccepted(pp, pc, dist, ps)
  {
    |r| == |ps| && forall k :: 0 <= k < |r| ==> r[k] == PairRatio(pp, pc, dist, ps[k].i, ps[k].j)
  }

  /** The ratios of two runs of pairs, concatenated, are the ratios of the
      concatenated runs. */
  lemma RatiosOfAppend(pp: seq<Point>, pc: seq<Point>, dist: Distance, a: seq<IndexPair>, b: seq<IndexPair>, ra: seq<real>, rb: seq<real>)
    requires |pp| == |pc| && PairsInRange(|pc|, a) && AllAccepted(pp, pc, dist, a)
    requires PairsInRange(|pc|, b) && AllAccepted(pp, pc, dist, b)
    requires RatiosOf(pp, pc, dist, a, ra) && RatiosOf(pp, pc, dist, b, rb)
    ensures PairsInRange(|pc|, a + b) && AllAccepted(pp, pc, dist, a + b)
    ensures RatiosOf(pp, pc, dist, a + b, ra + rb)
  {
    var ab := a + b;
    forall k | 0 <= k < |ab| ensures ab[k] == if k < |a| then a[k] else b[k - |a|] {
    }
    assert PairsInRange(|pc|, ab);
    assert AllAccepted(pp, pc, dist, ab);
    forall k | 0 <= k < |ra + rb| ensures (ra + rb)[k] == PairRatio(pp, pc, dist, ab[k].i, ab[k].j) {
      if k >= |ra| { assert (ra + rb)[k] == rb[k - |ra|]; }
    }
  }

  /** `x` is the ratio of an accepted pair (i, j) with `lo <= j`. */
  ghost predicate RatioOfRow(pp: seq<Point>, pc: seq<Point>, dist: Distance, i: int, lo: int, x: real)
    requires |pp| == |pc|
    requires 0 <= i < |pc|
  {
    exists j :: 0 <= lo <= j < |pc| && PairAccepted(pp, pc, dist, i, j) && x == PairRatio(pp, pc, dist, i, j)
  }

  /** `x` is the ratio of an accepted visited pair (i, j) with `lo <= i`. */
  ghost predicate RatioOfRows(pp: seq<Point>, pc: seq<Point>, dist: Distance, lo: int, x: real)
    requires |pp| == |pc|
  {
    exists i, j :: lo <= i && Visited(|pc|, i, j) && PairAccepted(pp, pc, dist, i, j) && x == PairRatio(pp, pc, dist, i, j)
  }

  /** The ratios the inner loop appends for the outer index `i`, from inner index `j` on. */
  function InnerRatios(pp: seq<Point>, pc: seq<Point>, dist: Distance, i: int, j: nat): (r: seq<real>)
    requires |pp| == |pc|
    requires 0 <= i < |pc|
    decreases |pc| - j
    ensures |r| <= |pc| - j || j >= |pc|
    ensures j >= |pc| ==> r == []
    ensures forall k :: 0 <= k < |r| ==> RatioOfRow(pp, pc, dist, i, j, r[k])
    ensures forall j' :: j <= j' < |pc| && PairAccepted(pp, pc, dist, i, j') ==>
      PairRatio(pp, pc, dist, i, j') in r
    ensures RatiosOf(pp, pc, dist, AcceptedAmong(pp, pc, dist, RowFrom(i, j, |pc|)), r)
  {
    if j >= |pc| then []
    else
      var rest := InnerRatios(pp, pc, dist, i, j + 1);
      assert RowFrom(i, j, |pc|) == [IndexPair(i, j)] + RowFrom(i, j + 1, |pc|);
      RatiosCons(pp, pc, dist, IndexPair(i, j), RowFrom(i, j + 1, |pc|), rest);
      var r := if PairAccepted(pp, pc, dist, i, j) then [PairRatio(pp, pc, dist, i, j)] + rest else rest;
      InnerRatiosSound(pp, pc, dist, i, j, rest, r);
      r
  }

  /** One step of the inner loop keeps every ratio traceable to an accepted
      pair of the row and leaves out no accepted pair. */
  lemma InnerRatiosSound(pp: seq<Point>, pc: seq<Point>, dist: Distance, i: int, j: nat, rest: seq<real>, r: seq<real>)
    requires |pp| == |pc| && 0 <= i < |pc| && j < |pc|
    requires |rest| <= |pc| - (j + 1)
    requires forall k :: 0 <= k < |rest| ==> RatioOfRow(pp, pc, dist, i, j + 1, rest[k])
    requires forall j' :: j + 1 <= j' < |pc| && PairAccepted(pp, pc, dist, i, j') ==>
      PairRatio(pp, pc, dist, i, j') in rest
    requires r == if PairAccepted(pp, pc, dist, i, j) then [PairRatio(pp, pc, dist, i, j)] + rest else rest
    ensures |r| <= |pc| - j
    ensures forall k :: 0 <= k < |r| ==> RatioOfRow(pp, pc, dist, i, j, r[k])
    ensures forall j' :: j <= j' < |pc| && PairAccepted(pp, pc, dist, i, j') ==>
      PairRatio(pp, pc, dist, i, j') in r
  {
    if PairAccepted(pp, pc, dist, i, j) {
      assert RatioOfRow(pp, pc, dist, i, j, r[0]);
      forall k | 1 <= k < |r| ensures RatioOfRow(pp, pc, dist, i, j, r[k]) {
        assert r[k] == rest[k - 1] && RatioOfRow(pp, pc, dist, i, j + 1, rest[k - 1]);
        var j' :| j + 1 <= j' < |pc| && PairAccepted(pp, pc, dist, i, j') && rest[k - 1] == PairRatio(pp, pc, dist, i, j');
      }
    } else {
      forall k | 0 <= k < |r| ensures RatioOfRow(pp, pc, dist, i, j, r[k]) {
        assert RatioOfRow(pp, pc, dist, i, j + 1, rest[k]);
        var j' :| j + 1 <= j' < |pc| && PairAccepted(pp, pc, dist, i, j') && rest[k] == PairRatio(pp, pc, dist, i, j');
      }
    }
  }

  /** One step of the inner loop: the ratio of pair `p`, when accepted, goes in
      front of the ratios of the pairs after it. */
  lemma RatiosCons(pp: seq<Point>, pc: seq<Point>, dist: Distance, p: IndexPair, ps: seq<IndexPair>, rest: seq<real>)
    requires |pp| == |pc| && 0 <= p.i < |pc| && 0 <= p.j < |pc| && PairsInRange(|pc|, ps)
    requires RatiosOf(pp, pc, dist, AcceptedAmong(pp, pc, dist, ps), rest)
    ensures PairsInRange(|pc|, [p] + ps)
    ensures PairAccepted(pp, pc, dist, p.i, p.j) ==>
      RatiosOf(pp, pc, dist, AcceptedAmong(pp, pc, dist, [p] + ps), [PairRatio(pp, pc, dist, p.i, p.j)] + rest)
    ensures !PairAccepted(pp, pc, dist, p.i, p.j) ==>
      RatiosOf(pp, pc, dist, AcceptedAmong(pp, pc, dist, [p] + ps), rest)
  {
    AcceptedAmongCons(pp, pc, dist, p, ps);
    if PairAccepted(pp, pc, dist, p.i, p.j) {
      RatiosOfAppend(pp, pc, dist, [p], AcceptedAmong(pp, pc, dist, ps), [PairRatio(pp, pc, dist, p.i, p.j)], rest);
    }
  }

  /** The ratios the outer loop appends from outer index `i` on. */
  function OuterRatios(pp: seq<Point>, pc: seq<Point>, dist: Distance, i: nat): (r: seq<real>)
    requires |pp| == |pc| >= 1
    decreases |pc| - i
    ensures i < |pc| ==> |r| <= (|pc| - 1 - i) * (|pc| - 1)
    ensures i >= |pc| - 1 ==> r == []
    ensures forall k :: 0 <= k < |r| ==> RatioOfRows(pp, pc, dist, i, r[k])
    ensures forall i', j' :: i <= i' && Visited(|pc|, i', j') && PairAccepted(pp, pc, dist, i', j') ==>
      PairRatio(pp, pc, dist, i', j') in r
    ensures RatiosOf(pp, pc, dist, AcceptedAmong(pp, pc, dist, VisitedPairs(|pc|, i)), r)
  {
    if i >= |pc| - 1 then []
    else
      var n := |pc|;
      var row := InnerRatios(pp, pc, dist, i, 1);
      var rest := OuterRatios(pp, pc, dist, i + 1);
      RowThenRestSound(pp, pc, dist, i, row, rest, row + rest);
      VisitedPairsStep(n, i);
      RatiosConcat(pp, pc, dist, RowFrom(i, 1, n), VisitedPairs(n, i + 1), row, rest);
      row + rest
  }

  /** The ratios of two runs of pairs, each filtered, concatenate to the ratios
      of the two runs concatenated and filtered. */
  lemma RatiosConcat(pp: seq<Point>, pc: seq<Point>, dist: Distance, a: seq<IndexPair>, b: seq<IndexPair>, ra: seq<real>, rb: seq<real>)
    requires |pp| == |pc| && PairsInRange(|pc|, a) && PairsInRange(|pc|, b)
    requires RatiosOf(pp, pc, dist, AcceptedAmong(pp, pc, dist, a), ra)
    requires RatiosOf(pp, pc, dist, AcceptedAmong(pp, pc, dist, b), rb)
    ensures PairsInRange(|pc|, a + b)
    ensures RatiosOf(pp, pc, dist, AcceptedAmong(pp, pc, dist, a + b), ra + rb)
  {
    AcceptedAmongAppend(pp, pc, dist, a, b);
    RatiosOfAppend(pp, pc, dist, AcceptedAmong(pp, pc, dist, a), AcceptedAmong(pp, pc, dist, b), ra, rb);
  }

  /** Concatenating the ratios of row `i` with those of the rows after it keeps
      every ratio traceable to an accepted visited pair, leaves none out, and
      adds at most one ratio per visited pair of row `i`. */
  lemma RowThenRestSound(pp: seq<Point>, pc: seq<Point>, dist: Distance, i: nat, row: seq<real>, rest: seq<real>, r: seq<real>)
    requires |pp| == |pc|
    requires i < |pc| - 1 && r == row + rest
    requires |row| <= |pc| - 1 && |rest| <= (|pc| - 1 - (i + 1)) * (|pc| - 1)
    requires forall k :: 0 <= k < |row| ==> RatioOfRow(pp, pc, dist, i, 1, row[k])
    requires forall k :: 0 <= k < |rest| ==> RatioOfRows(pp, pc, dist, i + 1, rest[k])
    requires forall j' :: 1 <= j' < |pc| && PairAccepted(pp, pc, dist, i, j') ==> PairRatio(pp, pc, dist, i, j') in row
    requires forall i', j' :: i + 1 <= i' && Visited(|pc|, i', j') && PairAccepted(pp, pc, dist, i', j') ==>
      PairRatio(pp, pc, dist, i', j') in rest
    ensures |r| <= (|pc| - 1 - i) * (|pc| - 1)
    ensures forall k :: 0 <= k < |r| ==> RatioOfRows(pp, pc, dist, i, r[k])
    ensures forall i', j' :: i <= i' && Visited(|pc|, i', j') && PairAccepted(pp, pc, dist, i', j') ==>
      PairRatio(pp, pc, dist, i', j') in r
  {
    var n := |pc|;
    assert (n - 1 - i) * (n - 1) == (n - 1) + (n - 1 - (i + 1)) * (n - 1);
    forall k | 0 <= k < |r| ensures RatioOfRows(pp, pc, dist, i, r[k]) {
      if k < |row| {
        assert RatioOfRow(pp, pc, dist, i, 1, row[k]);
        var j :| 1 <= j < |pc| && PairAccepted(pp, pc, dist, i, j) && row[k] == PairRatio(pp, pc, dist, i, j);
        assert Visited(|pc|, i, j) && r[k] == row[k];
      } else {
        assert RatioOfRows(pp, pc, dist, i + 1, rest[k - |row|]);
        assert r[k] == rest[k - |row|];
      }
    }
  }

  /** getKeyPointDistanceRatios: the ratios of all visited pairs that pass the
      distance filter, in loop order. The loop bound `end() - 1` needs at least
      one correspondence. */
  function DistanceRatios(pp: seq<Point>, pc: seq<Point>, dist: Distance): (r: seq<real>)
    requires |pp| == |pc| >= 1
    ensures |r| <= (|pc| - 1) * (|pc| - 1)
    ensures forall k :: 0 <= k < |r| ==> RatioOfRows(pp, pc, dist, 0, r[k])
    ensures forall i, j :: Visited(|pc|, i, j) && PairAccepted(pp, pc, dist, i, j) ==>
      PairRatio(pp, pc, dist, i, j) in r
    ensures RatiosOf(pp, pc, dist, AcceptedPairs(pp, pc, dist), r)
  {
    OuterRatios(pp, pc, dist, 0)
  }

  /** No ratio survives exactly when no visited pair passes the distance filter. */
  lemma NoRatiosIffNoAcceptedPair(pp: seq<Point>, pc: seq<Point>, dist: Distance)
    requires |pp| == |pc| >= 1
    ensures DistanceRatios(pp, pc, dist) == [] <==>
      forall i, j :: Visited(|pc|, i, j) ==> !PairAccepted(pp, pc, dist, i, j)
  {
    var r := DistanceRatios(pp, pc, dist);
    if r != [] {
      assert RatioOfRows(pp, pc, dist, 0, r[0]);
    }
  }

  /** When a point is at distance zero from itself, no self pair contributes. */
  lemma SelfPairsRejected(pp: seq<Point>, pc: seq<Point>, dist: Distance, i: int)
    requires |pp| == |pc|
    requires 0 <= i < |pc|
    requires dist(pc[i], pc[i]) == 0.0
    ensures !PairAccepted(pp, pc, dist, i, i)
  {
  }

  /** A single correspondence gives no ratio: the outer loop has nothing to visit. */
  lemma SingleMatchNoRatios(pp: seq<Point>, pc: seq<Point>, dist: Distance)
    requires |pp| == |pc| == 1
    ensures DistanceRatios(pp, pc, dist) == []
  {
  }

  /** The scale-change model: TTC = -dT / (1 - m) for median ratio `m`. */
  function ScaleTtc(m: real, dT: real): (t: TtcResult)
    ensures t.Estimate? || t.ZeroDenominator?
    ensures t.ZeroDenominator? <==> m == 1.0
    ensures t.Estimate? ==> t.seconds * (1.0 - m) == -dT
    ensures t.Estimate? && dT > 0.0 && m > 1.0 ==> t.seconds > 0.0
    ensures t.Estimate? && dT > 0.0 && m < 1.0 ==> t.seconds < 0.0
  {
    var d := 1.0 - m;
    if d == 0.0 then ZeroDenominator
    else
      var seconds := -dT / d;
      assert seconds * d == -dT;
      Estimate(seconds)
  }

  /** computeTTCCamera on the matched positions: NaN without ratios, the
      out-of-range read of the median with exactly two, otherwise the
      scale-change model on the median ratio. */
  function ComputeTTCCamera(pp: seq<Point>, pc: seq<Point>, dist: Distance, frameRate: real): (t: TtcResult)
    requires |pp| == |pc| >= 1
    requires frameRate != 0.0
    ensures t.NotANumber? <==> DistanceRatios(pp, pc, dist) == []
    ensures t.OutOfRangeRead? <==> |DistanceRatios(pp, pc, dist)| == 2
    ensures var ratios := DistanceRatios(pp, pc, dist);
      |ratios| % 2 == 1 ==> t == ScaleTtc(OrderStat(ratios, |ratios| / 2), 1.0 / frameRate)
    ensures var ratios := DistanceRatios(pp, pc, dist);
      |ratios| % 2 == 0 && |ratios| >= 4 ==>
        t == ScaleTtc((OrderStat(ratios, |ratios| / 2 - 2) + OrderStat(ratios, |ratios| / 2 - 1)) / 2.0, 1.0 / frameRate)
  {
    TtcFromRatios(DistanceRatios(pp, pc, dist), frameRate)
  }

  /** The part of computeTTCCamera after the ratios are collected: NaN
      without ratios, the out-of-range read of the median with exactly two,
      otherwise the scale-change model on the median ratio. */
  function TtcFromRatios(ratios: seq<real>, frameRate: real): (t: TtcResult)
    requires frameRate != 0.0
    ensures t.NotANumber? <==> ratios == []
    ensures t.OutOfRangeRead? <==> |ratios| == 2
    ensures |ratios| % 2 == 1 ==> t == ScaleTtc(OrderStat(ratios, |ratios| / 2), 1.0 / frameRate)
    ensures |ratios| % 2 == 0 && |ratios| >= 4 ==>
      t == ScaleTtc((OrderStat(ratios, |ratios| / 2 - 2) + OrderStat(ratios, |ratios| / 2 - 1)) / 2.0, 1.0 / frameRate)
  {
    MedianCases(ratios);
    if |ratios| == 0 then NotANumber
    else
      match FullRangeMedian(ratios)
      case None => OutOfRangeRead
      case Some(m) => ScaleTtc(m, 1.0 / frameRate)
  }

  /** The full-range median by sample count: undefined for none or two samples,
      the middle order statistic for an odd count, the lower central pair for
      an even count of at least four. */
  lemma MedianCases(vec: seq<real>)
    ensures FullRangeMedian(vec).Some? <==> |vec| != 0 && |vec| != 2
    ensures |vec| % 2 == 1 ==> FullRangeMedian(vec) == Some(OrderStat(vec, |vec| / 2))
    ensures |vec| % 2 == 0 && |vec| >= 4 ==>
      FullRangeMedian(vec) == Some((OrderStat(vec, |vec| / 2 - 2) + OrderStat(vec, |vec| / 2 - 1)) / 2.0)
  {
    FullRangeMedianDefined(vec);
    if |vec| % 2 == 1 {
      OddMedianIsMiddleOrderStat(vec);
    } else if |vec| >= 4 {
      FullRangeEvenIsLowerPair(vec);
    }
  }

  /** For an odd count the full-range median is the middle order statistic. */
  lemma OddMedianIsMiddleOrderStat(vec: seq<real>)
    requires |vec| % 2 == 1
    ensures FullRangeMedian(vec) == Some(OrderStat(vec, |vec| / 2))
  {
    FullRangeOddIsTrueMedian(vec);
    var m := FullRangeMedian(vec).value;
    OrderStatUnique(vec, |vec| / 2, m, OrderStat(vec, |vec| / 2));
  }

  /** computeTTCCamera as the source states it: the key point positions are
      looked up through the correspondences first. */
  function ComputeTTCCameraFromMatches(prev: seq<Keypoint>, curr: seq<Keypoint>, matches: seq<Match>,
                                       dist: Distance, frameRate: real): (t: TtcResult)
    requires ValidMatches(matches, prev, curr) && |matches| >= 1
    requires frameRate != 0.0
    ensures t.NotANumber? <==>
      forall i, j :: Visited(|matches|, i, j) ==>
        !PairAccepted(PrevPoints(prev, matches), CurrPoints(curr, matches), dist, i, j)
  {
    var pp := PrevPoints(prev, matches);
    var pc := CurrPoints(curr, matches);
    NoRatiosIffNoAcceptedPair(pp, pc, dist);
    ComputeTTCCamera(pp, pc, dist, frameRate)
  }
}
