/**
 The two filtering loops of matching2D_Student.cpp.

 The k-nearest-neighbour selector of matchDescriptors receives, for every
 query descriptor, its two best reference matches and appends the first one
 to the output when the distance ratio d0 / d1 is AT LEAST 0.8 — the reverse
 of the usual ratio test, so clearly distinctive matches are dropped.

 detKeypointsHarris scans the normalised corner response row by row,
 truncates each response to an int, and offers every pixel whose response
 exceeds 100 to a non-maximum suppression over the key point list: the first
 overlapping key point with a strictly lower response is replaced, any other
 overlap drops the candidate, and a candidate overlapping nothing is appended.
 KeyPoint::overlap is a parameter.
 */
module Matching2D {
  import opened Common

  // ---------------------------------------------------------------------
  // KNN ratio filter

  /** `compareRatio`. */
  const CompareRatio: real := 0.8

  /** The ratio test of the KNN selector on the two best distances. A zero
      second distance makes the quotient +inf (kept) for a positive first
      distance, -inf (dropped) for a negative one and NaN (dropped) for zero. */
  predicate RatioKept(d0: real, d1: real) {
    if d1 == 0.0 then d0 > 0.0 else d0 / d1 >= CompareRatio
  }

  /** Every neighbour list holds at least the two entries the loop reads. */
  predicate TwoNeighbours(knn: seq<seq<Match>>) {
    forall k :: 0 <= k < |knn| ==> |knn[k]| >= 2
  }

  /** The neighbour list of a query passes the ratio test. */
  predicate Passes(list: seq<Match>)
    requires |list| >= 2
  {
    RatioKept(list[0].distance, list[1].distance)
  }

  /** The queries below `n` whose neighbour list passes, in query order. */
  function KeptBelow(knn: seq<seq<Match>>, n: nat): (idx: seq<int>)
    requires TwoNeighbours(knn) && n <= |knn|
    ensures forall i :: 0 <= i < |idx| ==> 0 <= idx[i] < n && Passes(knn[idx[i]])
    ensures forall k :: 0 <= k < n && Passes(knn[k]) ==> k in idx
    ensures forall i, j :: 0 <= i < j < |idx| ==> idx[i] < idx[j]
  {
    if n == 0 then []
    else KeptBelow(knn, n - 1) + (if Passes(knn[n - 1]) then [n - 1] else [])
  }

  /** The queries whose neighbour list passes, in query order. */
  function KeptQueries(knn: seq<seq<Match>>): (idx: seq<int>)
    requires TwoNeighbours(knn)
    ensures forall i :: 0 <= i < |idx| ==> 0 <= idx[i] < |knn| && Passes(knn[idx[i]])
    ensures forall k :: 0 <= k < |knn| && Passes(knn[k]) ==> k in idx
    ensures forall i, j :: 0 <= i < j < |idx| ==> idx[i] < idx[j]
  {
    KeptBelow(knn, |knn|)
  }

  /** The matches the selector appends for the queries below `n`. */
  function SelectedBelow(knn: seq<seq<Match>>, n: nat): (r: seq<Match>)
    requires TwoNeighbours(knn) && n <= |knn|
    ensures |r| == |KeptBelow(knn, n)|
  {
    if n == 0 then []
    else SelectedBelow(knn, n - 1) + (if Passes(knn[n - 1]) then [knn[n - 1][0]] else [])
  }

  /** Entry `i` of the selection is the first neighbour of the i-th passing query. */
  lemma {:induction false} SelectedBelowEntry(knn: seq<seq<Match>>, n: nat, i: int)
    requires TwoNeighbours(knn) && n <= |knn|
    requires 0 <= i < |SelectedBelow(knn, n)|
    ensures SelectedBelow(knn, n)[i] == knn[KeptBelow(knn, n)[i]][0]
  {
    if i < |SelectedBelow(knn, n - 1)| {
      SelectedBelowEntry(knn, n - 1, i);
    }
  }

  /** The matches the selector appends: the first neighbour of every passing
      query, in query order. */
  function Selected(knn: seq<seq<Match>>): (r: seq<Match>)
    requires TwoNeighbours(knn)
    ensures |r| == |KeptQueries(knn)|
    ensures forall i :: 0 <= i < |r| ==> r[i] == knn[KeptQueries(knn)[i]][0]
  {
    var r := SelectedBelow(knn, |knn|);
    assert forall i :: 0 <= i < |r| ==> r[i] == knn[KeptBelow(knn, |knn|)[i]][0] by {
      forall i | 0 <= i < |r| ensures r[i] == knn[KeptBelow(knn, |knn|)[i]][0] {
        SelectedBelowEntry(knn, |knn|, i);
      }
    }
    r
  }

  /** The SEL_KNN branch of matchDescriptors after knnMatch: `matches` is
      extended, never cleared. */
  method KnnRatioFilter(knn: seq<seq<Match>>, matches: seq<Match>) returns (r: seq<Match>)
    requires TwoNeighbours(knn)
    ensures r == matches + Selected(knn)
  {
    r := matches;
    var i := 0;
    while i < |knn|
      invariant 0 <= i <= |knn|
      invariant r == matches + SelectedBelow(knn, i)
    {
      var list := knn[i];
      if Passes(list) {
        r := r + [list[0]];
      }
      i := i + 1;
    }
  }

  /** With a positive second distance, a query passes exactly when its best
      match is at least 0.8 times as far as the second best. */
  lemma RatioKeptIffFar(d0: real, d1: real)
    requires d1 > 0.0
    ensures RatioKept(d0, d1) <==> d0 >= CompareRatio * d1
  {
    var q := d0 / d1;
    assert q * d1 == d0;
    if q >= CompareRatio {
      assert q * d1 >= CompareRatio * d1;
    } else {
      assert q * d1 < CompareRatio * d1;
    }
  }

  /** A clearly distinctive best match (closer than 0.8 times the second) is dropped. */
  lemma {:induction false} DistinctiveMatchDropped(knn: seq<seq<Match>>, k: int)
    requires TwoNeighbours(knn) && 0 <= k < |knn|
    requires knn[k][1].distance > 0.0 && knn[k][0].distance < CompareRatio * knn[k][1].distance
    ensures k !in KeptQueries(knn)
  {
    RatioKeptIffFar(knn[k][0].distance, knn[k][1].distance);
  }

  /** Each query contributes at most one match, and the output only grows. */
  lemma AtMostOnePerQuery(knn: seq<seq<Match>>, matches: seq<Match>)
    requires TwoNeighbours(knn)
    ensures |matches| <= |matches + Selected(knn)| <= |matches| + |knn|
    ensures (matches + Selected(knn))[..|matches|] == matches
  {
    var idx := KeptQueries(knn);
    IncreasingBounded(idx, |knn|);
  }

  /** A strictly increasing sequence of indices below `n` has at most `n` entries. */
  lemma {:induction false} IncreasingBounded(idx: seq<int>, n: nat)
    requires forall i :: 0 <= i < |idx| ==> 0 <= idx[i] < n
    requires forall i, j :: 0 <= i < j < |idx| ==> idx[i] < idx[j]
    ensures |idx| <= n
    decreases |idx|
  {
    if idx != [] {
      var m := |idx| - 1;
      var front := idx[..m];
      assert forall i :: 0 <= i < m ==> front[i] == idx[i];
      assert forall i :: 0 <= i < m ==> 0 <= front[i] < idx[m];
      IncreasingBounded(front, idx[m]);
      assert |front| == m && m <= idx[m] < n;
    }
  }

  // ---------------------------------------------------------------------
  // Harris non-maximum suppression

  /** `minResponse`. */
  const MinResponse: int := 100

  /** `apertureSize`; a corner key point gets the diameter `2 * apertureSize`. */
  const ApertureSize: int := 3

  /** `maxOverlap`. */
  const MaxOverlap: real := 0.0

  /** cv::KeyPoint::overlap: the overlap ratio of two key point discs. */
  type Overlap = (Keypoint, Keypoint) -> real

  /** The key point built for column `i`, row `j` with truncated response `response`. */
  function CornerAt(i: int, j: int, response: int): Keypoint {
    Keypoint(Point(i as real, j as real), (2 * ApertureSize) as real, response as real)
  }

  /** The two key points overlap more than `maxOverlap` allows. */
  predicate Overlaps(overlap: Overlap, a: Keypoint, b: Keypoint) {
    overlap(a, b) > MaxOverlap
  }

  /** Entry `j` overlaps the candidate and has a strictly lower response. */
  predicate Replaceable(kpts: seq<Keypoint>, cand: Keypoint, overlap: Overlap, j: int) {
    0 <= j < |kpts| && Overlaps(overlap, cand, kpts[j]) && cand.response > kpts[j].response
  }

  /** `r` is `kpts` with its first replaceable entry overwritten by the candidate. */
  ghost predicate ReplacesFirst(kpts: seq<Keypoint>, cand: Keypoint, overlap: Overlap, r: seq<Keypoint>) {
    exists j :: Replaceable(kpts, cand, overlap, j)
      && (forall i :: 0 <= i < j ==> !Replaceable(kpts, cand, overlap, i))
      && r == kpts[j := cand]
  }

  /** The suppression step for one candidate (the loop over `keypoints` and
      the push_back after it). */
  method NmsInsert(kpts: seq<Keypoint>, cand: Keypoint, overlap: Overlap) returns (r: seq<Keypoint>)
    ensures (forall j :: 0 <= j < |kpts| ==> !Overlaps(overlap, cand, kpts[j])) ==> r == kpts + [cand]
    ensures (exists j :: Replaceable(kpts, cand, overlap, j)) ==> ReplacesFirst(kpts, cand, overlap, r)
    ensures ((exists j :: 0 <= j < |kpts| && Overlaps(overlap, cand, kpts[j]))
      && (forall j :: !Replaceable(kpts, cand, overlap, j))) ==> r == kpts
  {
    var overlapFound := false;
    var replaced := -1;
    var i := 0;
    while i < |kpts| && replaced < 0
      invariant 0 <= i <= |kpts|
      invariant replaced < 0 ==> forall j :: 0 <= j < i ==> !Replaceable(kpts, cand, overlap, j)
      invariant replaced < 0 ==> (overlapFound <==> exists j :: 0 <= j < i && Overlaps(overlap, cand, kpts[j]))
      invariant replaced >= 0 ==> (overlapFound && replaced == i - 1 && Replaceable(kpts, cand, overlap, replaced)
        && forall j :: 0 <= j < replaced ==> !Replaceable(kpts, cand, overlap, j))
    {
      if Overlaps(overlap, cand, kpts[i]) {
        overlapFound := true;
        if cand.response > kpts[i].response {
          replaced := i;
        }
      }
      i := i + 1;
    }
    if replaced >= 0 {
      r := kpts[replaced := cand];
      assert ReplacesFirst(kpts, cand, overlap, r);
    } else if overlapFound {
      r := kpts;
    } else {
      r := kpts + [cand];
    }
  }

  /** A suppression step changes the length by at most one and keeps every
      entry that is not the candidate. */
  lemma NmsStepShape(kpts: seq<Keypoint>, cand: Keypoint, overlap: Overlap, r: seq<Keypoint>)
    requires (forall j :: 0 <= j < |kpts| ==> !Overlaps(overlap, cand, kpts[j])) ==> r == kpts + [cand]
    requires (exists j :: Replaceable(kpts, cand, overlap, j)) ==> ReplacesFirst(kpts, cand, overlap, r)
    requires ((exists j :: 0 <= j < |kpts| && Overlaps(overlap, cand, kpts[j]))
      && (forall j :: !Replaceable(kpts, cand, overlap, j))) ==> r == kpts
    ensures |kpts| <= |r| <= |kpts| + 1
    ensures |r| == |kpts| + 1 <==> forall j :: 0 <= j < |kpts| ==> !Overlaps(overlap, cand, kpts[j])
    ensures forall k :: 0 <= k < |r| ==> r[k] == cand || r[k] in kpts
  {
    if exists j :: Replaceable(kpts, cand, overlap, j) {
      var j :| Replaceable(kpts, cand, overlap, j)
        && (forall i :: 0 <= i < j ==> !Replaceable(kpts, cand, overlap, i))
        && r == kpts[j := cand];
      assert Overlaps(overlap, cand, kpts[j]);
      forall k | 0 <= k < |r| && k != j ensures r[k] in kpts {
        assert r[k] == kpts[k];
      }
    } else if exists j :: 0 <= j < |kpts| && Overlaps(overlap, cand, kpts[j]) {
      var j :| 0 <= j < |kpts| && Overlaps(overlap, cand, kpts[j]);
    } else {
      forall k | 0 <= k < |r| && k < |kpts| ensures r[k] in kpts {
        assert r[k] == kpts[k];
      }
    }
  }

  /** Pixel (column `i`, row `j`) of the normalised response image is a corner
      candidate, its truncated response exceeding `minResponse`, and `kp` is
      the key point built for it. */
  predicate PixelCorner(rows: seq<seq<real>>, j: int, i: int, kp: Keypoint) {
    && 0 <= j < |rows| && 0 <= i < |rows[j]|
    && TruncToInt(rows[j][i]) > MinResponse
    && kp == CornerAt(i, j, TruncToInt(rows[j][i]))
  }

  /** `kp` is the key point of some corner candidate in row `j`, left of column `n`. */
  ghost predicate CornerInRow(rows: seq<seq<real>>, j: int, n: int, kp: Keypoint) {
    exists i :: 0 <= i < n && PixelCorner(rows, j, i, kp)
  }

  /** `kp` is the key point of some corner candidate in the first `m` rows. */
  ghost predicate CornerInRows(rows: seq<seq<real>>, m: int, kp: Keypoint) {
    exists j, i :: 0 <= j < m && PixelCorner(rows, j, i, kp)
  }

  /** The key point of some corner candidate anywhere in the image. */
  ghost predicate IsCorner(rows: seq<seq<real>>, kp: Keypoint) {
    CornerInRows(rows, |rows|, kp)
  }

  /** The candidates of row `j` among its first `n` columns, left to right,
      each corner pixel once (the columns strictly increase). */
  function RowCandidates(rows: seq<seq<real>>, j: int, n: nat): (r: seq<Keypoint>)
    requires 0 <= j < |rows| && n <= |rows[j]|
    ensures |r| <= n
    ensures forall k :: 0 <= k < |r| ==> CornerInRow(rows, j, n, r[k])
    ensures forall i, kp :: 0 <= i < n && PixelCorner(rows, j, i, kp) ==> kp in r
    ensures forall k :: 0 <= k < |r| ==> r[k].pt.y == j as real && r[k].pt.x < n as real
    ensures forall k, l :: 0 <= k < l < |r| ==> r[k].pt.x < r[l].pt.x
  {
    if n == 0 then []
    else
      var response := TruncToInt(rows[j][n - 1]);
      var front := RowCandidates(rows, j, n - 1);
      var extra := if response > MinResponse then [CornerAt(n - 1, j, response)] else [];
      var r := front + extra;
      RowOrderStep(front, extra, j as real, (n - 1) as real);
      CornersAppendPixel(rows, j, n - 1, front, extra, r);
      r
  }

  /** The candidates of row `j` left of column `i`, followed by the key point of
      pixel `i` when it is a candidate, are exactly the candidates left of `i + 1`. */
  lemma CornersAppendPixel(rows: seq<seq<real>>, j: int, i: nat, front: seq<Keypoint>, extra: seq<Keypoint>, r: seq<Keypoint>)
    requires 0 <= j < |rows| && i < |rows[j]| && r == front + extra
    requires forall k :: 0 <= k < |front| ==> CornerInRow(rows, j, i, front[k])
    requires forall i', kp :: 0 <= i' < i && PixelCorner(rows, j, i', kp) ==> kp in front
    requires extra == if TruncToInt(rows[j][i]) > MinResponse then [CornerAt(i, j, TruncToInt(rows[j][i]))] else []
    ensures forall k :: 0 <= k < |r| ==> CornerInRow(rows, j, i + 1, r[k])
    ensures forall i', kp :: 0 <= i' <= i && PixelCorner(rows, j, i', kp) ==> kp in r
  {
    forall k | 0 <= k < |r| ensures CornerInRow(rows, j, i + 1, r[k]) {
      if k < |front| {
        assert r[k] == front[k] && CornerInRow(rows, j, i, front[k]);
        var i' :| 0 <= i' < i && PixelCorner(rows, j, i', r[k]);
      } else {
        assert PixelCorner(rows, j, i, r[k]);
      }
    }
  }

  /** Key point `a` comes before `b` in the row-by-row, left-to-right scan. */
  predicate ScanBefore(a: Keypoint, b: Keypoint) {
    a.pt.y < b.pt.y || (a.pt.y == b.pt.y && a.pt.x < b.pt.x)
  }

  /** Appending at most one key point at column `x` of row `y` to key points of
      row `y` left of `x`, in increasing column order, keeps that order. */
  lemma RowOrderStep(front: seq<Keypoint>, extra: seq<Keypoint>, y: real, x: real)
    requires forall k :: 0 <= k < |front| ==> front[k].pt.y == y && front[k].pt.x < x
    requires forall k, l :: 0 <= k < l < |front| ==> front[k].pt.x < front[l].pt.x
    requires |extra| <= 1 && forall k :: 0 <= k < |extra| ==> extra[k].pt == Point(x, y)
    ensures forall k :: 0 <= k < |front + extra| ==> (front + extra)[k].pt.y == y && (front + extra)[k].pt.x < x + 1.0
    ensures forall k, l :: 0 <= k < l < |front + extra| ==> (front + extra)[k].pt.x < (front + extra)[l].pt.x
  {
  }

  /** Key points above row `y` in scan order, followed by those of row `y` in
      increasing column order, are in scan order. */
  lemma ScanOrderStep(front: seq<Keypoint>, tail: seq<Keypoint>, y: real)
    requires forall k :: 0 <= k < |front| ==> front[k].pt.y < y
    requires forall k, l :: 0 <= k < l < |front| ==> ScanBefore(front[k], front[l])
    requires forall k :: 0 <= k < |tail| ==> tail[k].pt.y == y
    requires forall k, l :: 0 <= k < l < |tail| ==> tail[k].pt.x < tail[l].pt.x
    ensures forall k :: 0 <= k < |front + tail| ==> (front + tail)[k].pt.y < y + 1.0
    ensures forall k, l :: 0 <= k < l < |front + tail| ==> ScanBefore((front + tail)[k], (front + tail)[l])
  {
  }

  /** The candidates of the first `m` rows in scan order (row by row, left to
      right); the strict scan order means each corner pixel appears once. */
  function Candidates(rows: seq<seq<real>>, m: nat): (r: seq<Keypoint>)
    requires m <= |rows|
    ensures forall k :: 0 <= k < |r| ==> CornerInRows(rows, m, r[k])
    ensures forall j, i, kp :: 0 <= j < m && PixelCorner(rows, j, i, kp) ==> kp in r
    ensures forall k :: 0 <= k < |r| ==> r[k].pt.y < m as real
    ensures forall k, l :: 0 <= k < l < |r| ==> ScanBefore(r[k], r[l])
  {
    if m == 0 then []
    else
      var front := Candidates(rows, m - 1);
      var tail := RowCandidates(rows, m - 1, |rows[m - 1]|);
      var r := front + tail;
      ScanOrderStep(front, tail, (m - 1) as real);
      CornersAppendRow(rows, m - 1, front, tail, r);
      r
  }

  /** Candidates is the only listing of the corner candidates in strict scan
      order: each corner pixel appears exactly once and nothing else does. */
  lemma CandidatesUnique(rows: seq<seq<real>>, s: seq<Keypoint>)
    requires forall k, l :: 0 <= k < l < |s| ==> ScanBefore(s[k], s[l])
    requires forall k :: 0 <= k < |s| ==> IsCorner(rows, s[k])
    requires forall j, i, kp :: 0 <= j < |rows| && PixelCorner(rows, j, i, kp) ==> kp in s
    ensures s == Candidates(rows, |rows|)
  {
    var r := Candidates(rows, |rows|);
    SameCornerMembers(rows, s, r);
    ScanListingsEqual(s, r);
  }

  /** Two listings in strict scan order with the same members are equal. */
  lemma ScanListingsEqual(s: seq<Keypoint>, r: seq<Keypoint>)
    requires forall k, l :: 0 <= k < l < |s| ==> ScanBefore(s[k], s[l])
    requires forall k, l :: 0 <= k < l < |r| ==> ScanBefore(r[k], r[l])
    requires forall x :: x in s <==> x in r
    ensures s == r
  {
    assert Ascending(s, ScanBefore) && Ascending(r, ScanBefore);
    AscendingSameMembersEqual(s, r, ScanBefore);
  }

  /** Two listings of exactly the corner candidates have the same members. */
  lemma SameCornerMembers(rows: seq<seq<real>>, s: seq<Keypoint>, r: seq<Keypoint>)
    requires forall k :: 0 <= k < |s| ==> IsCorner(rows, s[k])
    requires forall j, i, kp :: 0 <= j < |rows| && PixelCorner(rows, j, i, kp) ==> kp in s
    requires forall k :: 0 <= k < |r| ==> CornerInRows(rows, |rows|, r[k])
    requires forall j, i, kp :: 0 <= j < |rows| && PixelCorner(rows, j, i, kp) ==> kp in r
    ensures forall x :: x in s <==> x in r
  {
    forall x | x in s ensures x in r {
      var k :| 0 <= k < |s| && s[k] == x;
      assert CornerInRows(rows, |rows|, s[k]);
    }
    forall x | x in r ensures x in s {
      var k :| 0 <= k < |r| && r[k] == x;
      assert CornerInRows(rows, |rows|, r[k]);
    }
  }

  /** The candidates of the first `j` rows followed by those of row `j` are
      exactly the candidates of the first `j + 1` rows. */
  lemma CornersAppendRow(rows: seq<seq<real>>, j: nat, front: seq<Keypoint>, tail: seq<Keypoint>, r: seq<Keypoint>)
    requires j < |rows| && r == front + tail
    requires forall k :: 0 <= k < |front| ==> CornerInRows(rows, j, front[k])
    requires forall j', i, kp :: 0 <= j' < j && PixelCorner(rows, j', i, kp) ==> kp in front
    requires forall k :: 0 <= k < |tail| ==> CornerInRow(rows, j, |rows[j]|, tail[k])
    requires forall i, kp :: 0 <= i < |rows[j]| && PixelCorner(rows, j, i, kp) ==> kp in tail
    ensures forall k :: 0 <= k < |r| ==> CornerInRows(rows, j + 1, r[k])
    ensures forall j', i, kp :: 0 <= j' <= j && PixelCorner(rows, j', i, kp) ==> kp in r
  {
    forall k | 0 <= k < |r| ensures CornerInRows(rows, j + 1, r[k]) {
      if k < |front| {
        assert r[k] == front[k] && CornerInRows(rows, j, front[k]);
        var j', i :| 0 <= j' < j && PixelCorner(rows, j', i, r[k]);
      } else {
        assert r[k] == tail[k - |front|] && CornerInRow(rows, j, |rows[j]|, tail[k - |front|]);
        var i :| 0 <= i < |rows[j]| && PixelCorner(rows, j, i, r[k]);
      }
    }
  }

  /** The detection loop of detKeypointsHarris after the response image is
      normalised: every corner candidate, in scan order, goes through the
      suppression step. The key point list is extended, never cleared. */
  method DetectHarris(rows: seq<seq<real>>, keypoints: seq<Keypoint>, overlap: Overlap) returns (r: seq<Keypoint>)
    ensures |keypoints| <= |r| <= |keypoints| + |Candidates(rows, |rows|)|
    ensures forall k :: 0 <= k < |r| ==> r[k] in keypoints || IsCorner(rows, r[k])
  {
    var cands := Candidates(rows, |rows|);
    r := keypoints;
    var n := 0;
    while n < |cands|
      invariant 0 <= n <= |cands|
      invariant |keypoints| <= |r| <= |keypoints| + n
      invariant forall k :: 0 <= k < |r| ==> r[k] in keypoints || r[k] in cands
    {
      var next := NmsInsert(r, cands[n], overlap);
      NmsStepShape(r, cands[n], overlap, next);
      r := next;
      n := n + 1;
    }
    forall k | 0 <= k < |r| && r[k] !in keypoints ensures IsCorner(rows, r[k]) {
      var c :| 0 <= c < |cands| && cands[c] == r[k];
    }
  }

  /** Only strong responses become key points: no candidate sits on a pixel
      whose truncated response is at most `minResponse`, and every candidate's
      response exceeds it. */
  lemma WeakPixelIgnored(rows: seq<seq<real>>, j: int, i: int)
    requires 0 <= j < |rows| && 0 <= i < |rows[j]| && TruncToInt(rows[j][i]) <= MinResponse
    ensures forall kp :: kp in Candidates(rows, |rows|) ==>
      kp.pt != Point(i as real, j as real) && kp.response > MinResponse as real
  {
    CornersAreStrong(rows, j, i, Candidates(rows, |rows|));
  }

  /** Key points of corner candidates avoid the weak pixel (column `i`, row `j`)
      and have responses above `minResponse`. */
  lemma CornersAreStrong(rows: seq<seq<real>>, j: int, i: int, s: seq<Keypoint>)
    requires 0 <= j < |rows| && 0 <= i < |rows[j]| && TruncToInt(rows[j][i]) <= MinResponse
    requires forall k :: 0 <= k < |s| ==> CornerInRows(rows, |rows|, s[k])
    ensures forall kp :: kp in s ==> kp.pt != Point(i as real, j as real) && kp.response > MinResponse as real
  {
    forall kp | kp in s ensures kp.pt != Point(i as real, j as real) && kp.response > MinResponse as real {
      var k :| 0 <= k < |s| && s[k] == kp;
      var j', i' :| 0 <= j' < |rows| && PixelCorner(rows, j', i', kp);
    }
  }
}
