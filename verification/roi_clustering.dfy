/**
 Point-to-box assignment (clusterLidarWithROI) and the in-box correspondence
 filter (clusterKptMatchesWithROI) of camFusion_Student.cpp.

 Both shrink (or, with a negative factor, grow) a bounding box symmetrically
 and store the result in a cv::Rect, whose integer members truncate the
 floating corner and size toward zero. A LiDAR point joins a box only when
 exactly one shrunk box contains its projected pixel. A correspondence is a
 candidate for a box when both of its key points fall inside the grown box,
 and it is accepted when its displacement lies within 2.5 medians of the
 median displacement of all candidates.
 */
module RoiClustering {
  import opened Common
  import opened Sorting
  import opened Statistics

  /** The factor clusterKptMatchesWithROI grows boxes by: the single-precision
      value nearest to -0.10. */
  const KptShrinkFactor: real := -0.100000001490116119384765625

  /** Accepted displacement band around the median, in medians. */
  const RangeFactor: real := 2.5

  /** Rectangle `a` lies within rectangle `b`. */
  predicate Inside(a: Rect, b: Rect) {
    b.x <= a.x && a.x + a.width <= b.x + b.width && b.y <= a.y && a.y + a.height <= b.y + b.height
  }

  /** Every pixel of an inner rectangle belongs to the outer one. */
  lemma InsideContains(a: Rect, b: Rect, p: Pixel)
    requires Inside(a, b) && Contains(a, p)
    ensures Contains(b, p)
  {
  }

  /** The real-valued offset and extent of one shrunk axis, before truncation:
      the extent is what is left after the offset is taken off both ends, and
      a factor in [0,1] gives a non-negative offset and extent. */
  lemma ShrinkAxisReals(w: int, factor: real)
    ensures var a := factor * w as real / 2.0;
      w as real * (1.0 - factor) == w as real - 2.0 * a
    ensures factor == 0.0 ==> factor * w as real / 2.0 == 0.0 && w as real * (1.0 - factor) == w as real
    ensures 0.0 <= factor <= 1.0 && w >= 0 ==>
      0.0 <= factor * w as real / 2.0 && 0.0 <= w as real * (1.0 - factor)
  {
    var W := w as real;
    assert W * (1.0 - factor) == W - factor * W;
    if 0.0 <= factor <= 1.0 && w >= 0 {
      MulNonNegative(factor, W);
      MulNonNegative(W, 1.0 - factor);
    }
  }

  /** The product of two non-negative reals is non-negative. */
  lemma MulNonNegative(a: real, b: real)
    requires 0.0 <= a && 0.0 <= b
    ensures 0.0 <= a * b
  {
  }

  /** One axis of `Shrink`: the truncated start `x + factor * w / 2` and the
      truncated extent `w * (1 - factor)`. */
  function ShrinkAxis(x: int, w: int, factor: real): (r: (int, int))
    ensures factor == 0.0 ==> r == (x, w)
    ensures 0.0 <= factor <= 1.0 && w >= 0 ==> x <= r.0 && r.0 + r.1 <= x + w && 0 <= r.1
  {
    ShrinkAxisReals(w, factor);
    var a := factor * w as real / 2.0;
    var b := w as real * (1.0 - factor);
    (TruncToInt(x as real + a), TruncToInt(b))
  }

  /** The cv::Rect built from `roi` shrunk by `factor` of its size. */
  function Shrink(roi: Rect, factor: real): (r: Rect)
    ensures factor == 0.0 ==> r == roi
    ensures 0.0 <= factor <= 1.0 && roi.width >= 0 && roi.height >= 0 ==> Inside(r, roi)
  {
    var (x, w) := ShrinkAxis(roi.x, roi.width, factor);
    var (y, h) := ShrinkAxis(roi.y, roi.height, factor);
    Rect(x, y, w, h)
  }

  /** Truncation makes shrinking non-monotone: a 10-pixel box shrunk by 0.2
      keeps a column that the same box shrunk by only 0.18 loses. */
  lemma ShrinkNotMonotone()
    ensures var roi := Rect(0, 0, 10, 10);
      Contains(Shrink(roi, 0.2), Pixel(8, 5)) && !Contains(Shrink(roi, 0.18), Pixel(8, 5))
  {
    assert ShrinkAxis(0, 10, 0.2) == (1, 8);
    assert ShrinkAxis(0, 10, 0.18) == (0, 8);
  }

  /** Truncation can also make the grown box miss the right edge of the box it
      grows: a 5-pixel box at x = 5 becomes [4, 9), losing column 9. */
  lemma GrownBoxCanMissEdge()
    ensures var roi := Rect(5, 5, 5, 5);
      Contains(roi, Pixel(9, 5)) && !Contains(Shrink(roi, KptShrinkFactor), Pixel(9, 5))
  {
    assert ShrinkAxis(5, 5, KptShrinkFactor) == (4, 5);
  }

  // ---------------------------------------------------------------------
  // clusterLidarWithROI

  /** The rectangles of a box list, each shrunk by `factor` (the `smallerBox`
      of every iteration of the inner loop). */
  function ShrunkRois(boxes: seq<BoundingBox>, factor: real): (shrunk: seq<Rect>)
    ensures |shrunk| == |boxes|
    ensures forall b :: 0 <= b < |boxes| ==> shrunk[b] == Shrink(boxes[b].roi, factor)
  {
    seq(|boxes|, b requires 0 <= b < |boxes| => Shrink(boxes[b].roi, factor))
  }

  /** The indices of the shrunk boxes that contain pixel `p`, ascending (the
      `enclosingBoxes` list). */
  function Enclosing(shrunk: seq<Rect>, p: Pixel): (r: seq<int>)
    ensures forall k :: 0 <= k < |r| ==> 0 <= r[k] < |shrunk| && Contains(shrunk[r[k]], p)
    ensures forall b :: 0 <= b < |shrunk| && Contains(shrunk[b], p) ==> b in r
    ensures forall k, l :: 0 <= k < l < |r| ==> r[k] < r[l]
  {
    Hits(Encloses(shrunk, p), |shrunk|)
  }

  /** Which box indices contain pixel `p`. */
  function Encloses(shrunk: seq<Rect>, p: Pixel): int -> bool {
    b => 0 <= b < |shrunk| && Contains(shrunk[b], p)
  }

  /** Box `b` is the only shrunk box containing pixel `p`. */
  predicate SoleEncloser(shrunk: seq<Rect>, p: Pixel, b: int) {
    && 0 <= b < |shrunk|
    && Contains(shrunk[b], p)
    && forall c :: 0 <= c < |shrunk| && c != b ==> !Contains(shrunk[c], p)
  }

  /** A box is the sole encloser exactly when it is the one entry of the enclosing list. */
  lemma SoleEncloserIsSingleEntry(shrunk: seq<Rect>, p: Pixel, b: int)
    ensures var e := Enclosing(shrunk, p);
      SoleEncloser(shrunk, p, b) <==> |e| == 1 && e[0] == b
  {
    var e := Enclosing(shrunk, p);
    if SoleEncloser(shrunk, p, b) {
      assert b in e;
      forall k | 0 <= k < |e| ensures e[k] == b {
        assert Contains(shrunk[e[k]], p);
      }
      FirstTwoAscending(e);
    }
    if |e| == 1 && e[0] == b {
      forall c | 0 <= c < |shrunk| && c != b ensures !Contains(shrunk[c], p) {
        assert Contains(shrunk[c], p) ==> c in e;
      }
    }
  }

  /** A strictly ascending list of length two or more has its first entry below its second. */
  lemma FirstTwoAscending(e: seq<int>)
    requires forall k, l :: 0 <= k < l < |e| ==> e[k] < e[l]
    ensures |e| <= 1 || e[0] < e[1]
  {
  }

  /** The box a pixel is assigned to: the sole enclosing box, if there is exactly one. */
  function Owner(shrunk: seq<Rect>, p: Pixel): (r: Option<int>)
    ensures forall b :: r == Some(b) <==> SoleEncloser(shrunk, p, b)
    ensures r.Some? ==> 0 <= r.value < |shrunk|
  {
    var e := Enclosing(shrunk, p);
    assert forall b :: SoleEncloser(shrunk, p, b) <==> |e| == 1 && e[0] == b by {
      forall b ensures SoleEncloser(shrunk, p, b) <==> |e| == 1 && e[0] == b {
        SoleEncloserIsSingleEntry(shrunk, p, b);
      }
    }
    if |e| == 1 then Some(e[0]) else None
  }

  /** The points of `pts` (in order) that the projection places in box `b` alone. */
  function OwnedPoints(shrunk: seq<Rect>, project: LidarPoint -> Pixel, b: int, pts: seq<LidarPoint>)
    : (r: seq<LidarPoint>)
    ensures IsSubsequence(r, pts)
    ensures forall k :: 0 <= k < |r| ==> SoleEncloser(shrunk, project(r[k]), b)
    ensures forall k :: 0 <= k < |pts| && SoleEncloser(shrunk, project(pts[k]), b) ==> pts[k] in r
  {
    if pts == [] then []
    else
      var n := |pts| - 1;
      var front := OwnedPoints(shrunk, project, b, pts[..n]);
      assert pts == pts[..n] + [pts[n]];
      SubsequenceOfLonger(front, pts[..n], pts[n]);
      if Owner(shrunk, project(pts[n])) == Some(b) then
        SubsequenceAppend(front, pts[..n], pts[n]);
        front + [pts[n]]
      else
        front
  }

  /** The points of `pts` that some box receives. */
  function AssignedPoints(shrunk: seq<Rect>, project: LidarPoint -> Pixel, pts: seq<LidarPoint>)
    : (r: seq<LidarPoint>)
    ensures IsSubsequence(r, pts)
  {
    if pts == [] then []
    else
      var n := |pts| - 1;
      var front := AssignedPoints(shrunk, project, pts[..n]);
      assert pts == pts[..n] + [pts[n]];
      SubsequenceOfLonger(front, pts[..n], pts[n]);
      if Owner(shrunk, project(pts[n])).Some? then
        SubsequenceAppend(front, pts[..n], pts[n]);
        front + [pts[n]]
      else
        front
  }

  /** The number of points of `pts` that box `b` receives. */
  function OwnedCount(shrunk: seq<Rect>, project: LidarPoint -> Pixel, b: int, pts: seq<LidarPoint>): nat {
    if pts == [] then 0
    else
      var n := |pts| - 1;
      OwnedCount(shrunk, project, b, pts[..n]) + (if Owner(shrunk, project(pts[n])) == Some(b) then 1 else 0)
  }

  /** The count is the length of the received points. */
  lemma {:induction false} OwnedCountIsLength(shrunk: seq<Rect>, project: LidarPoint -> Pixel, b: int,
                                              pts: seq<LidarPoint>)
    ensures OwnedCount(shrunk, project, b, pts) == |OwnedPoints(shrunk, project, b, pts)|
  {
    if pts != [] {
      var n := |pts| - 1;
      OwnedCountIsLength(shrunk, project, b, pts[..n]);
      assert pts == pts[..n] + [pts[n]];
      OwnedPointsSnoc(shrunk, project, b, pts[..n], pts[n]);
    }
  }

  /** Total number of points received by boxes 0 .. nb-1. */
  function TotalOwned(shrunk: seq<Rect>, project: LidarPoint -> Pixel, nb: nat, pts: seq<LidarPoint>): nat {
    if nb == 0 then 0
    else TotalOwned(shrunk, project, nb - 1, pts) + OwnedCount(shrunk, project, nb - 1, pts)
  }

  /** Appending a point extends the points of its owner only. */
  lemma OwnedPointsSnoc(shrunk: seq<Rect>, project: LidarPoint -> Pixel, b: int, pts: seq<LidarPoint>, x: LidarPoint)
    ensures OwnedPoints(shrunk, project, b, pts + [x])
      == OwnedPoints(shrunk, project, b, pts) + (if Owner(shrunk, project(x)) == Some(b) then [x] else [])
  {
    var s := pts + [x];
    assert s[..|s| - 1] == pts;
    assert s[|s| - 1] == x;
  }

  /** Appending a point adds one to the count of its owner only. */
  lemma OwnedCountSnoc(shrunk: seq<Rect>, project: LidarPoint -> Pixel, b: int, pts: seq<LidarPoint>, x: LidarPoint)
    ensures OwnedCount(shrunk, project, b, pts + [x])
      == OwnedCount(shrunk, project, b, pts) + (if Owner(shrunk, project(x)) == Some(b) then 1 else 0)
  {
    var s := pts + [x];
    assert s[..|s| - 1] == pts;
  }

  /** Adding one point with owner `o` grows the total over boxes below `nb` by
      one exactly when the owner is among them. */
  lemma {:induction false} TotalOwnedStep(shrunk: seq<Rect>, project: LidarPoint -> Pixel, nb: nat,
                                          pts: seq<LidarPoint>, x: LidarPoint)
    ensures var o := Owner(shrunk, project(x));
      TotalOwned(shrunk, project, nb, pts + [x])
        == TotalOwned(shrunk, project, nb, pts) + (if o.Some? && o.value < nb then 1 else 0)
  {
    if nb > 0 {
      TotalOwnedStep(shrunk, project, nb - 1, pts, x);
      OwnedCountSnoc(shrunk, project, nb - 1, pts, x);
      OwnerBelowSplit(Owner(shrunk, project(x)), nb);
    }
  }

  /** An owner below `nb` is either the box `nb - 1` or below it. */
  lemma OwnerBelowSplit(o: Option<int>, nb: nat)
    requires nb > 0
    ensures (if o.Some? && o.value < nb then 1 else 0)
      == (if o.Some? && o.value < nb - 1 then 1 else 0) + (if o == Some(nb - 1) then 1 else 0)
  {
  }

  /** Conservation: every assigned point is received by exactly one box, so
      the boxes together receive exactly the assigned points. */
  lemma {:induction false} EachPointInOneBox(shrunk: seq<Rect>, project: LidarPoint -> Pixel, pts: seq<LidarPoint>)
    ensures TotalOwned(shrunk, project, |shrunk|, pts) == |AssignedPoints(shrunk, project, pts)|
  {
    if pts == [] {
      ZeroWithoutPoints(shrunk, project, |shrunk|);
    } else {
      var n := |pts| - 1;
      var front, x := pts[..n], pts[n];
      assert pts == front + [x];
      EachPointInOneBox(shrunk, project, front);
      TotalOwnedStep(shrunk, project, |shrunk|, front, x);
      AssignedPointsSnoc(shrunk, project, front, x);
    }
  }

  /** Appending a point extends the assigned points by it exactly when it has an owner. */
  lemma AssignedPointsSnoc(shrunk: seq<Rect>, project: LidarPoint -> Pixel, pts: seq<LidarPoint>, x: LidarPoint)
    ensures AssignedPoints(shrunk, project, pts + [x])
      == AssignedPoints(shrunk, project, pts) + (if Owner(shrunk, project(x)).Some? then [x] else [])
  {
    var s := pts + [x];
    assert s[..|s| - 1] == pts;
    assert s[|s| - 1] == x;
  }

  lemma {:induction false} ZeroWithoutPoints(shrunk: seq<Rect>, project: LidarPoint -> Pixel, nb: nat)
    ensures TotalOwned(shrunk, project, nb, []) == 0
  {
    if nb > 0 {
      ZeroWithoutPoints(shrunk, project, nb - 1);
    }
  }

  /** The body of the point loop: append `x` to the box whose shrunk
      rectangle alone contains `pixel`, if there is one. */
  function AssignPoint(bs: seq<BoundingBox>, shrunk: seq<Rect>, pixel: Pixel, x: LidarPoint): (r: seq<BoundingBox>)
    requires |bs| == |shrunk|
    ensures |r| == |bs|
    ensures forall b :: 0 <= b < |bs| ==>
      r[b].boxID == bs[b].boxID && r[b].roi == bs[b].roi && r[b].kptMatches == bs[b].kptMatches
    ensures forall b :: 0 <= b < |bs| ==>
      r[b].lidarPoints == bs[b].lidarPoints + (if SoleEncloser(shrunk, pixel, b) then [x] else [])
  {
    match Owner(shrunk, pixel)
    case None => bs
    case Some(b) =>
      assert SoleEncloser(shrunk, pixel, b);
      bs[b := bs[b].(lidarPoints := bs[b].lidarPoints + [x])]
  }

  /** Each box after the points `pts` have been assigned: its own points
      followed by those it received, in order. */
  predicate AssignedUpTo(r: seq<BoundingBox>, boxes: seq<BoundingBox>, shrunk: seq<Rect>, project: LidarPoint -> Pixel,
                         pts: seq<LidarPoint>)
    requires |boxes| == |shrunk|
  {
    && |r| == |boxes|
    && forall b :: 0 <= b < |boxes| ==>
         r[b] == boxes[b].(lidarPoints := boxes[b].lidarPoints + OwnedPoints(shrunk, project, b, pts))
  }

  /** One iteration of the point loop extends the assignment by one point. */
  lemma AssignPointStep(r: seq<BoundingBox>, boxes: seq<BoundingBox>, shrunk: seq<Rect>, project: LidarPoint -> Pixel,
                        pts: seq<LidarPoint>, x: LidarPoint)
    requires |boxes| == |shrunk|
    requires AssignedUpTo(r, boxes, shrunk, project, pts)
    ensures AssignedUpTo(AssignPoint(r, shrunk, project(x), x), boxes, shrunk, project, pts + [x])
  {
    var r' := AssignPoint(r, shrunk, project(x), x);
    forall b | 0 <= b < |boxes|
      ensures r'[b] == boxes[b].(lidarPoints := boxes[b].lidarPoints + OwnedPoints(shrunk, project, b, pts + [x]))
    {
      OwnedPointsSnoc(shrunk, project, b, pts, x);
      var extra := if SoleEncloser(shrunk, project(x), b) then [x] else [];
      assert (Owner(shrunk, project(x)) == Some(b)) == SoleEncloser(shrunk, project(x), b);
      ExtendLidarPoints(r[b], r'[b], boxes[b], OwnedPoints(shrunk, project, b, pts),
                        OwnedPoints(shrunk, project, b, pts + [x]), extra);
    }
  }

  /** A box that had received `before` and now receives `extra` as well has
      received `before + extra`. */
  lemma ExtendLidarPoints(rb: BoundingBox, rb': BoundingBox, box: BoundingBox,
                          before: seq<LidarPoint>, after: seq<LidarPoint>, extra: seq<LidarPoint>)
    requires rb == box.(lidarPoints := box.lidarPoints + before)
    requires rb'.boxID == rb.boxID && rb'.roi == rb.roi && rb'.kptMatches == rb.kptMatches
    requires rb'.lidarPoints == rb.lidarPoints + extra
    requires after == before + extra
    ensures rb' == box.(lidarPoints := box.lidarPoints + after)
  {
    assert rb'.lidarPoints == box.lidarPoints + (before + extra);
  }

  /** clusterLidarWithROI: each point, in input order, is appended to the one
      box whose shrunk rectangle alone contains its projected pixel. The
      projection through the calibration matrices is the parameter `project`. */
  method ClusterLidarWithROI(boxes: seq<BoundingBox>, points: seq<LidarPoint>, factor: real, project: LidarPoint -> Pixel)
    returns (r: seq<BoundingBox>)
    ensures |r| == |boxes|
    ensures forall b :: 0 <= b < |boxes| ==>
      r[b].boxID == boxes[b].boxID && r[b].roi == boxes[b].roi && r[b].kptMatches == boxes[b].kptMatches
    ensures forall b :: 0 <= b < |boxes| ==>
      r[b].lidarPoints == boxes[b].lidarPoints + OwnedPoints(ShrunkRois(boxes, factor), project, b, points)
  {
    var shrunk := ShrunkRois(boxes, factor);
    r := boxes;
    var i := 0;
    while i < |points|
      invariant 0 <= i <= |points|
      invariant AssignedUpTo(r, boxes, shrunk, project, points[..i])
    {
      var pt := points[i];
      assert points[..i + 1] == points[..i] + [pt];
      AssignPointStep(r, boxes, shrunk, project, points[..i], pt);
      r := AssignPoint(r, shrunk, project(pt), pt);
      i := i + 1;
    }
    assert points[..|points|] == points;
  }

  // ---------------------------------------------------------------------
  // clusterKptMatchesWithROI

  /** Both key points of correspondence `m` round to pixels inside `box`. */
  predicate BothInside(box: Rect, prev: seq<Keypoint>, curr: seq<Keypoint>, m: Match)
    requires 0 <= m.queryIdx < |prev| && 0 <= m.trainIdx < |curr|
  {
    Contains(box, ToPixel(curr[m.trainIdx].pt)) && Contains(box, ToPixel(prev[m.queryIdx].pt))
  }

  /** The correspondences (in order) whose two key points both lie in `box`:
      one entry per passing position, so a repeated passing correspondence
      is kept as often as it occurs. */
  function Candidates(box: Rect, prev: seq<Keypoint>, curr: seq<Keypoint>, matches: seq<Match>): (r: seq<Match>)
    requires ValidMatches(matches, prev, curr)
    ensures IsSubsequence(r, matches)
    ensures ValidMatches(r, prev, curr)
    ensures forall k :: 0 <= k < |r| ==> BothInside(box, prev, curr, r[k])
    ensures forall k :: 0 <= k < |matches| && BothInside(box, prev, curr, matches[k]) ==> matches[k] in r
    ensures Picks(matches, Hits(InsideAt(box, prev, curr, matches), |matches|), r)
  {
    var keep := InsideAt(box, prev, curr, matches);
    var r := Filter(matches, keep, |matches|);
    assert matches[..|matches|] == matches;
    PickedSatisfy(matches, keep, |matches|, r, InsideMatch(box, prev, curr));
    HitsPicked(matches, keep, |matches|, r);
    r
  }

  /** A correspondence indexes existing key points and has both of them in `box`. */
  function InsideMatch(box: Rect, prev: seq<Keypoint>, curr: seq<Keypoint>): Match -> bool {
    (m: Match) => 0 <= m.queryIdx < |prev| && 0 <= m.trainIdx < |curr| && BothInside(box, prev, curr, m)
  }

  /** Which positions of `matches` hold a correspondence with both key points in `box`. */
  function InsideAt(box: Rect, prev: seq<Keypoint>, curr: seq<Keypoint>, matches: seq<Match>): int -> bool {
    k => 0 <= k < |matches| && 0 <= matches[k].queryIdx < |prev| && 0 <= matches[k].trainIdx < |curr|
      && BothInside(box, prev, curr, matches[k])
  }

  /** The image displacement of correspondence `m` (cv::norm of the difference of its key points). */
  function Displacement(prev: seq<Keypoint>, curr: seq<Keypoint>, dist: Distance, m: Match): real
    requires 0 <= m.queryIdx < |prev| && 0 <= m.trainIdx < |curr|
  {
    dist(curr[m.trainIdx].pt, prev[m.queryIdx].pt)
  }

  /** The displacements of `ms`, in order (the `eucDistances` list). */
  function Displacements(prev: seq<Keypoint>, curr: seq<Keypoint>, dist: Distance, ms: seq<Match>): (ds: seq<real>)
    requires ValidMatches(ms, prev, curr)
    ensures |ds| == |ms|
    ensures forall k :: 0 <= k < |ms| ==> ds[k] == Displacement(prev, curr, dist, ms[k])
  {
    seq(|ms|, k requires 0 <= k < |ms| && ValidMatches(ms, prev, curr) => Displacement(prev, curr, dist, ms[k]))
  }

  /** A non-negative distance gives non-negative displacements. */
  lemma DisplacementsNonNegative(prev: seq<Keypoint>, curr: seq<Keypoint>, dist: Distance, ms: seq<Match>)
    requires ValidMatches(ms, prev, curr) && NonNegative(dist)
    ensures forall i :: 0 <= i < |ms| ==> 0.0 <= Displacements(prev, curr, dist, ms)[i]
  {
  }

  /** The acceptance test: within `RangeFactor` medians of the median. */
  predicate InBand(d: real, median: real) {
    d <= median + RangeFactor * median && d >= median - RangeFactor * median
  }

  /** For non-negative displacements and median the lower bound is vacuous:
      acceptance means at most 3.5 medians. */
  lemma InBandIsUpperBound(d: real, median: real)
    requires 0.0 <= d && 0.0 <= median
    ensures InBand(d, median) <==> d <= 3.5 * median
  {
  }

  /** The candidates whose displacement lies in the band around the median, in
      order, one entry per accepted position (the `kptMatches` push-backs). */
  function Accepted(prev: seq<Keypoint>, curr: seq<Keypoint>, dist: Distance, median: real, cands: seq<Match>)
    : (r: seq<Match>)
    requires ValidMatches(cands, prev, curr)
    ensures IsSubsequence(r, cands)
    ensures ValidMatches(r, prev, curr)
    ensures forall k :: 0 <= k < |r| ==> InBand(Displacement(prev, curr, dist, r[k]), median)
    ensures forall k :: 0 <= k < |cands| && InBand(Displacement(prev, curr, dist, cands[k]), median) ==> cands[k] in r
    ensures Picks(cands, Hits(InBandAt(prev, curr, dist, median, cands), |cands|), r)
  {
    var keep := InBandAt(prev, curr, dist, median, cands);
    var r := Filter(cands, keep, |cands|);
    assert cands[..|cands|] == cands;
    PickedSatisfy(cands, keep, |cands|, r, InBandMatch(prev, curr, dist, median));
    HitsPicked(cands, keep, |cands|, r);
    r
  }

  /** A correspondence indexes existing key points and its displacement is in the band. */
  function InBandMatch(prev: seq<Keypoint>, curr: seq<Keypoint>, dist: Distance, median: real): Match -> bool {
    (m: Match) => 0 <= m.queryIdx < |prev| && 0 <= m.trainIdx < |curr| && InBand(Displacement(prev, curr, dist, m), median)
  }

  /** Which positions of `cands` hold a candidate whose displacement is in the band. */
  function InBandAt(prev: seq<Keypoint>, curr: seq<Keypoint>, dist: Distance, median: real, cands: seq<Match>): int -> bool {
    k => 0 <= k < |cands| && 0 <= cands[k].queryIdx < |prev| && 0 <= cands[k].trainIdx < |curr|
      && InBand(Displacement(prev, curr, dist, cands[k]), median)
  }

  /** With non-negative displacements and median, a candidate is accepted
      exactly when its displacement is at most 3.5 medians. */
  lemma AcceptedIsUpperBound(prev: seq<Keypoint>, curr: seq<Keypoint>, dist: Distance, median: real, cands: seq<Match>)
    requires ValidMatches(cands, prev, curr)
    requires NonNegative(dist) && 0.0 <= median
    ensures forall k :: 0 <= k < |cands| ==>
      (cands[k] in Accepted(prev, curr, dist, median, cands) <==>
        Displacement(prev, curr, dist, cands[k]) <= 3.5 * median)
  {
    var added := Accepted(prev, curr, dist, median, cands);
    SubsequenceMembers(added, cands);
    forall k | 0 <= k < |cands|
      ensures cands[k] in added <==> Displacement(prev, curr, dist, cands[k]) <= 3.5 * median
    {
      InBandIsUpperBound(Displacement(prev, curr, dist, cands[k]), median);
      if cands[k] in added {
        var j :| 0 <= j < |added| && added[j] == cands[k];
      }
    }
  }

  /** clusterKptMatchesWithROI: grow the box, collect the candidates, and
      append those within the band around their median displacement. The
      median reads out of range for zero or two candidates (None). */
  function ClusterKptMatchesWithROI(box: BoundingBox, prev: seq<Keypoint>, curr: seq<Keypoint>, matches: seq<Match>,
                                    dist: Distance): (r: Option<BoundingBox>)
    requires ValidMatches(matches, prev, curr)
    ensures var cands := Candidates(Shrink(box.roi, KptShrinkFactor), prev, curr, matches);
      r.None? <==> |cands| == 0 || |cands| == 2
    ensures r.Some? ==>
      && r.value.boxID == box.boxID && r.value.roi == box.roi && r.value.lidarPoints == box.lidarPoints
      && |box.kptMatches| <= |r.value.kptMatches|
      && r.value.kptMatches[..|box.kptMatches|] == box.kptMatches
    ensures r.Some? ==>
      var cands := Candidates(Shrink(box.roi, KptShrinkFactor), prev, curr, matches);
      var median := FullRangeMedian(Displacements(prev, curr, dist, cands));
      median.Some? && r.value.kptMatches[|box.kptMatches|..] == Accepted(prev, curr, dist, median.value, cands)
  {
    var grown := Shrink(box.roi, KptShrinkFactor);
    var cands := Candidates(grown, prev, curr, matches);
    var ds := Displacements(prev, curr, dist, cands);
    FullRangeMedianDefined(ds);
    match FullRangeMedian(ds)
    case None => None
    case Some(median) =>
      Some(AppendMatches(box, Accepted(prev, curr, dist, median, cands)))
  }

  /** `box` with `added` appended to its key point matches. */
  function AppendMatches(box: BoundingBox, added: seq<Match>): (r: BoundingBox)
    ensures r.boxID == box.boxID && r.roi == box.roi && r.lidarPoints == box.lidarPoints
    ensures |r.kptMatches| == |box.kptMatches| + |added|
    ensures r.kptMatches[..|box.kptMatches|] == box.kptMatches
    ensures r.kptMatches[|box.kptMatches|..] == added
  {
    var r := box.(kptMatches := box.kptMatches + added);
    assert r.kptMatches[..|box.kptMatches|] == box.kptMatches;
    assert r.kptMatches[|box.kptMatches|..] == added;
    r
  }

  /** The matches clusterKptMatchesWithROI appends are correspondences of the
      input, in input order, with both key points in the grown box and a
      displacement of at most 3.5 times the median; every candidate that close
      is appended. */
  lemma AppendedMatches(box: BoundingBox, prev: seq<Keypoint>, curr: seq<Keypoint>, matches: seq<Match>, dist: Distance)
    requires ValidMatches(matches, prev, curr)
    requires NonNegative(dist)
    requires ClusterKptMatchesWithROI(box, prev, curr, matches, dist).Some?
    ensures var grown := Shrink(box.roi, KptShrinkFactor);
      var cands := Candidates(grown, prev, curr, matches);
      var median := FullRangeMedian(Displacements(prev, curr, dist, cands)).value;
      var added := ClusterKptMatchesWithROI(box, prev, curr, matches, dist).value.kptMatches[|box.kptMatches|..];
      && 0.0 <= median
      && (forall k :: 0 <= k < |added| ==> added[k] in matches)
      && (forall k :: 0 <= k < |cands| ==>
            (cands[k] in added <==> Displacement(prev, curr, dist, cands[k]) <= 3.5 * median))
  {
    var grown := Shrink(box.roi, KptShrinkFactor);
    var cands := Candidates(grown, prev, curr, matches);
    var ds := Displacements(prev, curr, dist, cands);
    var median := FullRangeMedian(ds).value;
    DisplacementsNonNegative(prev, curr, dist, cands);
    MedianNonNegative(ds, 0, |ds| - 1);
    var added := Accepted(prev, curr, dist, median, cands);
    assert ClusterKptMatchesWithROI(box, prev, curr, matches, dist).value.kptMatches[|box.kptMatches|..] == added;
    AcceptedFromMatches(prev, curr, dist, median, cands, matches);
  }

  /** The accepted candidates are correspondences of `matches`, and with a
      non-negative median they are exactly the candidates within 3.5 medians. */
  lemma AcceptedFromMatches(prev: seq<Keypoint>, curr: seq<Keypoint>, dist: Distance, median: real,
                            cands: seq<Match>, matches: seq<Match>)
    requires ValidMatches(cands, prev, curr) && IsSubsequence(cands, matches)
    requires NonNegative(dist) && 0.0 <= median
    ensures var added := Accepted(prev, curr, dist, median, cands);
      && (forall k :: 0 <= k < |added| ==> added[k] in matches)
      && (forall k :: 0 <= k < |cands| ==>
            (cands[k] in added <==> Displacement(prev, curr, dist, cands[k]) <= 3.5 * median))
  {
    var added := Accepted(prev, curr, dist, median, cands);
    SubsequenceMembers(added, cands);
    SubsequenceMembers(cands, matches);
    AcceptedIsUpperBound(prev, curr, dist, median, cands);
  }
}
