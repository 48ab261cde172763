/**
 Shared vocabulary of the sensor-fusion core: the OpenCV value types the
 algorithms touch (points, pixels, rectangles, key points, matches), the
 per-frame records (LiDAR points, bounding boxes, frames), the outcome of a
 time-to-collision estimate, and the C++ integer conversions the source relies
 on (truncating division and remainder, double-to-int truncation, cvRound).
 */
module Common {

  datatype Option<T> = None | Some(value: T)

  /** A sub-pixel image position (cv::Point2f). */
  datatype Point = Point(x: real, y: real)

  /** An integer image position (cv::Point). */
  datatype Pixel = Pixel(x: int, y: int)

  /** An integer rectangle (cv::Rect): top-left corner, width and height. */
  datatype Rect = Rect(x: int, y: int, width: int, height: int)

  /** A detected key point (cv::KeyPoint): position, diameter and corner response. */
  datatype Keypoint = Keypoint(pt: Point, size: real, response: real)

  /** A correspondence (cv::DMatch): previous-frame key point index `queryIdx`,
      current-frame key point index `trainIdx`, descriptor distance. */
  datatype Match = Match(queryIdx: int, trainIdx: int, distance: real)

  /** A LiDAR return in vehicle coordinates (x forward, y left, z up) with reflectivity. */
  datatype LidarPoint = LidarPoint(x: real, y: real, z: real, r: real)

  /** A tracked region: identifier, region of interest, and the LiDAR points and
      key point matches attributed to it so far. */
  datatype BoundingBox = BoundingBox(boxID: int, roi: Rect, lidarPoints: seq<LidarPoint>, kptMatches: seq<Match>)

  /** The part of one camera frame the core reads: key points and bounding boxes. */
  datatype Frame = Frame(keypoints: seq<Keypoint>, boundingBoxes: seq<BoundingBox>)

  /** The outcome of a time-to-collision computation with exact arithmetic.
      `NotANumber` is the explicit NAN the camera estimator stores when no
      distance ratio survives; `ZeroDenominator` is a division by zero (an
      infinity or NaN in IEEE arithmetic); `OutOfRangeRead` stands for the
      out-of-bounds vector read the median makes on some sample counts. */
  datatype TtcResult = Estimate(seconds: real) | NotANumber | ZeroDenominator | OutOfRangeRead

  /** A Euclidean distance between two image positions (cv::norm of their difference). */
  type Distance = (Point, Point) -> real

  ghost predicate NonNegative(dist: Distance) {
    forall p, q :: 0.0 <= dist(p, q)
  }

  /** cv::Rect::contains: the rectangle is half-open on both axes. */
  predicate Contains(r: Rect, p: Pixel) {
    r.x <= p.x < r.x + r.width && r.y <= p.y < r.y + r.height
  }

  /** Every correspondence indexes an existing key point in both frames
      (`std::vector::at` throws otherwise). */
  predicate ValidMatches(matches: seq<Match>, prev: seq<Keypoint>, curr: seq<Keypoint>) {
    forall k :: 0 <= k < |matches| ==>
      0 <= matches[k].queryIdx < |prev| && 0 <= matches[k].trainIdx < |curr|
  }

  /** Dropping the first correspondence keeps the rest valid. */
  lemma ValidMatchesTail(matches: seq<Match>, prev: seq<Keypoint>, curr: seq<Keypoint>)
    requires ValidMatches(matches, prev, curr) && matches != []
    ensures ValidMatches(matches[1..], prev, curr)
  {
    forall k | 0 <= k < |matches| - 1
      ensures 0 <= matches[1..][k].queryIdx < |prev| && 0 <= matches[1..][k].trainIdx < |curr|
    {
      assert matches[1..][k] == matches[k + 1];
    }
  }

  function Min(a: int, b: int): int {
    if a < b then a else b
  }

  /** C++ integer division `a / b` for a positive divisor: rounds toward zero. */
  function CDiv(a: int, b: int): (q: int)
    requires b > 0
    ensures a >= 0 ==> 0 <= a - q * b < b
    ensures a < 0 ==> -b < a - q * b <= 0
  {
    if a >= 0 then a / b else -((-a) / b)
  }

  /** C++ integer remainder `a % b` for a positive divisor: carries the sign of `a`. */
  function CRem(a: int, b: int): (r: int)
    requires b > 0
    ensures CDiv(a, b) * b + r == a
    ensures -b < r < b
    ensures a >= 0 ==> r >= 0
    ensures a < 0 ==> r <= 0
  {
    a - CDiv(a, b) * b
  }

  /** Assigning a floating value to an `int` in C++: truncation toward zero. */
  function TruncToInt(v: real): (n: int)
    ensures 0.0 <= v ==> n as real <= v < n as real + 1.0
    ensures v < 0.0 ==> n as real - 1.0 < v <= n as real
  {
    if v >= 0.0 then v.Floor else -((-v).Floor)
  }

  /** cvRound: round to the nearest integer, halves to the even neighbour
      (the default IEEE rounding mode). */
  function Round(v: real): (n: int)
    ensures v - 0.5 <= n as real <= v + 0.5
    ensures n as real == v - 0.5 || n as real == v + 0.5 ==> n % 2 == 0
  {
    var f := v.Floor;
    var frac := v - f as real;
    if frac < 0.5 then f
    else if frac > 0.5 then f + 1
    else if f % 2 == 0 then f else f + 1
  }

  /** The pixel cv::Rect::contains tests when given a cv::Point2f. */
  function ToPixel(p: Point): Pixel {
    Pixel(Round(p.x), Round(p.y))
  }

  /** `a` is `b` with some elements left out, the rest kept in order. */
  ghost predicate IsSubsequence<T>(a: seq<T>, b: seq<T>)
    decreases |b|
  {
    if a == [] then true
    else if b == [] then false
    else (a[0] == b[0] && IsSubsequence(a[1..], b[1..])) || IsSubsequence(a, b[1..])
  }

  /** Every element of a subsequence occurs in the whole. */
  lemma {:induction false} SubsequenceMembers<T>(a: seq<T>, b: seq<T>)
    requires IsSubsequence(a, b)
    ensures forall k :: 0 <= k < |a| ==> a[k] in b
    decreases |b|
  {
    if a != [] && b != [] {
      if a[0] == b[0] && IsSubsequence(a[1..], b[1..]) {
        SubsequenceMembers(a[1..], b[1..]);
        forall k | 0 < k < |a| ensures a[k] in b {
          assert a[k] == a[1..][k - 1];
        }
      } else {
        SubsequenceMembers(a, b[1..]);
      }
    }
  }

  /** A subsequence of `b` stays one when `b` grows at the end. */
  lemma {:induction false} SubsequenceOfLonger<T>(a: seq<T>, b: seq<T>, x: T)
    requires IsSubsequence(a, b)
    ensures IsSubsequence(a, b + [x])
    decreases |b|
  {
    if a != [] && b != [] {
      assert (b + [x])[1..] == b[1..] + [x];
      if a[0] == b[0] && IsSubsequence(a[1..], b[1..]) {
        SubsequenceOfLonger(a[1..], b[1..], x);
      } else {
        SubsequenceOfLonger(a, b[1..], x);
      }
    } else if a != [] {
      assert false;
    }
  }

  /** Appending the same element to both sides keeps a subsequence. */
  lemma {:induction false} SubsequenceAppend<T>(a: seq<T>, b: seq<T>, x: T)
    requires IsSubsequence(a, b)
    ensures IsSubsequence(a + [x], b + [x])
    decreases |b|
  {
    if a == [] {
      assert a + [x] == [x];
      EmptyThenSingleton(b, x);
    } else {
      assert (a + [x])[0] == a[0] && (a + [x])[1..] == a[1..] + [x];
      assert (b + [x])[0] == b[0] && (b + [x])[1..] == b[1..] + [x];
      if a[0] == b[0] && IsSubsequence(a[1..], b[1..]) {
        SubsequenceAppend(a[1..], b[1..], x);
      } else {
        SubsequenceAppend(a, b[1..], x);
      }
    }
  }

  /** A single element is a subsequence of any sequence ending in it. */
  lemma {:induction false} EmptyThenSingleton<T>(b: seq<T>, x: T)
    ensures IsSubsequence([x], b + [x])
    decreases |b|
  {
    if b != [] {
      assert (b + [x])[1..] == b[1..] + [x];
      EmptyThenSingleton(b[1..], x);
    } else {
      assert [x][1..] == [];
    }
  }

  /** Number of occurrences of `x` in `s`. */
  function Count<T(==)>(s: seq<T>, x: T): (n: nat)
    ensures n <= |s|
    ensures n > 0 <==> x in s
  {
    if s == [] then 0 else (if s[0] == x then 1 else 0) + Count(s[1..], x)
  }
  /** `r` lists, ascending, exactly the indices below `n` that satisfy `hit`. */
  ghost predicate ListsHits(hit: int -> bool, n: nat, r: seq<int>) {
    && (forall k :: 0 <= k < |r| ==> 0 <= r[k] < n && hit(r[k]))
    && (forall b :: 0 <= b < n && hit(b) ==> b in r)
    && (forall k, l :: 0 <= k < l < |r| ==> r[k] < r[l])
  }

  /** Considering index `n - 1` extends the listing below `n - 1` to one below `n`. */
  lemma ListsHitsStep(hit: int -> bool, n: nat, front: seq<int>)
    requires 0 < n && ListsHits(hit, n - 1, front)
    ensures ListsHits(hit, n, if hit(n - 1) then front + [n - 1] else front)
  {
    if hit(n - 1) {
      var r := front + [n - 1];
      forall b | 0 <= b < n && hit(b) ensures b in r {
        if b < n - 1 {
          assert b in front;
        }
      }
    }
  }

  /** The indices below `n` that satisfy `hit`, in ascending order: the
      positions a front-to-back loop with test `hit` acts on. */
  function Hits(hit: int -> bool, n: nat): (r: seq<int>)
    ensures ListsHits(hit, n, r)
  {
    if n == 0 then []
    else
      var front := Hits(hit, n - 1);
      ListsHitsStep(hit, n, front);
      if hit(n - 1) then front + [n - 1] else front
  }

  /** `r` holds the elements of `xs` at the positions `idx`, in that order. */
  ghost predicate Picks<T>(xs: seq<T>, idx: seq<int>, r: seq<T>) {
    |r| == |idx| && forall k :: 0 <= k < |r| ==> 0 <= idx[k] < |xs| && r[k] == xs[idx[k]]
  }

  /** Picking one more position appends its element. */
  lemma PicksSnoc<T>(xs: seq<T>, idx: seq<int>, r: seq<T>, i: int)
    requires Picks(xs, idx, r) && 0 <= i < |xs|
    ensures Picks(xs, idx + [i], r + [xs[i]])
  {
    var idx', r' := idx + [i], r + [xs[i]];
    forall k | 0 <= k < |r'| ensures 0 <= idx'[k] < |xs| && r'[k] == xs[idx'[k]] {
      if k < |r| {
        assert idx'[k] == idx[k] && r'[k] == r[k];
      }
    }
  }
  /** The elements picked at the hits of `hit` are exactly the elements at the
      positions satisfying `hit`. */
  lemma PickedHitsMembers<T>(xs: seq<T>, hit: int -> bool, n: nat, r: seq<T>, x: T)
    requires n <= |xs| && Picks(xs, Hits(hit, n), r)
    ensures x in r <==> exists b :: 0 <= b < n && hit(b) && xs[b] == x
  {
    var idx := Hits(hit, n);
    if x in r {
      var k :| 0 <= k < |r| && r[k] == x;
      assert hit(idx[k]) && xs[idx[k]] == x;
    }
    if exists b :: 0 <= b < n && hit(b) && xs[b] == x {
      var b :| 0 <= b < n && hit(b) && xs[b] == x;
      var k :| 0 <= k < |idx| && idx[k] == b;
      assert r[k] == x;
    }
  }
  /** The elements of the first `n` entries of `xs` whose positions satisfy
      `keep`, in order: the result of a front-to-back loop that appends
      `xs[k]` when `keep(k)` holds. */
  function Filter<T>(xs: seq<T>, keep: int -> bool, n: nat): (r: seq<T>)
    requires n <= |xs|
    ensures Picks(xs, Hits(keep, n), r)
    ensures IsSubsequence(r, xs[..n])
  {
    if n == 0 then []
    else
      var front := Filter(xs, keep, n - 1);
      var r := if keep(n - 1) then front + [xs[n - 1]] else front;
      FilterStep(xs, keep, n, front, r);
      r
  }

  /** Considering position `n - 1` extends the filtered prefix below `n - 1`
      to the one below `n`. */
  lemma FilterStep<T>(xs: seq<T>, keep: int -> bool, n: nat, front: seq<T>, r: seq<T>)
    requires 0 < n <= |xs|
    requires Picks(xs, Hits(keep, n - 1), front) && IsSubsequence(front, xs[..n - 1])
    requires r == if keep(n - 1) then front + [xs[n - 1]] else front
    ensures Picks(xs, Hits(keep, n), r)
    ensures IsSubsequence(r, xs[..n])
  {
    assert xs[..n] == xs[..n - 1] + [xs[n - 1]];
    if keep(n - 1) {
      PicksSnoc(xs, Hits(keep, n - 1), front, n - 1);
      SubsequenceAppend(front, xs[..n - 1], xs[n - 1]);
    } else {
      SubsequenceOfLonger(front, xs[..n - 1], xs[n - 1]);
    }
  }

  /** A property of every element at a hit position holds of every picked element. */
  lemma PickedSatisfy<T>(xs: seq<T>, keep: int -> bool, n: nat, r: seq<T>, P: T -> bool)
    requires n <= |xs| && Picks(xs, Hits(keep, n), r)
    requires forall i :: 0 <= i < n && keep(i) ==> P(xs[i])
    ensures forall k :: 0 <= k < |r| ==> P(r[k])
  {
    var idx := Hits(keep, n);
    forall k | 0 <= k < |r| ensures P(r[k]) {
      assert keep(idx[k]) && r[k] == xs[idx[k]];
    }
  }

  /** Every element at a hit position is picked. */
  lemma HitsPicked<T>(xs: seq<T>, keep: int -> bool, n: nat, r: seq<T>)
    requires n <= |xs| && Picks(xs, Hits(keep, n), r)
    ensures forall i :: 0 <= i < n && keep(i) ==> xs[i] in r
  {
    var idx := Hits(keep, n);
    forall i | 0 <= i < n && keep(i) ensures xs[i] in r {
      var k :| 0 <= k < |idx| && idx[k] == i;
      assert r[k] == xs[i];
    }
  }
  /** Every element of `s` comes before every later one. */
  ghost predicate Ascending<T>(s: seq<T>, before: (T, T) -> bool) {
    forall k, l :: 0 <= k < l < |s| ==> before(s[k], s[l])
  }

  /** Two ascending sequences with the same members, under an asymmetric order,
      are equal. */
  lemma {:induction false} AscendingSameMembersEqual<T>(a: seq<T>, b: seq<T>, before: (T, T) -> bool)
    requires forall x, y :: before(x, y) ==> !before(y, x)
    requires Ascending(a, before) && Ascending(b, before)
    requires forall x :: x in a <==> x in b
    ensures a == b
  {
    assert b == [] || b[0] in b;
    if a != [] {
      assert a[0] in b;
      assert b[0] in a;
      var m :| 0 <= m < |b| && b[m] == a[0];
      if m > 0 {
        assert false;
      }
      forall x ensures x in a[1..] <==> x in b[1..] {
        if x in a[1..] {
          var k :| 1 <= k < |a| && a[k] == x;
          assert before(a[0], x);
          assert x in b && x != b[0];
          var l :| 0 <= l < |b| && b[l] == x;
          assert b[1..][l - 1] == x;
        }
        if x in b[1..] {
          var k :| 1 <= k < |b| && b[k] == x;
          assert before(b[0], x);
          assert x in a && x != a[0];
          var l :| 0 <= l < |a| && a[l] == x;
          assert a[1..][l - 1] == x;
        }
      }
      assert Ascending(a[1..], before) && Ascending(b[1..], before);
      AscendingSameMembersEqual(a[1..], b[1..], before);
      assert a == [a[0]] + a[1..] && b == [b[0]] + b[1..];
    }
  }
  /** Integer order as a function value. */
  function Below(): (int, int) -> bool {
    (x: int, y: int) => x < y
  }

  /** The positions below `n` that satisfy `hit` have exactly one ascending
      listing, so `Hits` is it. */
  lemma ListsHitsUnique(hit: int -> bool, n: nat, r: seq<int>)
    requires ListsHits(hit, n, r)
    ensures r == Hits(hit, n)
  {
    var h := Hits(hit, n);
    forall x ensures x in r <==> x in h {
      if x in r {
        var k :| 0 <= k < |r| && r[k] == x;
      }
      if x in h {
        var k :| 0 <= k < |h| && h[k] == x;
      }
    }
    assert Ascending(r, Below()) && Ascending(h, Below());
    AscendingSameMembersEqual(r, h, Below());
  }
}






