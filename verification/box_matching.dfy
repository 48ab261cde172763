/**
 Bounding-box association between consecutive frames (matchBoundingBoxes in
 camFusion_Student.cpp).

 Every correspondence votes for each (previous box, current box) pair whose
 rectangles contain its two key points. Both reductions walk std::map
 objects in ascending key order and keep a candidate only when its count is
 strictly larger than the best so far (starting from -1), so ties go to the
 lowest ID. The first reduction lets every previous box nominate its
 best-supported current box; the second lets every nominated current box pick
 its best-supported nominator, and writes that pair into the result map. A
 best ID equal to the sentinel -1 is skipped.
 */
module BoxMatching {
  import opened Common

  /** Vote counts: previous box ID, then current box ID, to a count (`boxIDMap`). */
  type Votes = map<int, map<int, nat>>

  /** Nominations: current box ID, then nominating previous box ID, to its
      count (`reverseboxIDMap`). */
  type Nominations = map<int, map<int, nat>>

  /** The count stored for (p, c), zero when absent (operator[] default-inserts zero). */
  function VoteCount(votes: Votes, p: int, c: int): nat {
    if p in votes && c in votes[p] then votes[p][c] else 0
  }

  /** Every stored inner map is non-empty and every stored count is positive:
      entries only come into being through an increment. */
  predicate WellFormed(votes: Votes) {
    forall p :: p in votes ==> votes[p] != map[] && forall c :: c in votes[p] ==> votes[p][c] >= 1
  }

  /** In a well-formed vote map an entry is present exactly when its count is positive. */
  lemma PresentIffCounted(votes: Votes, p: int, c: int)
    requires WellFormed(votes)
    ensures (p in votes && c in votes[p]) <==> VoteCount(votes, p, c) > 0
  {
  }

  // ---------------------------------------------------------------------
  // Voting

  /** The IDs of the boxes whose rectangle contains pixel `px`, in box order:
      one entry per containing box, so an ID shared by two containing boxes
      appears twice. */
  function ContainingIDs(boxes: seq<BoundingBox>, px: Pixel): (ids: seq<int>)
    ensures |ids| <= |boxes|
    ensures forall id :: id in ids <==> exists b :: 0 <= b < |boxes| && boxes[b].boxID == id && Contains(boxes[b].roi, px)
    ensures Picks(BoxIDs(boxes), Hits(BoxContains(boxes, px), |boxes|), ids)
  {
    var ids := ContainingIDsBelow(boxes, px, |boxes|);
    var hit := BoxContains(boxes, px);
    forall id ensures id in ids <==> exists b :: 0 <= b < |boxes| && boxes[b].boxID == id && Contains(boxes[b].roi, px) {
      PickedHitsMembers(BoxIDs(boxes), hit, |boxes|, ids, id);
      assert (exists b :: 0 <= b < |boxes| && hit(b) && BoxIDs(boxes)[b] == id)
        <==> exists b :: 0 <= b < |boxes| && boxes[b].boxID == id && Contains(boxes[b].roi, px);
    }
    ids
  }

  /** The box IDs, in box order. */
  function BoxIDs(boxes: seq<BoundingBox>): (ids: seq<int>)
    ensures |ids| == |boxes|
    ensures forall b :: 0 <= b < |boxes| ==> ids[b] == boxes[b].boxID
  {
    seq(|boxes|, b requires 0 <= b < |boxes| => boxes[b].boxID)
  }

  /** Which box indices have a rectangle containing pixel `px`. */
  function BoxContains(boxes: seq<BoundingBox>, px: Pixel): int -> bool {
    b => 0 <= b < |boxes| && Contains(boxes[b].roi, px)
  }

  /** The containing-box loop over the boxes with index below `n`. */
  function ContainingIDsBelow(boxes: seq<BoundingBox>, px: Pixel, n: nat): (ids: seq<int>)
    requires n <= |boxes|
    ensures |ids| <= n
    ensures Picks(BoxIDs(boxes), Hits(BoxContains(boxes, px), n), ids)
  {
    if n == 0 then []
    else
      var front := ContainingIDsBelow(boxes, px, n - 1);
      var hit := BoxContains(boxes, px);
      if hit(n - 1) then
        PicksSnoc(BoxIDs(boxes), Hits(hit, n - 1), front, n - 1);
        front + [boxes[n - 1].boxID]
      else front
  }

  /** `votes[p][c]++`. */
  function Bump(votes: Votes, p: int, c: int): (r: Votes)
    ensures forall p', c' :: VoteCount(r, p', c') == VoteCount(votes, p', c') + (if p' == p && c' == c then 1 else 0)
    ensures WellFormed(votes) ==> WellFormed(r)
  {
    var inner := if p in votes then votes[p] else map[];
    votes[p := inner[c := VoteCount(votes, p, c) + 1]]
  }

  /** The inner voting loop: `votes[p][c]++` for every `c` of `cs`. */
  function VoteRow(votes: Votes, p: int, cs: seq<int>): (r: Votes)
    ensures forall p', c' :: VoteCount(r, p', c') == VoteCount(votes, p', c') + (if p' == p then Count(cs, c') else 0)
    ensures WellFormed(votes) ==> WellFormed(r)
    decreases |cs|
  {
    if cs == [] then votes else VoteRow(Bump(votes, p, cs[0]), p, cs[1..])
  }

  /** The outer voting loop: one vote for every pair of `ps` by `cs`. */
  function VoteGrid(votes: Votes, ps: seq<int>, cs: seq<int>): (r: Votes)
    ensures forall p', c' :: VoteCount(r, p', c') == VoteCount(votes, p', c') + Count(ps, p') * Count(cs, c')
    ensures WellFormed(votes) ==> WellFormed(r)
    decreases |ps|
  {
    if ps == [] then votes
    else
      var r := VoteGrid(VoteRow(votes, ps[0], cs), ps[1..], cs);
      assert forall p', c' :: (Count(ps, p') * Count(cs, c') ==
        (if ps[0] == p' then Count(cs, c') else 0) + Count(ps[1..], p') * Count(cs, c')) by {
        forall p', c' ensures Count(ps, p') * Count(cs, c') ==
          (if ps[0] == p' then Count(cs, c') else 0) + Count(ps[1..], p') * Count(cs, c') {
          CountProductSplit(ps, cs, p', c');
        }
      }
      r
  }

  /** Peeling the first previous ID off a product of counts. */
  lemma CountProductSplit(ps: seq<int>, cs: seq<int>, p: int, c: int)
    requires ps != []
    ensures Count(ps, p) * Count(cs, c) == (if ps[0] == p then Count(cs, c) else 0) + Count(ps[1..], p) * Count(cs, c)
  {
    var a := Count(ps[1..], p);
    var b := Count(cs, c);
    if ps[0] == p {
      assert Count(ps, p) == 1 + a;
      SuccessorProduct(a, b);
    } else {
      assert Count(ps, p) == a;
    }
  }

  lemma SuccessorProduct(a: nat, b: nat)
    ensures (1 + a) * b == b + a * b
  {
  }

  /** The IDs of the previous-frame boxes containing the query key point of `m`. */
  function PrevIDs(prev: Frame, m: Match): seq<int>
    requires 0 <= m.queryIdx < |prev.keypoints|
  {
    ContainingIDs(prev.boundingBoxes, ToPixel(prev.keypoints[m.queryIdx].pt))
  }

  /** The IDs of the current-frame boxes containing the train key point of `m`. */
  function CurrIDs(curr: Frame, m: Match): seq<int>
    requires 0 <= m.trainIdx < |curr.keypoints|
  {
    ContainingIDs(curr.boundingBoxes, ToPixel(curr.keypoints[m.trainIdx].pt))
  }

  /** Reference count: for every correspondence, the number of (previous box,
      current box) pairs with IDs p and c that contain its two key points. */
  function Tally(prev: Frame, curr: Frame, matches: seq<Match>, p: int, c: int): nat
    requires ValidMatches(matches, prev.keypoints, curr.keypoints)
  {
    if matches == [] then 0
    else
      ValidMatchesTail(matches, prev.keypoints, curr.keypoints);
      Product(Count(PrevIDs(prev, matches[0]), p), Count(CurrIDs(curr, matches[0]), c))
        + Tally(prev, curr, matches[1..], p, c)
  }

  /** The number of (previous, current) ID pairs from `a` and `b` occurrences. */
  function Product(a: nat, b: nat): nat {
    a * b
  }

  /** The voting loop over all correspondences. */
  function CastVotes(prev: Frame, curr: Frame, matches: seq<Match>, votes: Votes): (r: Votes)
    requires ValidMatches(matches, prev.keypoints, curr.keypoints)
    ensures forall p, c :: VoteCount(r, p, c) == VoteCount(votes, p, c) + Tally(prev, curr, matches, p, c)
    ensures WellFormed(votes) ==> WellFormed(r)
  {
    if matches == [] then votes
    else
      var votes' := CastOne(votes, PrevIDs(prev, matches[0]), CurrIDs(curr, matches[0]));
      ValidMatchesTail(matches, prev.keypoints, curr.keypoints);
      CastVotes(prev, curr, matches[1..], votes')
  }

  /** The votes of one correspondence: the grid of its two ID lists, skipped
      when either list is empty. */
  function CastOne(votes: Votes, ps: seq<int>, cs: seq<int>): (r: Votes)
    ensures forall p, c :: VoteCount(r, p, c) == VoteCount(votes, p, c) + Count(ps, p) * Count(cs, c)
    ensures WellFormed(votes) ==> WellFormed(r)
  {
    if |ps| > 0 && |cs| > 0 then VoteGrid(votes, ps, cs)
    else
      assert forall p, c :: Count(ps, p) * Count(cs, c) == 0;
      votes
  }

  // ---------------------------------------------------------------------
  // Reductions over ordered maps

  /** `c` is the lowest key among those with the largest count. */
  predicate IsBest(inner: map<int, nat>, c: int) {
    c in inner && forall c' :: c' in inner ==> inner[c'] < inner[c] || (inner[c'] == inner[c] && c <= c')
  }

  /** There is only one lowest-keyed maximum. */
  lemma BestUnique(inner: map<int, nat>, c1: int, c2: int)
    requires IsBest(inner, c1) && IsBest(inner, c2)
    ensures c1 == c2
  {
  }

  /** A non-empty set has an element. */
  lemma HasElement(s: set<int>)
    requires s != {}
    ensures exists y :: y in s
  {
    assert (forall y :: y !in s) ==> s == {};
  }

  /** A non-empty finite set of integers has a least element. */
  lemma {:induction false} MinExists(s: set<int>)
    requires s != {}
    ensures exists m :: m in s && forall x :: x in s ==> m <= x
  {
    HasElement(s);
    var y :| y in s;
    if s - {y} != {} {
      MinExists(s - {y});
      var m :| m in s - {y} && forall x :: x in s - {y} ==> m <= x;
      MinWithOneMore(s, y, m);
    } else {
      forall x | x in s ensures y <= x {
        assert x !in s - {y};
      }
    }
  }

  /** The smaller of `y` and the least element of the rest of `s` is the least
      element of `s`. */
  lemma MinWithOneMore(s: set<int>, y: int, m: int)
    requires y in s && m in s - {y}
    requires forall x :: x in s - {y} ==> m <= x
    ensures exists b :: b in s && forall x :: x in s ==> b <= x
  {
    var b := if y < m then y else m;
    forall x | x in s ensures b <= x {
      if x != y { assert x in s - {y}; }
    }
    assert b in s;
  }

  /** The keys of a std::map in iteration order: ascending. */
  function SortedKeys(s: set<int>): (r: seq<int>)
    ensures forall k :: 0 <= k < |r| ==> r[k] in s
    ensures forall x :: x in s ==> x in r
    ensures forall i, j :: 0 <= i < j < |r| ==> r[i] < r[j]
    decreases s
  {
    if s == {} then []
    else
      MinExists(s);
      var m :| m in s && forall x :: x in s ==> m <= x;
      var rest := SortedKeys(s - {m});
      SortedKeysCons(s, m, rest);
      [m] + rest
  }

  /** Putting the least element in front of an ascending listing of the others
      gives an ascending listing of the whole set. */
  lemma SortedKeysCons(s: set<int>, m: int, rest: seq<int>)
    requires m in s && forall x :: x in s ==> m <= x
    requires forall k :: 0 <= k < |rest| ==> rest[k] in s - {m}
    requires forall x :: x in s - {m} ==> x in rest
    requires forall i, j :: 0 <= i < j < |rest| ==> rest[i] < rest[j]
    ensures var r := [m] + rest;
      && (forall k :: 0 <= k < |r| ==> r[k] in s)
      && (forall x :: x in s ==> x in r)
      && (forall i, j :: 0 <= i < j < |r| ==> r[i] < r[j])
  {
    var r := [m] + rest;
    forall x | x in s ensures x in r {
      if x != m {
        assert x in s - {m};
      }
    }
    forall i, j | 0 <= i < j < |r| ensures r[i] < r[j] {
      assert r[j] == rest[j - 1];
      if i > 0 {
        assert r[i] == rest[i - 1];
      }
    }
  }

  /** The inner loop of a reduction: visit `keys` from index `i` on, in
      order, and move to a key whose count is strictly larger than the best so far. */
  function Scan(inner: map<int, nat>, keys: seq<int>, i: nat, bestID: int, bestVal: int): (r: (int, int))
    requires i <= |keys|
    requires forall k :: 0 <= k < |keys| ==> keys[k] in inner
    requires forall k, l :: 0 <= k < l < |keys| ==> keys[k] < keys[l]
    ensures r.1 >= bestVal
    ensures r.1 == bestVal ==> r.0 == bestID
    ensures r.1 > bestVal ==> r.0 in inner && r.0 in keys[i..] && inner[r.0] == r.1
    ensures forall k :: i <= k < |keys| ==> inner[keys[k]] <= r.1
    ensures forall k :: i <= k < |keys| && inner[keys[k]] == r.1 && r.1 > bestVal ==> r.0 <= keys[k]
    decreases |keys| - i
  {
    if i == |keys| then (bestID, bestVal)
    else
      var c := keys[i];
      if inner[c] > bestVal then Scan(inner, keys, i + 1, c, inner[c])
      else Scan(inner, keys, i + 1, bestID, bestVal)
  }

  /** One reduction step, from `maxValue = -1, maxID = -1`: the lowest ID with
      the largest count and that count, or (-1, -1) for an empty map. */
  function Best(inner: map<int, nat>): (r: (int, int))
    ensures inner == map[] ==> r == (-1, -1)
    ensures inner != map[] ==> IsBest(inner, r.0) && r.1 == inner[r.0]
  {
    var keys := SortedKeys(inner.Keys);
    var r := Scan(inner, keys, 0, -1, -1);
    assert inner != map[] ==> r.1 > -1 by {
      if inner != map[] {
        var x :| x in inner;
        assert x in keys;
      }
    }
    r
  }

  /** A reduction that found a box found a stored count. */
  lemma BestIsStored(inner: map<int, nat>)
    requires Best(inner).0 != -1
    ensures Best(inner).0 in inner && Best(inner).1 == inner[Best(inner).0]
  {
  }

  /** Previous box `p` nominates current box `c`: `c` is its best-supported box
      and is not the sentinel -1. */
  ghost predicate Nominated(votes: Votes, p: int, c: int) {
    p in votes && votes[p] != map[] && Best(votes[p]).0 == c && c != -1
  }

  /** Every current box stored in the nominations has at least one nominator. */
  predicate NonEmptyRows(noms: Nominations) {
    forall c :: c in noms ==> noms[c] != map[]
  }

  /** One iteration of the first reduction: previous box `p` records its vote
      for its best-supported current box under that box. */
  function NominateStep(votes: Votes, p: int, acc: Nominations): (r: Nominations)
    requires p in votes
    ensures NonEmptyRows(acc) ==> NonEmptyRows(r)
  {
    var best := Best(votes[p]);
    if best.0 == -1 then acc
    else
      BestIsStored(votes[p]);
      AddNomination(acc, best.0, p, best.1)
  }

  /** Records that previous box `p` nominates current box `c` with `count` votes. */
  function AddNomination(acc: Nominations, c: int, p: int, count: nat): (r: Nominations)
    ensures NonEmptyRows(acc) ==> NonEmptyRows(r)
  {
    var row := (if c in acc then acc[c] else map[])[p := count];
    assert p in row;
    UpdateKeepsNonEmptyRows(acc, c, row);
    acc[c := row]
  }

  /** Replacing one row by a non-empty row keeps every row non-empty. */
  lemma UpdateKeepsNonEmptyRows(acc: Nominations, c: int, row: map<int, nat>)
    requires row != map[]
    ensures NonEmptyRows(acc) ==> NonEmptyRows(acc[c := row])
  {
    if NonEmptyRows(acc) {
      var r := acc[c := row];
      forall d | d in r ensures r[d] != map[] {
        if d != c {
          assert d in acc;
        }
      }
    }
  }

  /** One iteration of the first reduction adds exactly the nomination of `p`. */
  lemma NominateStepEntry(votes: Votes, p: int, acc: Nominations, c: int, q: int)
    requires p in votes
    ensures var r := NominateStep(votes, p, acc);
      (c in r && q in r[c]) <==> ((c in acc && q in acc[c]) || (q == p && Nominated(votes, p, c)))
    ensures var r := NominateStep(votes, p, acc);
      q == p && Nominated(votes, p, c) ==> r[c][q] == votes[p][c]
    ensures var r := NominateStep(votes, p, acc);
      c in acc && q in acc[c] && q != p ==> r[c][q] == acc[c][q]
  {
    var best := Best(votes[p]);
    if best.0 == -1 {
      assert !Nominated(votes, p, c);
    } else {
      BestIsStored(votes[p]);
      assert Nominated(votes, p, c) <==> c == best.0;
      AddNominationEntry(acc, best.0, p, best.1, c, q);
    }
  }

  /** The entries after recording one nomination. */
  lemma AddNominationEntry(acc: Nominations, c0: int, p: int, count: nat, c: int, q: int)
    ensures var r := AddNomination(acc, c0, p, count);
      (c in r && q in r[c]) <==> ((c in acc && q in acc[c]) || (c == c0 && q == p))
    ensures var r := AddNomination(acc, c0, p, count);
      c == c0 && q == p ==> r[c][q] == count
    ensures var r := AddNomination(acc, c0, p, count);
      c in acc && q in acc[c] && !(c == c0 && q == p) ==> r[c][q] == acc[c][q]
  {
  }

  /** The first reduction: for every previous ID of `ps`, record its vote for
      its best-supported current box under that box. */
  function Nominate(votes: Votes, ps: seq<int>, acc: Nominations): (r: Nominations)
    requires forall k :: 0 <= k < |ps| ==> ps[k] in votes
    ensures NonEmptyRows(acc) ==> NonEmptyRows(r)
    decreases |ps|
  {
    if ps == [] then acc
    else
      TailInKeys(votes, ps);
      Nominate(votes, ps[1..], NominateStep(votes, ps[0], acc))
  }

  /** After the first reduction, `q` is stored under `c` exactly when it was
      before or `q` is one of `ps` and nominates `c`. */
  lemma {:induction false} NominateEntry(votes: Votes, ps: seq<int>, acc: Nominations, c: int, q: int)
    requires forall k :: 0 <= k < |ps| ==> ps[k] in votes
    ensures var r := Nominate(votes, ps, acc);
      (c in r && q in r[c]) <==> ((c in acc && q in acc[c]) || (q in ps && Nominated(votes, q, c)))
    decreases |ps|
  {
    if ps != [] {
      TailInKeys(votes, ps);
      NominateStepEntry(votes, ps[0], acc, c, q);
      NominateEntry(votes, ps[1..], NominateStep(votes, ps[0], acc), c, q);
      assert q in ps <==> q == ps[0] || q in ps[1..];
    }
  }

  /** The first reduction leaves the entries of previous boxes outside `ps` alone. */
  lemma {:induction false} NominateKeeps(votes: Votes, ps: seq<int>, acc: Nominations, c: int, q: int)
    requires forall k :: 0 <= k < |ps| ==> ps[k] in votes
    requires c in acc && q in acc[c] && q !in ps
    ensures var r := Nominate(votes, ps, acc); c in r && q in r[c] && r[c][q] == acc[c][q]
    decreases |ps|
  {
    if ps != [] {
      TailInKeys(votes, ps);
      NominateStepEntry(votes, ps[0], acc, c, q);
      NominateKeeps(votes, ps[1..], NominateStep(votes, ps[0], acc), c, q);
    }
  }

  /** After the first reduction, a nominating previous box of `ps` is stored
      under its nominee with its vote count. */
  lemma {:induction false} NominateValue(votes: Votes, ps: seq<int>, acc: Nominations, c: int, q: int)
    requires forall k :: 0 <= k < |ps| ==> ps[k] in votes
    requires q in ps && Nominated(votes, q, c)
    ensures var r := Nominate(votes, ps, acc); c in r && q in r[c] && r[c][q] == votes[q][c]
    decreases |ps|
  {
    var acc' := NominateStep(votes, ps[0], acc);
    TailInKeys(votes, ps);
    NominateStepEntry(votes, ps[0], acc, c, q);
    if q in ps[1..] {
      NominateValue(votes, ps[1..], acc', c, q);
    } else {
      NominateKeeps(votes, ps[1..], acc', c, q);
    }
  }

  /** One iteration of the second reduction: the best-supported nominator of
      current box `c` is paired with it. */
  function AssignStep(noms: Nominations, c: int, out: map<int, int>): (r: map<int, int>)
    requires c in noms
    ensures var best := Best(noms[c]).0;
      forall p :: p in r <==> p in out || (p == best && p != -1)
    ensures var best := Best(noms[c]).0;
      forall p :: p in r ==> r[p] == (if p == best && best != -1 then c else out[p])
  {
    var best := Best(noms[c]);
    if best.0 != -1 then out[best.0 := c] else out
  }

  /** Current box `c` of `cs` picks previous box `p` as its best-supported nominator. */
  ghost predicate PickedBy(noms: Nominations, cs: seq<int>, p: int, c: int) {
    c in cs && c in noms && Best(noms[c]).0 == p && p != -1
  }

  /** Some current box of `cs` picks previous box `p`. */
  ghost predicate Picked(noms: Nominations, cs: seq<int>, p: int) {
    exists c :: PickedBy(noms, cs, p, c)
  }

  /** The second reduction: for every current ID of `cs`, its best-supported
      nominator is paired with it in `out` (`bbBestMatches[maxID] = c`). */
  function Assign(noms: Nominations, cs: seq<int>, out: map<int, int>): (r: map<int, int>)
    requires forall k :: 0 <= k < |cs| ==> cs[k] in noms
    ensures forall p :: p in out ==> p in r
    decreases |cs|
  {
    if cs == [] then out
    else
      TailInKeys(noms, cs);
      Assign(noms, cs[1..], AssignStep(noms, cs[0], out))
  }

  /** Picking over `cs` splits into the first current ID and the rest. */
  lemma PickedBySplit(noms: Nominations, cs: seq<int>, p: int, c: int)
    requires cs != []
    ensures PickedBy(noms, cs, p, c) <==>
      (c == cs[0] && c in noms && Best(noms[c]).0 == p && p != -1) || PickedBy(noms, cs[1..], p, c)
  {
    assert c in cs <==> c == cs[0] || c in cs[1..];
  }

  /** `p` is picked over `cs` exactly when the first current ID or one of the rest picks it. */
  lemma PickedSplit(noms: Nominations, cs: seq<int>, p: int)
    requires cs != [] && cs[0] in noms
    ensures Picked(noms, cs, p) <==> (Best(noms[cs[0]]).0 == p && p != -1) || Picked(noms, cs[1..], p)
  {
    if Picked(noms, cs, p) {
      var c :| PickedBy(noms, cs, p, c);
      PickedBySplit(noms, cs, p, c);
    }
    if Picked(noms, cs[1..], p) {
      var c :| PickedBy(noms, cs[1..], p, c);
      PickedBySplit(noms, cs, p, c);
    }
    PickedBySplit(noms, cs, p, cs[0]);
  }

  /** After the second reduction a previous box is paired exactly when it was
      already in the output or some current box picks it. */
  lemma {:induction false} AssignKeys(noms: Nominations, cs: seq<int>, out: map<int, int>, p: int)
    requires forall k :: 0 <= k < |cs| ==> cs[k] in noms
    ensures p in Assign(noms, cs, out) <==> p in out || Picked(noms, cs, p)
    decreases |cs|
  {
    if cs != [] {
      TailInKeys(noms, cs);
      AssignKeys(noms, cs[1..], AssignStep(noms, cs[0], out), p);
      PickedSplit(noms, cs, p);
    }
  }

  /** The second reduction leaves an old entry alone when no current box picks it. */
  lemma {:induction false} AssignKeeps(noms: Nominations, cs: seq<int>, out: map<int, int>, p: int)
    requires forall k :: 0 <= k < |cs| ==> cs[k] in noms
    requires p in out && !Picked(noms, cs, p)
    ensures Assign(noms, cs, out)[p] == out[p]
    decreases |cs|
  {
    if cs != [] {
      TailInKeys(noms, cs);
      PickedSplit(noms, cs, p);
      AssignKeeps(noms, cs[1..], AssignStep(noms, cs[0], out), p);
    }
  }

  /** When only the first current ID picks `p`, `p` ends up paired with it. */
  lemma AssignFirstPick(noms: Nominations, cs: seq<int>, out: map<int, int>, p: int)
    requires forall k :: 0 <= k < |cs| ==> cs[k] in noms
    requires cs != [] && Best(noms[cs[0]]).0 == p && p != -1 && !Picked(noms, cs[1..], p)
    ensures p in Assign(noms, cs, out)
    ensures Assign(noms, cs, out)[p] == cs[0] && PickedBy(noms, cs, p, cs[0])
  {
    var out' := AssignStep(noms, cs[0], out);
    TailInKeys(noms, cs);
    assert p in out' && out'[p] == cs[0];
    AssignKeeps(noms, cs[1..], out', p);
    PickedBySplit(noms, cs, p, cs[0]);
  }

  /** When a later current ID picks `p`, the pairing comes from the rest of the walk. */
  lemma {:induction false} AssignLaterPick(noms: Nominations, cs: seq<int>, out: map<int, int>, p: int)
    requires forall k :: 0 <= k < |cs| ==> cs[k] in noms
    requires cs != [] && Picked(noms, cs[1..], p)
    ensures p in Assign(noms, cs, out)
    ensures PickedBy(noms, cs, p, Assign(noms, cs, out)[p])
    decreases |cs|, 0
  {
    var out' := AssignStep(noms, cs[0], out);
    var rest := cs[1..];
    TailInKeys(noms, cs);
    AssignValues(noms, rest, out', p);
    AssignUnfold(noms, cs, out);
    PickedByTail(noms, cs, p, Assign(noms, rest, out')[p]);
  }

  /** The IDs after the first are keys of `m` too. */
  lemma TailInKeys<V>(m: map<int, V>, cs: seq<int>)
    requires forall k :: 0 <= k < |cs| ==> cs[k] in m
    requires cs != []
    ensures forall k :: 0 <= k < |cs[1..]| ==> cs[1..][k] in m
  {
    forall k | 0 <= k < |cs[1..]| ensures cs[1..][k] in m {
      assert cs[1..][k] == cs[k + 1];
    }
  }

  /** The second reduction takes one step and continues on the rest. */
  lemma AssignUnfold(noms: Nominations, cs: seq<int>, out: map<int, int>)
    requires forall k :: 0 <= k < |cs| ==> cs[k] in noms
    requires cs != []
    ensures Assign(noms, cs, out) == Assign(noms, cs[1..], AssignStep(noms, cs[0], out))
  {
  }

  /** A pick by a later current ID is a pick over the whole sequence. */
  lemma PickedByTail(noms: Nominations, cs: seq<int>, p: int, c: int)
    requires cs != [] && PickedBy(noms, cs[1..], p, c)
    ensures PickedBy(noms, cs, p, c)
  {
    PickedBySplit(noms, cs, p, c);
  }

  /** A previous box that some current box picks ends up paired with a
      current box that picks it. */
  lemma {:induction false} AssignValues(noms: Nominations, cs: seq<int>, out: map<int, int>, p: int)
    requires forall k :: 0 <= k < |cs| ==> cs[k] in noms
    requires Picked(noms, cs, p)
    ensures p in Assign(noms, cs, out)
    ensures PickedBy(noms, cs, p, Assign(noms, cs, out)[p])
    decreases |cs|, 1
  {
    PickedSplit(noms, cs, p);
    if Picked(noms, cs[1..], p) {
      AssignLaterPick(noms, cs, out, p);
    } else {
      AssignFirstPick(noms, cs, out, p);
    }
  }

  // ---------------------------------------------------------------------
  // matchBoundingBoxes

  /** The vote map built from an empty start: `boxIDMap`. */
  function BoxVotes(prev: Frame, curr: Frame, matches: seq<Match>): (votes: Votes)
    requires ValidMatches(matches, prev.keypoints, curr.keypoints)
    ensures WellFormed(votes)
    ensures forall p, c :: VoteCount(votes, p, c) == Tally(prev, curr, matches, p, c)
  {
    CastVotes(prev, curr, matches, map[])
  }

  /** The nominations built from an empty start over all previous boxes: `reverseboxIDMap`. */
  function BoxNominations(votes: Votes): (noms: Nominations)
    ensures NonEmptyRows(noms)
  {
    Nominate(votes, SortedKeys(votes.Keys), map[])
  }

  /** The previous boxes that nominate current box `c`, each with its count. */
  ghost function NominatorsOf(votes: Votes, c: int): map<int, nat> {
    map q | q in votes.Keys && Nominated(votes, q, c) :: votes[q][c]
  }

  /** The entries of NominatorsOf. */
  lemma NominatorsOfEntry(votes: Votes, c: int, q: int)
    ensures q in NominatorsOf(votes, c) <==> q in votes && Nominated(votes, q, c)
    ensures q in NominatorsOf(votes, c) ==> c in votes[q] && NominatorsOf(votes, c)[q] == votes[q][c]
  {
  }

  /** Previous box `p` and current box `c` end up paired: `c` is the best-supported
      box of `p`, and `p` is the best-supported of the boxes nominating `c`. */
  ghost predicate Paired(votes: Votes, p: int, c: int) {
    IsBest(NominatorsOf(votes, c), p) && p != -1
  }

  /** Some current box is paired with `p`. */
  ghost predicate HasPartner(votes: Votes, p: int) {
    exists c :: Paired(votes, p, c)
  }

  /** matchBoundingBoxes(matches, bbBestMatches, prevFrame, currFrame): the
      updated `bbBestMatches`. */
  function MatchBoundingBoxes(matches: seq<Match>, bbBestMatches: map<int, int>, prev: Frame, curr: Frame): (r: map<int, int>)
    requires ValidMatches(matches, prev.keypoints, curr.keypoints)
    ensures forall p :: p in bbBestMatches ==> p in r
  {
    var noms := BoxNominations(BoxVotes(prev, curr, matches));
    Assign(noms, SortedKeys(noms.Keys), bbBestMatches)
  }

  /** The first reduction over all previous boxes collects, for every current
      box, exactly its nominators with their counts. */
  lemma NominationsAreNominators(votes: Votes, c: int)
    ensures var noms := BoxNominations(votes);
      c in noms ==> noms[c] == NominatorsOf(votes, c)
    ensures var noms := BoxNominations(votes);
      c !in noms ==> NominatorsOf(votes, c) == map[]
  {
    if c in BoxNominations(votes) {
      NominatedRowIsNominators(votes, c);
    } else {
      UnnominatedHasNoNominators(votes, c);
    }
  }

  /** A current box with a row in the first reduction's result has exactly
      its nominators, with their counts, in that row. */
  lemma NominatedRowIsNominators(votes: Votes, c: int)
    requires c in BoxNominations(votes)
    ensures BoxNominations(votes)[c] == NominatorsOf(votes, c)
  {
    var row := BoxNominations(votes)[c];
    var n := NominatorsOf(votes, c);
    forall q ensures (q in row <==> q in n) && (q in n ==> row[q] == n[q]) {
      NominatedRowEntry(votes, c, q);
    }
    SameEntries(row, n);
  }

  /** Two maps with the same keys and the same value at each key are equal. */
  lemma SameEntries(a: map<int, nat>, b: map<int, nat>)
    requires forall q :: (q in a <==> q in b) && (q in b ==> a[q] == b[q])
    ensures a == b
  {
    forall q ensures q in a.Keys <==> q in b.Keys {
      assert q in a <==> q in b;
    }
    assert a.Keys == b.Keys;
    forall q | q in a ensures a[q] == b[q] {
      assert q in b;
    }
  }

  /** One entry of a row of the first reduction's result. */
  lemma NominatedRowEntry(votes: Votes, c: int, q: int)
    requires c in BoxNominations(votes)
    ensures q in BoxNominations(votes)[c] <==> q in NominatorsOf(votes, c)
    ensures q in NominatorsOf(votes, c) ==> BoxNominations(votes)[c][q] == NominatorsOf(votes, c)[q]
  {
    var ps := SortedKeys(votes.Keys);
    NominateEntry(votes, ps, map[], c, q);
    NominatorsOfEntry(votes, c, q);
    if q in NominatorsOf(votes, c) {
      NominateValue(votes, ps, map[], c, q);
    }
  }

  /** A current box without a row in the first reduction's result has no
      nominators. */
  lemma UnnominatedHasNoNominators(votes: Votes, c: int)
    requires c !in BoxNominations(votes)
    ensures NominatorsOf(votes, c) == map[]
  {
    var ps := SortedKeys(votes.Keys);
    var n := NominatorsOf(votes, c);
    forall q ensures q !in n {
      NominateEntry(votes, ps, map[], c, q);
      NominatorsOfEntry(votes, c, q);
    }
    assert n.Keys == {};
  }

  /** Picking by the second reduction is pairing. */
  lemma PickedIsPaired(votes: Votes, p: int, c: int)
    ensures var noms := BoxNominations(votes);
      PickedBy(noms, SortedKeys(noms.Keys), p, c) <==> Paired(votes, p, c)
  {
    var noms := BoxNominations(votes);
    NominationsAreNominators(votes, c);
    if c in noms {
      assert c in SortedKeys(noms.Keys);
      BestIff(noms[c], p);
    }
  }

  /** On a non-empty map the reduction finds `p` exactly when `p` is the lowest-keyed maximum. */
  lemma BestIff(inner: map<int, nat>, p: int)
    requires inner != map[]
    ensures Best(inner).0 == p <==> IsBest(inner, p)
  {
    if IsBest(inner, p) {
      BestUnique(inner, p, Best(inner).0);
    }
  }

  /** A previous box has at most one partner and a current box has at most one. */
  lemma PairingIsOneToOne(votes: Votes, p: int, c: int, p': int, c': int)
    requires Paired(votes, p, c) && Paired(votes, p', c')
    ensures p == p' <==> c == c'
  {
    if c == c' {
      BestUnique(NominatorsOf(votes, c), p, p');
    }
  }

  /** A previous box ID is a key of the result exactly when it was one before or it is paired. */
  lemma MatchKeys(matches: seq<Match>, bbBestMatches: map<int, int>, prev: Frame, curr: Frame, p: int)
    requires ValidMatches(matches, prev.keypoints, curr.keypoints)
    ensures p in MatchBoundingBoxes(matches, bbBestMatches, prev, curr) <==>
      p in bbBestMatches || HasPartner(BoxVotes(prev, curr, matches), p)
  {
    var votes := BoxVotes(prev, curr, matches);
    var noms := BoxNominations(votes);
    var cs := SortedKeys(noms.Keys);
    AssignKeys(noms, cs, bbBestMatches, p);
    if Picked(noms, cs, p) {
      var c :| PickedBy(noms, cs, p, c);
      PickedIsPaired(votes, p, c);
    }
    if HasPartner(votes, p) {
      var c :| Paired(votes, p, c);
      PickedIsPaired(votes, p, c);
    }
  }

  /** A paired previous box is mapped to its partner. */
  lemma MatchPartner(matches: seq<Match>, bbBestMatches: map<int, int>, prev: Frame, curr: Frame, p: int, c: int)
    requires ValidMatches(matches, prev.keypoints, curr.keypoints)
    requires Paired(BoxVotes(prev, curr, matches), p, c)
    ensures var r := MatchBoundingBoxes(matches, bbBestMatches, prev, curr); p in r && r[p] == c
  {
    var votes := BoxVotes(prev, curr, matches);
    var noms := BoxNominations(votes);
    var cs := SortedKeys(noms.Keys);
    var r := Assign(noms, cs, bbBestMatches);
    PickedIsPaired(votes, p, c);
    AssignValues(noms, cs, bbBestMatches, p);
    PickedIsPaired(votes, p, r[p]);
    PairingIsOneToOne(votes, p, c, p, r[p]);
  }

  /** An old entry of a previous box without a partner is left alone. */
  lemma MatchKeeps(matches: seq<Match>, bbBestMatches: map<int, int>, prev: Frame, curr: Frame, p: int)
    requires ValidMatches(matches, prev.keypoints, curr.keypoints)
    requires p in bbBestMatches && !HasPartner(BoxVotes(prev, curr, matches), p)
    ensures MatchBoundingBoxes(matches, bbBestMatches, prev, curr)[p] == bbBestMatches[p]
  {
    var votes := BoxVotes(prev, curr, matches);
    var noms := BoxNominations(votes);
    var cs := SortedKeys(noms.Keys);
    if Picked(noms, cs, p) {
      var c :| PickedBy(noms, cs, p, c);
      PickedIsPaired(votes, p, c);
    }
    AssignKeeps(noms, cs, bbBestMatches, p);
  }

  /** A paired (p, c) is a mutual best match over the vote tally: c has the
      most votes among the current boxes p votes for (lowest ID on a tie), p
      has the most votes among the previous boxes nominating c (lowest ID on a
      tie), and at least one correspondence supports the pair. */
  lemma PairedIsMutualBest(prev: Frame, curr: Frame, matches: seq<Match>, p: int, c: int)
    requires ValidMatches(matches, prev.keypoints, curr.keypoints)
    requires Paired(BoxVotes(prev, curr, matches), p, c)
    ensures p != -1 && c != -1
    ensures Tally(prev, curr, matches, p, c) > 0
    ensures forall c' :: (Tally(prev, curr, matches, p, c') < Tally(prev, curr, matches, p, c)
      || (Tally(prev, curr, matches, p, c') == Tally(prev, curr, matches, p, c) && c <= c'))
    ensures forall p' :: Nominated(BoxVotes(prev, curr, matches), p', c) ==>
      (Tally(prev, curr, matches, p', c) < Tally(prev, curr, matches, p, c)
      || (Tally(prev, curr, matches, p', c) == Tally(prev, curr, matches, p, c) && p <= p'))
  {
    var votes := BoxVotes(prev, curr, matches);
    PairedIsMutualBestVotes(votes, p, c);
  }

  /** The mutual-best property stated over a well-formed vote map. */
  lemma PairedIsMutualBestVotes(votes: Votes, p: int, c: int)
    requires WellFormed(votes)
    requires Paired(votes, p, c)
    ensures p != -1 && c != -1
    ensures VoteCount(votes, p, c) > 0
    ensures forall c' :: (VoteCount(votes, p, c') < VoteCount(votes, p, c)
      || (VoteCount(votes, p, c') == VoteCount(votes, p, c) && c <= c'))
    ensures forall p' :: Nominated(votes, p', c) ==>
      (VoteCount(votes, p', c) < VoteCount(votes, p, c)
      || (VoteCount(votes, p', c) == VoteCount(votes, p, c) && p <= p'))
  {
    NominatorsOfEntry(votes, c, p);
    assert Nominated(votes, p, c);
    RowBest(votes, p, c);
    ColumnBest(votes, p, c);
  }

  /** The box a previous box nominates outvotes every other current box. */
  lemma RowBest(votes: Votes, p: int, c: int)
    requires WellFormed(votes)
    requires Nominated(votes, p, c)
    ensures VoteCount(votes, p, c) > 0
    ensures forall c' :: (VoteCount(votes, p, c') < VoteCount(votes, p, c)
      || (VoteCount(votes, p, c') == VoteCount(votes, p, c) && c <= c'))
  {
    var row := votes[p];
    assert IsBest(row, c);
    PresentIffCounted(votes, p, c);
    forall c' ensures (VoteCount(votes, p, c') < VoteCount(votes, p, c)
      || (VoteCount(votes, p, c') == VoteCount(votes, p, c) && c <= c')) {
      if c' in row {
        assert row[c'] < row[c] || (row[c'] == row[c] && c <= c');
      }
    }
  }

  /** The previous box paired with `c` outvotes every other nominator of `c`. */
  lemma ColumnBest(votes: Votes, p: int, c: int)
    requires IsBest(NominatorsOf(votes, c), p)
    ensures forall p' :: Nominated(votes, p', c) ==>
      (VoteCount(votes, p', c) < VoteCount(votes, p, c)
      || (VoteCount(votes, p', c) == VoteCount(votes, p, c) && p <= p'))
  {
    var n := NominatorsOf(votes, c);
    NominatorsOfEntry(votes, c, p);
    forall p' | Nominated(votes, p', c) ensures (VoteCount(votes, p', c) < VoteCount(votes, p, c)
      || (VoteCount(votes, p', c) == VoteCount(votes, p, c) && p <= p')) {
      NominatorsOfEntry(votes, c, p');
      assert n[p'] < n[p] || (n[p'] == n[p] && p <= p');
    }
  }
}
