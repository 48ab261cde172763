/**
 Sorting and order statistics over real samples. `Sort` stands for std::sort:
 a sorted permutation is unique (`SortedUnique`), so any sorting algorithm
 gives the same sequence and the choice of insertion sort here is immaterial.
 `OrderStat(s, k)` is the k-th smallest sample (0-based), characterised by
 counting: at most k samples lie strictly below it and more than k lie at or
 below it.
 */
module Sorting {

  predicate Sorted(s: seq<real>) {
    forall i, j :: 0 <= i < j < |s| ==> s[i] <= s[j]
  }

  /** Number of samples strictly below `v`. */
  function CountLess(s: seq<real>, v: real): nat {
    if s == [] then 0 else (if s[0] < v then 1 else 0) + CountLess(s[1..], v)
  }

  /** Number of samples at or below `v`. */
  function CountAtMost(s: seq<real>, v: real): nat {
    if s == [] then 0 else (if s[0] <= v then 1 else 0) + CountAtMost(s[1..], v)
  }

  /** `v` is a k-th smallest element of `s`. */
  predicate IsOrderStat(s: seq<real>, k: nat, v: real) {
    v in s && CountLess(s, v) <= k < CountAtMost(s, v)
  }

  /** Prepending an element no larger than the rest keeps a sequence sorted. */
  lemma SortedCons(h: real, t: seq<real>)
    requires Sorted(t)
    requires forall i :: 0 <= i < |t| ==> h <= t[i]
    ensures Sorted([h] + t)
  {
    var r := [h] + t;
    forall i, j | 0 <= i < j < |r| ensures r[i] <= r[j] {
      if i > 0 {
        assert r[i] == t[i - 1] && r[j] == t[j - 1];
      } else {
        assert r[j] == t[j - 1];
      }
    }
  }

  /** Places `x` into the sorted sequence `s`, before the first element not below it. */
  function Insert(x: real, s: seq<real>): (r: seq<real>)
    requires Sorted(s)
    ensures |r| == |s| + 1
    ensures Sorted(r)
    ensures multiset(r) == multiset(s) + multiset{x}
  {
    if s == [] then [x]
    else if x <= s[0] then
      SortedCons(x, s);
      [x] + s
    else
      var rest := Insert(x, s[1..]);
      assert s == [s[0]] + s[1..];
      assert forall i :: 0 <= i < |rest| ==> s[0] <= rest[i] by {
        forall i | 0 <= i < |rest| ensures s[0] <= rest[i] {
          assert rest[i] in multiset(rest);
          assert rest[i] == x || rest[i] in multiset(s[1..]);
          if rest[i] != x {
            var j :| 0 <= j < |s[1..]| && s[1..][j] == rest[i];
            assert s[j + 1] == rest[i];
          }
        }
      }
      SortedCons(s[0], rest);
      [s[0]] + rest
  }

  /** The ascending arrangement of `s` (std::sort). */
  function Sort(s: seq<real>): (r: seq<real>)
    ensures |r| == |s|
    ensures Sorted(r)
    ensures multiset(r) == multiset(s)
  {
    if s == [] then []
    else
      assert s == [s[0]] + s[1..];
      Insert(s[0], Sort(s[1..]))
  }

  /** Two sorted sequences with the same elements are equal: sorting is
      determined by the multiset of samples alone. */
  lemma {:induction false} SortedUnique(a: seq<real>, b: seq<real>)
    requires Sorted(a) && Sorted(b)
    requires multiset(a) == multiset(b)
    ensures a == b
  {
    assert |a| == |multiset(a)| == |multiset(b)| == |b|;
    if a != [] {
      SortedHeadsEqual(a, b);
      SortedTailsSameElements(a, b);
      SortedUnique(a[1..], b[1..]);
      assert a == [a[0]] + a[1..];
      assert b == [b[0]] + b[1..];
    }
  }

  /** Two non-empty sorted sequences with the same elements start alike. */
  lemma SortedHeadsEqual(a: seq<real>, b: seq<real>)
    requires Sorted(a) && Sorted(b) && a != [] && b != []
    requires multiset(a) == multiset(b)
    ensures a[0] == b[0]
  {
    assert a[0] in multiset(b);
    var i :| 0 <= i < |b| && b[i] == a[0];
    assert b[0] in multiset(a);
    var j :| 0 <= j < |a| && a[j] == b[0];
  }

  /** Dropping equal heads keeps the multisets equal, and sortedness. */
  lemma SortedTailsSameElements(a: seq<real>, b: seq<real>)
    requires Sorted(a) && Sorted(b) && a != [] && b != [] && a[0] == b[0]
    requires multiset(a) == multiset(b)
    ensures Sorted(a[1..]) && Sorted(b[1..])
    ensures multiset(a[1..]) == multiset(b[1..])
  {
    assert a == [a[0]] + a[1..];
    assert b == [b[0]] + b[1..];
    assert multiset(a) == multiset{a[0]} + multiset(a[1..]);
    assert multiset(b) == multiset{b[0]} + multiset(b[1..]);
    assert multiset(a[1..]) == multiset(a) - multiset{a[0]};
    assert multiset(b[1..]) == multiset(b) - multiset{b[0]};
    SortedTail(a);
    SortedTail(b);
  }

  /** Dropping the first element keeps a sequence sorted. */
  lemma SortedTail(s: seq<real>)
    requires Sorted(s) && s != []
    ensures Sorted(s[1..])
  {
    var t := s[1..];
    forall i, j | 0 <= i < j < |t| ensures t[i] <= t[j] {
      assert t[i] == s[i + 1] && t[j] == s[j + 1];
    }
  }

  /** Sorting a sorted sequence changes nothing. */
  lemma SortSorted(s: seq<real>)
    requires Sorted(s)
    ensures Sort(s) == s
  {
    SortedUnique(Sort(s), s);
  }

  /** The result of sorting depends only on the multiset of samples. */
  lemma SortPermutationInvariant(a: seq<real>, b: seq<real>)
    requires multiset(a) == multiset(b)
    ensures Sort(a) == Sort(b)
  {
    SortedUnique(Sort(a), Sort(b));
  }

  lemma {:induction false} CountsOfInsert(x: real, s: seq<real>, v: real)
    requires Sorted(s)
    ensures CountLess(Insert(x, s), v) == CountLess(s, v) + (if x < v then 1 else 0)
    ensures CountAtMost(Insert(x, s), v) == CountAtMost(s, v) + (if x <= v then 1 else 0)
  {
    var r := Insert(x, s);
    if s == [] || x <= s[0] {
      assert r == [x] + s;
      assert r[1..] == s;
    } else {
      var t := s[1..];
      SortedTail(s);
      CountsOfInsert(x, t, v);
      assert r == [s[0]] + Insert(x, t);
      assert r[1..] == Insert(x, t);
    }
  }

  /** Sorting preserves how many samples lie below (or at) any threshold. */
  lemma {:induction false} CountsOfSort(s: seq<real>, v: real)
    ensures CountLess(Sort(s), v) == CountLess(s, v)
    ensures CountAtMost(Sort(s), v) == CountAtMost(s, v)
  {
    if s != [] {
      CountsOfSort(s[1..], v);
      CountsOfInsert(s[0], Sort(s[1..]), v);
    }
  }

  /** In a sorted sequence the element at index k is a k-th smallest element. */
  lemma {:induction false} SortedIndexIsOrderStat(t: seq<real>, k: nat)
    requires Sorted(t)
    requires k < |t|
    ensures CountLess(t, t[k]) <= k < CountAtMost(t, t[k])
  {
    if k == 0 {
      NoneBelowFirst(t);
    } else {
      SortedIndexIsOrderStat(t[1..], k - 1);
      assert t[1..][k - 1] == t[k];
    }
  }

  lemma {:induction false} NoneBelowFirst(t: seq<real>)
    requires Sorted(t)
    requires |t| > 0
    ensures CountLess(t, t[0]) == 0
  {
    AllAtLeastNoneBelow(t, t[0]);
  }

  lemma {:induction false} AllAtLeastNoneBelow(t: seq<real>, v: real)
    requires forall i :: 0 <= i < |t| ==> v <= t[i]
    ensures CountLess(t, v) == 0
  {
    if t != [] {
      AllAtLeastNoneBelow(t[1..], v);
    }
  }

  /** The k-th smallest sample (0-based) of `s`: the k-th element of the sorted copy. */
  function OrderStat(s: seq<real>, k: nat): (v: real)
    requires k < |s|
    ensures IsOrderStat(s, k, v)
  {
    var t := Sort(s);
    SortedIndexIsOrderStat(t, k);
    CountsOfSort(s, t[k]);
    assert t[k] in multiset(s);
    t[k]
  }

  lemma {:induction false} CountAtMostBelowCountLess(s: seq<real>, v: real, w: real)
    requires v < w
    ensures CountAtMost(s, v) <= CountLess(s, w)
  {
    if s != [] {
      CountAtMostBelowCountLess(s[1..], v, w);
    }
  }

  /** The k-th smallest element is unique. */
  lemma OrderStatUnique(s: seq<real>, k: nat, v: real, w: real)
    requires IsOrderStat(s, k, v) && IsOrderStat(s, k, w)
    ensures v == w
  {
    if v < w {
      CountAtMostBelowCountLess(s, v, w);
    } else if w < v {
      CountAtMostBelowCountLess(s, w, v);
    }
  }

  /** In a sorted sequence the k-th smallest element sits at index k. */
  lemma OrderStatOfSorted(t: seq<real>, k: nat)
    requires Sorted(t)
    requires k < |t|
    ensures OrderStat(t, k) == t[k]
  {
    SortSorted(t);
  }

  /** Order statistics do not depend on the order of the samples. */
  lemma OrderStatPermutationInvariant(a: seq<real>, b: seq<real>, k: nat)
    requires multiset(a) == multiset(b)
    requires k < |a|
    ensures |b| == |a|
    ensures OrderStat(a, k) == OrderStat(b, k)
  {
    assert |a| == |multiset(a)| == |multiset(b)| == |b|;
    SortPermutationInvariant(a, b);
  }
}
