/**
 * The percentile cost cut: the cost at index floor(fraction * n) of the ascending-sorted
 * costs of n pools. It is stated here without any sort, as a rank condition on the
 * pools' costs, and the sorted-array computation is proved to meet it.
 */
module Percentile {

  /** Math.signum on an exact real: -1, 0 or 1 by the side of zero `x` lies on. */
  function Sign(x: real): (s: int)
    ensures s == -1 <==> x < 0.0
    ensures s == 0 <==> x == 0.0
    ensures s == 1 <==> x > 0.0
  {
    if x < 0.0 then -1 else if x == 0.0 then 0 else 1
  }

  /** The index CostModuleV1 reads from the sorted costs; it always lies inside the array. */
  function PercentileIndex(fraction: real, n: nat): (k: nat)
    requires 0.0 < fraction < 1.0 && 0 < n
    ensures k < n
    ensures k as real <= fraction * n as real < k as real + 1.0
  {
    (fraction * n as real).Floor
  }

  /** `x` lies below `r`, or at `r` when `inclusive`. */
  predicate Under(x: real, r: real, inclusive: bool)
  {
    x < r || (inclusive && x == r)
  }

  /** The pools whose cost lies below `r` (or at it, when `inclusive`). */
  ghost function Below(costs: map<string, real>, r: real, inclusive: bool): set<string>
  {
    set p | p in costs && Under(costs[p], r, inclusive)
  }

  /**
   * `r` is the percentile cost cut of `costs` for `fraction`: 0 for no pools; otherwise
   * the cost of some pool such that at most k pools cost strictly less and more than k
   * pools cost at most `r`, for k = floor(fraction * n). This is exactly the element at
   * index k of the ascending-sorted costs (SortedIndexIsCut, CutUnique).
   */
  ghost predicate IsPercentileCut(costs: map<string, real>, fraction: real, r: real)
  {
    0.0 < fraction < 1.0 &&
    if |costs| == 0 then r == 0.0
    else
      (exists p :: p in costs && costs[p] == r) &&
      |Below(costs, r, false)| <= PercentileIndex(fraction, |costs|) < |Below(costs, r, true)|
  }

  lemma SubsetCard(a: set<string>, b: set<string>)
    requires a <= b
    ensures |a| <= |b|
  {
    assert b == a + (b - a);
  }

  /** At most one value is the percentile cut of given costs and fraction. */
  lemma CutUnique(costs: map<string, real>, fraction: real, r1: real, r2: real)
    requires IsPercentileCut(costs, fraction, r1) && IsPercentileCut(costs, fraction, r2)
    ensures r1 == r2
  {
    if |costs| > 0 && r1 != r2 {
      var lo, hi := if r1 < r2 then r1 else r2, if r1 < r2 then r2 else r1;
      SubsetCard(Below(costs, lo, true), Below(costs, hi, false));
    }
  }

  /**
   * The cut survives one pool's cost moving from `costs[p]` to `c` when both lie on the
   * same side of the cut (or both on it): the test the cache invalidation performs.
   */
  lemma CutStable(costs: map<string, real>, fraction: real, r: real, p: string, c: real)
    requires IsPercentileCut(costs, fraction, r) && p in costs
    requires Sign(costs[p] - r) == Sign(c - r)
    ensures IsPercentileCut(costs[p := c], fraction, r)
  {
    var costs' := costs[p := c];
    assert costs'.Keys == costs.Keys;
    assert |costs'| == |costs| by { assert |costs'.Keys| == |costs.Keys|; }
    assert Below(costs', r, false) == Below(costs, r, false);
    assert Below(costs', r, true) == Below(costs, r, true);
    var w :| w in costs && costs[w] == r;
    assert w in costs' && costs'[w] == r;
  }

  /** Three pools costing 1, 2 and 3: the cut for fraction 0.5 is 2 (index floor(1.5) = 1), and nothing else. */
  lemma ThreePoolsMedian(r: real)
    ensures IsPercentileCut(map["A" := 1.0, "B" := 2.0, "C" := 3.0], 0.5, r) <==> r == 2.0
  {
    var costs := map["A" := 1.0, "B" := 2.0, "C" := 3.0];
    assert |costs| == 3 by { assert costs.Keys == {"A", "B", "C"}; }
    assert PercentileIndex(0.5, 3) == 1;
    assert Below(costs, 2.0, false) == {"A"};
    assert Below(costs, 2.0, true) == {"A", "B"};
    assert costs["B"] == 2.0;
    if IsPercentileCut(costs, 0.5, r) {
      CutUnique(costs, 0.5, r, 2.0);
    }
  }

  /** Number of elements of `s` below `r` (or at it, when `inclusive`). */
  function Count(s: seq<real>, r: real, inclusive: bool): (n: nat)
    ensures n <= |s|
  {
    if s == [] then 0
    else Count(s[..|s| - 1], r, inclusive) + (if Under(s[|s| - 1], r, inclusive) then 1 else 0)
  }

  lemma {:induction false} CountAppend(s: seq<real>, t: seq<real>, r: real, inclusive: bool)
    ensures Count(s + t, r, inclusive) == Count(s, r, inclusive) + Count(t, r, inclusive)
  {
    if t != [] {
      assert (s + t)[..|s + t| - 1] == s + t[..|t| - 1];
      CountAppend(s, t[..|t| - 1], r, inclusive);
    } else {
      assert s + t == s;
    }
  }

  /** Counting does not depend on the order of the elements. */
  lemma {:induction false} CountPermutation(s: seq<real>, t: seq<real>, r: real, inclusive: bool)
    requires multiset(s) == multiset(t)
    ensures Count(s, r, inclusive) == Count(t, r, inclusive)
    decreases |s|
  {
    if s != [] {
      var x := s[|s| - 1];
      var s' := s[..|s| - 1];
      assert s == s' + [x];
      assert x in multiset(t);
      var j :| 0 <= j < |t| && t[j] == x;
      var t' := t[..j] + t[j + 1..];
      assert t == t[..j] + [x] + t[j + 1..];
      assert multiset(s) == multiset(s') + multiset{x};
      assert multiset(t) == multiset(t[..j]) + multiset{x} + multiset(t[j + 1..]);
      assert multiset(t') == multiset(t[..j]) + multiset(t[j + 1..]);
      assert multiset(s') == multiset(s) - multiset{x};
      assert multiset(t') == multiset(t) - multiset{x};
      CountPermutation(s', t', r, inclusive);
      CountAppend(t[..j] + [x], t[j + 1..], r, inclusive);
      CountAppend(t[..j], [x], r, inclusive);
      CountAppend(t[..j], t[j + 1..], r, inclusive);
      assert Count([x], r, inclusive) == if Under(x, r, inclusive) then 1 else 0 by {
        assert [x][..0] == [];
      }
    } else {
      assert t == [];
    }
  }

  lemma {:induction false} CountAll(s: seq<real>, r: real, inclusive: bool)
    requires forall i :: 0 <= i < |s| ==> Under(s[i], r, inclusive)
    ensures Count(s, r, inclusive) == |s|
  {
    if s != [] {
      CountAll(s[..|s| - 1], r, inclusive);
    }
  }

  ghost predicate Sorted(s: seq<real>)
  {
    forall i, j :: 0 <= i < j < |s| ==> s[i] <= s[j]
  }

  /** In a sorted sequence, at most k elements lie strictly below s[k] and more than k at or below it. */
  lemma SortedCountAt(s: seq<real>, k: nat)
    requires Sorted(s) && k < |s|
    ensures Count(s, s[k], false) <= k < Count(s, s[k], true)
  {
    SortedCountBelow(s, k);
    SortedCountAtMost(s, k);
  }

  lemma SortedCountBelow(s: seq<real>, k: nat)
    requires Sorted(s) && k < |s|
    ensures Count(s, s[k], false) <= k
  {
  }

  lemma SortedCountAtMost(s: seq<real>, k: nat)
    requires Sorted(s) && k < |s|
    ensures k < Count(s, s[k], true)
  {
    var r := s[k];
    var upTo, rest := s[..k + 1], s[k + 1..];
    assert s == upTo + rest;
    CountAppend(upTo, rest, r, true);
    assert forall i :: 0 <= i < |upTo| ==> upTo[i] == s[i];
    CountAll(upTo, r, true);
  }

  ghost predicate Distinct(ks: seq<string>)
  {
    forall i, j :: 0 <= i < j < |ks| ==> ks[i] != ks[j]
  }

  /** A sequence without repetitions has as many elements as the set of them. */
  lemma {:induction false} DistinctCard(ks: seq<string>)
    requires Distinct(ks)
    ensures |set p | p in ks| == |ks|
  {
    if ks != [] {
      var n := |ks| - 1;
      var init := ks[..n];
      assert Distinct(init);
      DistinctCard(init);
      assert ks[n] !in init;
      assert (set p | p in ks) == (set p | p in init) + {ks[n]};
    } else {
      assert (set p | p in ks) == {};
    }
  }

  /** `s` lists the costs of the pools `ks`, in that order. */
  ghost predicate Lists(costs: map<string, real>, ks: seq<string>, s: seq<real>)
  {
    |s| == |ks| && forall i :: 0 <= i < |ks| ==> ks[i] in costs && s[i] == costs[ks[i]]
  }

  /** The pools among `ks` whose cost lies below `r` (or at it, when `inclusive`). */
  ghost function ListedBelow(costs: map<string, real>, ks: seq<string>, r: real, inclusive: bool): set<string>
  {
    set p | p in ks && p in costs && Under(costs[p], r, inclusive)
  }

  /** Counting the listed costs counts the distinct pools they belong to. */
  lemma {:induction false} CountListed(costs: map<string, real>, ks: seq<string>, s: seq<real>, r: real, inclusive: bool)
    requires Lists(costs, ks, s) && Distinct(ks)
    ensures Count(s, r, inclusive) == |ListedBelow(costs, ks, r, inclusive)|
  {
    if ks != [] {
      var n := |ks| - 1;
      var x, init := ks[n], ks[..n];
      assert Lists(costs, init, s[..n]);
      CountListed(costs, init, s[..n], r, inclusive);
      var before, after := ListedBelow(costs, init, r, inclusive), ListedBelow(costs, ks, r, inclusive);
      assert x !in init;
      assert x !in before;
      assert forall p :: p in ks <==> p in init || p == x;
      if Under(costs[x], r, inclusive) {
        assert after == before + {x};
      } else {
        assert after == before;
      }
    } else {
      assert ListedBelow(costs, ks, r, inclusive) == {};
    }
  }

  /**
   * The element at index floor(fraction * n) of the ascending sort of one listing of all
   * n pools' costs is the percentile cut.
   */
  lemma SortedIndexIsCut(costs: map<string, real>, ks: seq<string>, listed: seq<real>, sorted: seq<real>, fraction: real)
    requires 0.0 < fraction < 1.0 && |costs| > 0
    requires Lists(costs, ks, listed) && Distinct(ks) && |ks| == |costs|
    requires forall p :: p in costs ==> p in ks
    requires Sorted(sorted) && multiset(sorted) == multiset(listed)
    ensures |sorted| == |costs| && IsPercentileCut(costs, fraction, sorted[PercentileIndex(fraction, |costs|)])
  {
    assert |sorted| == |listed| by {
      assert |multiset(sorted)| == |multiset(listed)|;
    }
    var k := PercentileIndex(fraction, |costs|);
    var r := sorted[k];
    assert r in multiset(listed) by { assert r in multiset(sorted); }
    var i :| 0 <= i < |listed| && listed[i] == r;
    assert ks[i] in costs && costs[ks[i]] == r;
    SortedCountAt(sorted, k);
    forall inclusive | true
      ensures Count(sorted, r, inclusive) == |Below(costs, r, inclusive)|
    {
      CountPermutation(sorted, listed, r, inclusive);
      CountListed(costs, ks, listed, r, inclusive);
      assert ListedBelow(costs, ks, r, inclusive) == Below(costs, r, inclusive);
    }
  }

  /** Arrays.sort on the cost array: ascending order, same elements. */
  method SortCosts(a: array<real>)
    modifies a
    ensures Sorted(a[..])
    ensures multiset(a[..]) == old(multiset(a[..]))
  {
    var i := 0;
    while i < a.Length
      invariant 0 <= i <= a.Length
      invariant forall m, n :: 0 <= m < n < i ==> a[m] <= a[n]
      invariant multiset(a[..]) == old(multiset(a[..]))
    {
      var j := i;
      while j > 0 && a[j - 1] > a[j]
        invariant 0 <= j <= i
        invariant forall m, n :: 0 <= m < n <= i && n != j ==> a[m] <= a[n]
        invariant multiset(a[..]) == old(multiset(a[..]))
      {
        a[j - 1], a[j] := a[j], a[j - 1];
        j := j - 1;
      }
      i := i + 1;
    }
  }
}
