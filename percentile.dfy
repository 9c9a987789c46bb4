/** The nearest-rank percentile of stress.py (`percentile`), with Python's own
    ceiling, list indexing and fallback branch written out. */
module Percentiles {
  import opened Sorting

  /** What `percentile` gives: an element looked up in the sorted list, the `-1.0`
      returned when the guard fails, or Python's `IndexError`. */
  datatype Pick = Picked(value: real) | Fallback(value: real) | IndexError

  /** `math.ceil(a / 100)` for an integer `a`, negative values included. */
  function CeilDiv100(a: int): (q: int)
    ensures 100 * (q - 1) < a <= 100 * q
  {
    -((-a) / 100)
  }

  /** `int(math.ceil((size * percent) / 100)) - 1`: the zero-based rank looked up. */
  function Position(size: nat, percent: int): (position: int)
    ensures 100 * position < size * percent <= 100 * (position + 1)
  {
    CeilDiv100(size * percent) - 1
  }

  /** Python's `s[i]`: a negative index counts from the end. */
  function PyIndex(s: seq<real>, i: int): (r: Pick)
    ensures r.Picked? <==> -|s| <= i < |s|
    ensures 0 <= i < |s| ==> r == Picked(s[i])
    ensures -|s| <= i < 0 ==> r == Picked(s[|s| + i])
  {
    if 0 <= i < |s| then Picked(s[i])
    else if -|s| <= i < 0 then Picked(s[|s| + i])
    else IndexError
  }

  /** The condition `len(values) >= position` that selects the lookup over `-1.0`:
      it fails only once `size * percent` exceeds `100 * (size + 1)`. */
  predicate GuardHolds(values: seq<real>, percent: int)
    ensures GuardHolds(values, percent) <==> |values| * percent <= 100 * (|values| + 1)
  {
    |values| >= Position(|values|, percent)
  }

  function Percentile(values: seq<real>, percent: int): (r: Pick)
    ensures values == [] ==> r == IndexError
    ensures values != [] && 0 < percent <= 100 ==> r.Picked? && r.value in values
  {
    var position := Position(|values|, percent);
    if GuardHolds(values, percent) then
      PositionInRange(|values|, percent);
      SortedElement(values, position);
      PyIndex(Sort(values), position)
    else
      Fallback(-1.0)
  }

  /** Every valid index of the sorted list holds an element of the input. */
  lemma SortedElement(values: seq<real>, i: int)
    ensures |Sort(values)| == |values|
    ensures 0 <= i < |values| ==> Sort(values)[i] in values
  {
    var s := Sort(values);
    assert |s| == |multiset(s)| == |values|;
    if 0 <= i < |values| {
      assert s[i] in multiset(s);
    }
  }

  /** For a non-empty list and a percent in (0, 100] the rank is a valid index. */
  lemma PositionInRange(size: nat, percent: int)
    ensures size > 0 && 0 < percent <= 100 ==> 0 <= Position(size, percent) < size
  {
  }

  lemma MulMonotone(n: nat, p: int, q: int)
    requires p <= q
    ensures n * p <= n * q
  {
  }

  /** A larger percent never gives an earlier rank. */
  lemma PositionMonotone(size: nat, p: int, q: int)
    requires p <= q
    ensures Position(size, p) <= Position(size, q)
  {
    MulMonotone(size, p, q);
  }

  /** The guard never fails for a percent of at most 100: the `-1.0` fallback is dead
      code for every call in the program (they use 50, 90, 95 and 99). */
  lemma GuardAlwaysHolds(values: seq<real>, percent: int)
    requires percent <= 100
    ensures GuardHolds(values, percent)
  {
  }

  /** Above 100 percent the rank is at least the size of a non-empty list. */
  lemma PositionPastEnd(size: nat, percent: int)
    requires size > 0 && percent > 100
    ensures Position(size, percent) >= size
  {
    MulMonotone(size, 101, percent);
  }

  /** Above 100 percent no element is ever picked: the lookup runs off the end while
      the guard still holds, and the function falls back to `-1.0` once it fails. */
  lemma PercentAboveHundred(values: seq<real>, percent: int)
    requires percent > 100
    ensures Percentile(values, percent) == IndexError || Percentile(values, percent) == Fallback(-1.0)
    ensures Percentile(values, percent) == IndexError <==> GuardHolds(values, percent)
  {
    assert |Sort(values)| == |multiset(Sort(values))|;
    if |values| > 0 {
      PositionPastEnd(|values|, percent);
    }
  }

  /** Both outcomes occur: 200 percent of one value runs off the end, 300 percent
      falls back to `-1.0`. */
  lemma PercentAboveHundredExamples(x: real)
    ensures Percentile([x], 200) == IndexError
    ensures Percentile([x], 300) == Fallback(-1.0)
  {
  }

  /** Percent 0 gives rank -1, which Python reads as the last, hence largest, element. */
  lemma PercentZeroIsMaximum(values: seq<real>)
    requires values != []
    ensures Percentile(values, 0).Picked?
    ensures Percentile(values, 0).value in values
    ensures forall w :: w in values ==> w <= Percentile(values, 0).value
  {
    var s := Sort(values);
    assert Position(|values|, 0) == -1;
    assert |s| == |multiset(s)| == |values|;
    forall w | w in values ensures w <= s[|s| - 1] {
      assert w in multiset(s);
      var j :| 0 <= j < |s| && s[j] == w;
    }
    assert s[|s| - 1] in multiset(values);
  }

  /** Reordering the input does not change any percentile: the list is sorted first. */
  lemma PercentileOrderIndependent(a: seq<real>, b: seq<real>, percent: int)
    requires multiset(a) == multiset(b)
    ensures Percentile(a, percent) == Percentile(b, percent)
  {
    assert |a| == |multiset(a)| == |b|;
    SortPermutation(a, b);
  }

  /** A larger percent never gives a smaller value: P50 <= P90 <= P95 <= P99. */
  lemma PercentileMonotone(values: seq<real>, p: int, q: int)
    requires values != [] && 0 < p <= q <= 100
    ensures Percentile(values, p).value <= Percentile(values, q).value
  {
    var n := |values|;
    var s := Sort(values);
    PositionMonotone(n, p, q);
    PositionInRange(n, p);
    PositionInRange(n, q);
    GuardAlwaysHolds(values, p);
    GuardAlwaysHolds(values, q);
    assert |s| == |multiset(values)| == n;
    assert Percentile(values, p) == Picked(s[Position(n, p)]);
    assert Percentile(values, q) == Picked(s[Position(n, q)]);
  }

  /** The number of elements of `s` that are at most `v`. */
  function CountAtMost(s: seq<real>, v: real): (c: nat)
    ensures c <= |s|
  {
    if s == [] then 0 else (if s[0] <= v then 1 else 0) + CountAtMost(s[1..], v)
  }

  lemma {:induction false} CountAtMostAppend(a: seq<real>, b: seq<real>, v: real)
    ensures CountAtMost(a + b, v) == CountAtMost(a, v) + CountAtMost(b, v)
    decreases |a|
  {
    if a != [] {
      assert (a + b)[1..] == a[1..] + b;
      CountAtMostAppend(a[1..], b, v);
    } else {
      assert a + b == b;
    }
  }

  /** The count depends only on the multiset of elements. */
  lemma {:induction false} CountAtMostPermutation(a: seq<real>, b: seq<real>, v: real)
    requires multiset(a) == multiset(b)
    ensures CountAtMost(a, v) == CountAtMost(b, v)
    decreases |a|
  {
    if a == [] {
      assert |b| == |multiset(b)| == 0;
    } else {
      assert a[0] in multiset(b);
      var k :| 0 <= k < |b| && b[k] == a[0];
      assert b == b[..k] + [b[k]] + b[k + 1..];
      assert multiset(b) == multiset(b[..k] + b[k + 1..]) + multiset{a[0]};
      assert a == [a[0]] + a[1..];
      assert multiset(a[1..]) == multiset(a) - multiset{a[0]};
      CountAtMostPermutation(a[1..], b[..k] + b[k + 1..], v);
      CountAtMostAppend(b[..k], b[k + 1..], v);
      CountAtMostAppend(b[..k] + [b[k]], b[k + 1..], v);
      CountAtMostAppend(b[..k], [b[k]], v);
    }
  }

  /** Every element at most `v` gives a full count, every element above it none. */
  lemma {:induction false} CountAtMostBounds(s: seq<real>, v: real)
    ensures (forall i :: 0 <= i < |s| ==> s[i] <= v) ==> CountAtMost(s, v) == |s|
    ensures (forall i :: 0 <= i < |s| ==> v < s[i]) ==> CountAtMost(s, v) == 0
    decreases |s|
  {
    if s != [] {
      CountAtMostBounds(s[1..], v);
      assert forall i :: 1 <= i < |s| ==> s[1..][i - 1] == s[i];
    }
  }

  /** In an ascending list, the element at index `k` has at least `k + 1` elements
      at most it. */
  lemma RankLowerBound(s: seq<real>, k: nat)
    requires IsSorted(s) && k < |s|
    ensures CountAtMost(s, s[k]) >= k + 1
  {
    assert s == s[..k + 1] + s[k + 1..];
    CountAtMostAppend(s[..k + 1], s[k + 1..], s[k]);
    CountAtMostBounds(s[..k + 1], s[k]);
  }

  /** In an ascending list, a value below the element at index `k` has at most `k`
      elements at most it. */
  lemma RankUpperBound(s: seq<real>, k: nat, w: real)
    requires IsSorted(s) && k < |s| && w < s[k]
    ensures CountAtMost(s, w) <= k
  {
    assert s == s[..k] + s[k..];
    CountAtMostAppend(s[..k], s[k..], w);
    CountAtMostBounds(s[k..], w);
  }

  /** The value picked is the nearest-rank percentile: the smallest element of `values`
      such that at least `percent` percent of the elements are at most it. */
  lemma PercentileIsNearestRank(values: seq<real>, percent: int)
    requires values != [] && 0 < percent <= 100
    ensures var v := Percentile(values, percent).value;
      && v in values
      && 100 * CountAtMost(values, v) >= percent * |values|
      && forall w :: w in values && w < v ==> 100 * CountAtMost(values, w) < percent * |values|
  {
    var n := |values|;
    var s := Sort(values);
    var k := Position(n, percent);
    PositionInRange(n, percent);
    GuardAlwaysHolds(values, percent);
    SortedElement(values, k);
    var v := s[k];
    assert Percentile(values, percent) == Picked(v);
    RankLowerBound(s, k);
    CountAtMostPermutation(s, values, v);
    forall w | w in values && w < v
      ensures 100 * CountAtMost(values, w) < percent * n
    {
      RankUpperBound(s, k, w);
      CountAtMostPermutation(s, values, w);
    }
  }

  /** Over 1..10, P50 is 5 and P90 is 9. */
  lemma WorkedExample()
    ensures Percentile([1.0, 2.0, 3.0, 4.0, 5.0, 6.0, 7.0, 8.0, 9.0, 10.0], 50) == Picked(5.0)
    ensures Percentile([1.0, 2.0, 3.0, 4.0, 5.0, 6.0, 7.0, 8.0, 9.0, 10.0], 90) == Picked(9.0)
  {
    var s := seq(10, i requires 0 <= i < 10 => (i + 1) as real);
    assert IsSorted(s);
    assert s == [1.0, 2.0, 3.0, 4.0, 5.0, 6.0, 7.0, 8.0, 9.0, 10.0];
    SortOfSorted(s);
    assert Position(10, 50) == 4;
    assert Position(10, 90) == 8;
    GuardAlwaysHolds(s, 50);
    GuardAlwaysHolds(s, 90);
  }
}
