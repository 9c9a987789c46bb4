/** Aggregation of the per-request results (stress.py lines 146-147): the `Counter`
    of statuses and the list of measured durations. */
module Results {
  import opened Wrappers
  import opened Sequences

  /** What `make_request` records as `status`: the HTTP status code, or the shortened
      `repr` of the exception that ended the request. */
  datatype Status = Code(code: int) | Label(text: string)

  /** One result: `{'status': ..., 'time': ...}`; `time` is `None` when no response
      was received. */
  datatype Outcome = Outcome(status: Status, time: Option<real>)

  function Statuses(results: seq<Outcome>): seq<Status> {
    MapSeq((o: Outcome) => o.status, results)
  }

  /** Counts one more occurrence of `st`. */
  function Tally(h: map<Status, nat>, st: Status): (r: map<Status, nat>)
    ensures r.Keys == h.Keys + {st}
    ensures r[st] == (if st in h then h[st] else 0) + 1
    ensures forall k :: k in h && k != st ==> r[k] == h[k]
  {
    h[st := (if st in h then h[st] else 0) + 1]
  }

  /** `Counter([r['status'] for r in results])`. */
  function Histogram(results: seq<Outcome>): map<Status, nat>
    decreases |results|
  {
    if results == [] then map[]
    else
      var n := |results| - 1;
      Tally(Histogram(results[..n]), results[n].status)
  }

  /** `[r['time'] for r in results if r['time'] is not None]`. */
  function Durations(results: seq<Outcome>): (d: seq<real>)
    ensures |d| <= |results|
    decreases |results|
  {
    if results == [] then []
    else
      var n := |results| - 1;
      Durations(results[..n]) + (match results[n].time case Some(t) => [t] case None => [])
  }

  /** The durations, or the sentinel `[-1.0]` when there are none (`... or [-1.0]`). */
  function Times(results: seq<Outcome>): (times: seq<real>)
    ensures times != []
  {
    var d := Durations(results);
    if d == [] then [-1.0] else d
  }

  /** The sum of all counts of a histogram. */
  ghost function SumCounts(h: map<Status, nat>): nat
    decreases |h|
  {
    if h == map[] then 0
    else
      var k := PickKey(h);
      h[k] + SumCounts(h - {k})
  }

  ghost function PickKey(h: map<Status, nat>): (k: Status)
    requires h != map[]
    ensures k in h && |h - {k}| < |h|
  {
    var k :| k in h.Keys;
    assert (h - {k}).Keys == h.Keys - {k};
    k
  }

  /** Any key may be taken out first when summing. */
  lemma {:induction false} SumCountsRemove(h: map<Status, nat>, k: Status)
    requires k in h
    ensures SumCounts(h) == h[k] + SumCounts(h - {k})
    decreases |h|
  {
    var k' := PickKey(h);
    if k' != k {
      assert k' in h - {k};
      SumCountsRemove(h - {k'}, k);
      SumCountsRemove(h - {k}, k');
      assert h - {k'} - {k} == h - {k} - {k'};
    }
  }

  lemma SumCountsTally(h: map<Status, nat>, st: Status)
    ensures SumCounts(Tally(h, st)) == SumCounts(h) + 1
  {
    if st in h {
      SumCountsBump(h, st);
    } else {
      SumCountsNew(h, st);
    }
  }

  lemma SumCountsNew(h: map<Status, nat>, st: Status)
    requires st !in h
    ensures SumCounts(h[st := 1]) == SumCounts(h) + 1
  {
    var t := h[st := 1];
    SumCountsRemove(t, st);
    assert t - {st} == h;
  }

  lemma SumCountsBump(h: map<Status, nat>, st: Status)
    requires st in h
    ensures SumCounts(h[st := h[st] + 1]) == SumCounts(h) + 1
  {
    var t := h[st := h[st] + 1];
    SumCountsRemove(t, st);
    SumCountsRemove(h, st);
    assert t - {st} == h - {st};
  }

  /** One count per result: the histogram's counts add up to `len(results)`. */
  lemma {:induction false} HistogramTotal(results: seq<Outcome>)
    ensures SumCounts(Histogram(results)) == |results|
    decreases |results|
  {
    if results != [] {
      var n := |results| - 1;
      HistogramTotal(results[..n]);
      SumCountsTally(Histogram(results[..n]), results[n].status);
    }
  }

  /** The histogram maps exactly the statuses that occur, each to its number of
      occurrences. */
  lemma {:induction false} HistogramCounts(results: seq<Outcome>)
    ensures forall st :: st in Histogram(results) <==> st in multiset(Statuses(results))
    ensures forall st :: st in Histogram(results) ==>
              Histogram(results)[st] == multiset(Statuses(results))[st]
    decreases |results|
  {
    if results != [] {
      var n := |results| - 1;
      HistogramCounts(results[..n]);
      assert results == results[..n] + [results[n]];
      MapSeqAppend((o: Outcome) => o.status, results[..n], [results[n]]);
      assert Statuses(results) == Statuses(results[..n]) + [results[n].status];
    }
  }

  /** The histogram depends only on the multiset of results, not on their order. */
  lemma HistogramOrderIndependent(a: seq<Outcome>, b: seq<Outcome>)
    requires multiset(a) == multiset(b)
    ensures Histogram(a) == Histogram(b)
  {
    MapSeqPermutation((o: Outcome) => o.status, a, b);
    HistogramCounts(a);
    HistogramCounts(b);
    assert Histogram(a).Keys == Histogram(b).Keys;
  }

  /** When every result has the same status, the histogram has that one entry. */
  lemma {:induction false} UniformHistogram(results: seq<Outcome>, st: Status)
    requires results != []
    requires forall i :: 0 <= i < |results| ==> results[i].status == st
    ensures Histogram(results) == map[st := |results|]
    decreases |results|
  {
    var n := |results| - 1;
    if n > 0 {
      UniformHistogram(results[..n], st);
    }
  }

  lemma {:induction false} DurationsAppend(a: seq<Outcome>, b: seq<Outcome>)
    ensures Durations(a + b) == Durations(a) + Durations(b)
    decreases |b|
  {
    if b != [] {
      var n := |b| - 1;
      assert (a + b)[..|a + b| - 1] == a + b[..n];
      DurationsAppend(a, b[..n]);
    } else {
      assert a + b == a;
    }
  }

  /** `times` holds the measured durations and nothing else. */
  lemma {:induction false} DurationsMembers(results: seq<Outcome>, x: real)
    ensures x in Durations(results) <==>
              exists i :: 0 <= i < |results| && results[i].time == Some(x)
    decreases |results|
  {
    if results != [] {
      var n := |results| - 1;
      DurationsMembers(results[..n], x);
      if exists i :: 0 <= i < |results| && results[i].time == Some(x) {
        var i :| 0 <= i < |results| && results[i].time == Some(x);
        if i < n {
          assert results[..n][i] == results[i];
        }
      }
    }
  }

  /** The durations list is empty exactly when no result carries a duration, and
      then the sentinel takes its place. */
  lemma {:induction false} NoDurations(results: seq<Outcome>)
    ensures Durations(results) == [] <==> forall i :: 0 <= i < |results| ==> results[i].time == None
    ensures (forall i :: 0 <= i < |results| ==> results[i].time == None) ==> Times(results) == [-1.0]
    ensures (exists i :: 0 <= i < |results| && results[i].time != None) ==> Times(results) == Durations(results)
    decreases |results|
  {
    if results != [] {
      var n := |results| - 1;
      NoDurations(results[..n]);
      assert forall i :: 0 <= i < n ==> results[..n][i] == results[i];
    }
  }

  /** Taking the result at index `k` out of a list takes its duration, if any, out
      of the durations. */
  lemma DurationsRemove(b: seq<Outcome>, k: nat)
    requires k < |b|
    ensures multiset(Durations(b)) == multiset(Durations(b[..k] + b[k + 1..])) + multiset(Durations([b[k]]))
  {
    var front, back := b[..k], b[k + 1..];
    assert b == front + ([b[k]] + back);
    DurationsAppend(front, [b[k]] + back);
    DurationsAppend([b[k]], back);
    DurationsAppend(front, back);
  }

  lemma DurationsStep(a: seq<Outcome>, b: seq<Outcome>, k: nat)
    requires a != [] && k < |b| && b[k] == a[0]
    requires multiset(Durations(a[1..])) == multiset(Durations(b[..k] + b[k + 1..]))
    ensures multiset(Durations(a)) == multiset(Durations(b))
  {
    DurationsRemove(a, 0);
    assert a[..0] + a[1..] == a[1..];
    DurationsRemove(b, k);
    assert [b[k]] == [a[0]];
  }

  /** Reordering the results reorders the durations and nothing more. */
  lemma {:induction false} DurationsPermutation(a: seq<Outcome>, b: seq<Outcome>)
    requires multiset(a) == multiset(b)
    ensures multiset(Durations(a)) == multiset(Durations(b))
    decreases |a|
  {
    if a == [] {
      assert |b| == |multiset(b)| == 0;
    } else {
      var k := PermutationSplit(a, b);
      DurationsPermutation(a[1..], b[..k] + b[k + 1..]);
      DurationsStep(a, b, k);
    }
  }

  /** Lines 146-147 as one pass over the results. */
  method Aggregate(results: seq<Outcome>) returns (statuses: map<Status, nat>, times: seq<real>)
    ensures statuses == Histogram(results)
    ensures times == Times(results)
    ensures SumCounts(statuses) == |results|
  {
    statuses := map[];
    var durations := [];
    var i := 0;
    while i < |results|
      invariant 0 <= i <= |results|
      invariant statuses == Histogram(results[..i])
      invariant durations == Durations(results[..i])
    {
      var r := results[i];
      var seen := if r.status in statuses then statuses[r.status] else 0;
      statuses := statuses[r.status := seen + 1];
      if r.time.Some? {
        durations := durations + [r.time.value];
      }
      assert results[..i + 1][..i] == results[..i];
      i := i + 1;
    }
    assert results[..i] == results;
    times := if durations == [] then [-1.0] else durations;
    HistogramTotal(results);
  }
}
