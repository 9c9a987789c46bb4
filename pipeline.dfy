/** From jobs to report: dispatching every job, and the latency figures printed
    at the end of `main`. */
module Pipeline {
  import opened Wrappers
  import opened Sequences
  import opened Jobs
  import opened Results
  import opened Percentiles

  /** `pool.map(make_request, jobs)` as a sequential map: one result per job, in job
      order, with `execute` standing for one deterministic call of `make_request`. */
  function Dispatch(jobs: seq<Job>, execute: Job -> Outcome): (results: seq<Outcome>)
    ensures |results| == |jobs|
    ensures forall i :: 0 <= i < |jobs| ==> results[i] == execute(jobs[i])
  {
    MapSeq(execute, jobs)
  }

  /** P50, P90, P95 and P99 over `times`; the sentinel keeps `times` non-empty, so no
      lookup fails, and the four figures come out in ascending order. */
  function LatencyPercentiles(results: seq<Outcome>): (p: seq<real>)
    ensures |p| == 4
    ensures Percentile(Times(results), 50) == Picked(p[0])
    ensures Percentile(Times(results), 90) == Picked(p[1])
    ensures Percentile(Times(results), 95) == Picked(p[2])
    ensures Percentile(Times(results), 99) == Picked(p[3])
    ensures forall i :: 0 <= i < |p| ==> p[i] in Times(results)
    ensures p[0] <= p[1] <= p[2] <= p[3]
  {
    var times := Times(results);
    var p50, p90 := Percentile(times, 50).value, Percentile(times, 90).value;
    var p95, p99 := Percentile(times, 95).value, Percentile(times, 99).value;
    PercentileMonotone(times, 50, 90);
    PercentileMonotone(times, 90, 95);
    PercentileMonotone(times, 95, 99);
    [p50, p90, p95, p99]
  }

  /** `min(times)`: the smallest element. */
  function Minimum(s: seq<real>): (m: real)
    requires s != []
    ensures m in s && forall x :: x in s ==> m <= x
  {
    if |s| == 1 then s[0]
    else
      var rest := Minimum(s[1..]);
      assert forall x :: x in s ==> x == s[0] || x in s[1..];
      if s[0] <= rest then s[0] else rest
  }

  /** `max(times)`: the largest element. */
  function Maximum(s: seq<real>): (m: real)
    requires s != []
    ensures m in s && forall x :: x in s ==> x <= m
  {
    if |s| == 1 then s[0]
    else
      var rest := Maximum(s[1..]);
      assert forall x :: x in s ==> x == s[0] || x in s[1..];
      if s[0] >= rest then s[0] else rest
  }

  /** The minimum and the maximum depend only on the multiset of elements. */
  lemma ExtremesOrderIndependent(a: seq<real>, b: seq<real>)
    requires a != [] && multiset(a) == multiset(b)
    ensures b != []
    ensures Minimum(a) == Minimum(b) && Maximum(a) == Maximum(b)
  {
    assert |b| == |multiset(b)| == |a|;
    forall x ensures x in a <==> x in b {
      assert x in a <==> x in multiset(a);
      assert x in b <==> x in multiset(b);
    }
  }

  /** The printed minimum and maximum bracket the four percentiles. */
  lemma LatencyBounds(results: seq<Outcome>)
    ensures var p := LatencyPercentiles(results);
      Minimum(Times(results)) <= p[0] && p[3] <= Maximum(Times(results))
  {
  }

  /** For an `execute` whose outcome depends on the job alone, the report does not
      depend on the order of the jobs: the histogram, the durations up to order,
      every percentile, the minimum and the maximum agree for any two orders. */
  lemma ReportOrderIndependent(a: seq<Job>, b: seq<Job>, execute: Job -> Outcome)
    requires multiset(a) == multiset(b)
    ensures Histogram(Dispatch(a, execute)) == Histogram(Dispatch(b, execute))
    ensures multiset(Times(Dispatch(a, execute))) == multiset(Times(Dispatch(b, execute)))
    ensures LatencyPercentiles(Dispatch(a, execute)) == LatencyPercentiles(Dispatch(b, execute))
    ensures Minimum(Times(Dispatch(a, execute))) == Minimum(Times(Dispatch(b, execute)))
    ensures Maximum(Times(Dispatch(a, execute))) == Maximum(Times(Dispatch(b, execute)))
  {
    var ra, rb := Dispatch(a, execute), Dispatch(b, execute);
    MapSeqPermutation(execute, a, b);
    HistogramOrderIndependent(ra, rb);
    DurationsPermutation(ra, rb);
    assert |Durations(ra)| == |multiset(Durations(ra))| == |Durations(rb)|;
    assert multiset(Times(ra)) == multiset(Times(rb));
    PercentileOrderIndependent(Times(ra), Times(rb), 50);
    PercentileOrderIndependent(Times(ra), Times(rb), 90);
    PercentileOrderIndependent(Times(ra), Times(rb), 95);
    PercentileOrderIndependent(Times(ra), Times(rb), 99);
    ExtremesOrderIndependent(Times(ra), Times(rb));
  }

  /** For outcomes that depend on the job alone, the shuffled job list (the default)
      reports the same figures as the list `--no-shuffle` keeps. */
  lemma ShuffleKeepsReport(templates: seq<Template>, settings: Settings, picks: seq<int>,
                           execute: Job -> Outcome)
    requires ValidPicks(picks, |Expansion(templates, settings)|)
    ensures var plain := Expansion(templates, settings);
      var shuffled := Shuffled(plain, picks, |plain|);
      && Histogram(Dispatch(shuffled, execute)) == Histogram(Dispatch(plain, execute))
      && LatencyPercentiles(Dispatch(shuffled, execute)) == LatencyPercentiles(Dispatch(plain, execute))
  {
    var plain := Expansion(templates, settings);
    ShuffledIsPermutation(plain, picks, |plain|);
    ReportOrderIndependent(Shuffled(plain, picks, |plain|), plain, execute);
  }

  /** Every request answered 200 with no delay: the histogram is `{200: n}`, and every
      latency percentile, the minimum and the maximum are 0. */
  lemma AllInstantSuccess(results: seq<Outcome>)
    requires results != []
    requires forall i :: 0 <= i < |results| ==> results[i] == Outcome(Code(200), Some(0.0))
    ensures Histogram(results) == map[Code(200) := |results|]
    ensures LatencyPercentiles(results) == [0.0, 0.0, 0.0, 0.0]
    ensures Minimum(Times(results)) == 0.0 && Maximum(Times(results)) == 0.0
  {
    UniformHistogram(results, Code(200));
    NoDurations(results);
    assert results[0].time != None;
    forall x | x in Durations(results) ensures x == 0.0 {
      DurationsMembers(results, x);
    }
  }

  /** Every request failed to connect with the same error: the histogram has that
      label alone, and the percentiles, the minimum and the maximum all show the
      sentinel `-1.0`. */
  lemma AllConnectionFailures(results: seq<Outcome>, error: string)
    requires results != []
    requires forall i :: 0 <= i < |results| ==> results[i] == Outcome(Label(error), None)
    ensures Histogram(results) == map[Label(error) := |results|]
    ensures Times(results) == [-1.0]
    ensures LatencyPercentiles(results) == [-1.0, -1.0, -1.0, -1.0]
    ensures Minimum(Times(results)) == -1.0 && Maximum(Times(results)) == -1.0
  {
    UniformHistogram(results, Label(error));
    NoDurations(results);
  }
}
