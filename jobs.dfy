/** Expansion of the job file into the list of requests to dispatch, and the
    optional shuffle of that list (the first half of `main` in stress.py). */
module Jobs {
  import opened Wrappers

  /** The parsed command line, shared unchanged by every job as its `settings`. */
  datatype Settings = Settings(
    workers: int,        // -n
    processes: bool,     // -p
    noShuffle: bool,     // --no-shuffle
    head: bool,          // --head
    output: bool,        // --output
    parseJson: bool,     // -j
    timeout: int,        // -t
    configFile: string)  // -f

  /** A request body once resolved: the bytes of a file, or an inline JSON value
      given by its text. */
  datatype Body = Bytes(content: seq<bv8>) | Document(json: string)

  /** One entry of the job file; an absent key is `None`. */
  datatype Template = Template(
    verb: Option<string>,     // "method"
    url: Option<string>,
    headers: Option<map<string, string>>,
    data: Option<Body>,
    count: Option<int>)

  /** One request to perform: the template's own fields plus the shared settings. */
  datatype Job = Job(fields: Template, settings: Settings)

  /** How many jobs `for i in range(count)` makes: `count` defaults to 1, and a count
      of zero or less makes none. */
  function Copies(t: Template): (n: nat)
    ensures t.count == None ==> n == 1
    ensures t.count.Some? ==> n == if t.count.value > 0 then t.count.value else 0
  {
    var count := t.count.GetOr(1);
    if count > 0 then count else 0
  }

  /** The sum of the copies of every template. */
  function TotalCopies(templates: seq<Template>): nat
    decreases |templates|
  {
    if templates == [] then 0
    else
      var n := |templates| - 1;
      TotalCopies(templates[..n]) + Copies(templates[n])
  }

  function Repeat(j: Job, n: nat): (r: seq<Job>)
    ensures |r| == n && forall i :: 0 <= i < n ==> r[i] == j
  {
    seq(n, _ => j)
  }

  /** The jobs before any shuffle: each template's copies, contiguously and in
      template order. */
  function Expansion(templates: seq<Template>, settings: Settings): (jobs: seq<Job>)
    ensures forall i :: 0 <= i < |jobs| ==> jobs[i].settings == settings
    decreases |templates|
  {
    if templates == [] then []
    else
      var n := |templates| - 1;
      Expansion(templates[..n], settings) + Repeat(Job(templates[n], settings), Copies(templates[n]))
  }

  /** The nested loop of stress.py that appends one job per copy of each template. */
  method Expand(templates: seq<Template>, settings: Settings) returns (jobs: seq<Job>)
    ensures jobs == Expansion(templates, settings)
    ensures |jobs| == TotalCopies(templates)
  {
    jobs := [];
    var k := 0;
    while k < |templates|
      invariant 0 <= k <= |templates|
      invariant jobs == Expansion(templates[..k], settings)
    {
      var template := templates[k];
      var count := template.count.GetOr(1);
      var i := 0;
      while i < count
        invariant count > 0 ==> 0 <= i <= count
        invariant count <= 0 ==> i == 0
        invariant jobs == Expansion(templates[..k], settings) + Repeat(Job(template, settings), i)
      {
        jobs := jobs + [Job(template, settings)];
        i := i + 1;
      }
      assert templates[..k + 1][..k] == templates[..k];
      k := k + 1;
    }
    assert templates[..k] == templates;
    ExpansionLength(templates, settings);
  }

  /** The number of jobs is the sum of the templates' counts. */
  lemma {:induction false} ExpansionLength(templates: seq<Template>, settings: Settings)
    ensures |Expansion(templates, settings)| == TotalCopies(templates)
    decreases |templates|
  {
    if templates != [] {
      ExpansionLength(templates[..|templates| - 1], settings);
    }
  }

  /** Copy `i` of template `k` sits at index `TotalCopies(templates[..k]) + i`: the
      copies of one template are contiguous and templates keep their order. */
  lemma {:induction false} ExpansionLayout(templates: seq<Template>, settings: Settings, k: nat, i: nat)
    requires k < |templates| && i < Copies(templates[k])
    ensures TotalCopies(templates[..k]) + i < |Expansion(templates, settings)|
    ensures Expansion(templates, settings)[TotalCopies(templates[..k]) + i] == Job(templates[k], settings)
    decreases |templates|
  {
    var n := |templates| - 1;
    var front := templates[..n];
    ExpansionLength(templates, settings);
    ExpansionLength(front, settings);
    if k == n {
      assert templates[..k] == front;
    } else {
      assert front[..k] == templates[..k];
      ExpansionLayout(front, settings, k, i);
    }
  }

  /** Every job carries the shared settings and the fields of one of the templates. */
  lemma {:induction false} ExpansionShared(templates: seq<Template>, settings: Settings)
    ensures forall j :: j in Expansion(templates, settings) ==>
              j.settings == settings && j.fields in templates
    decreases |templates|
  {
    if templates != [] {
      var n := |templates| - 1;
      ExpansionShared(templates[..n], settings);
      assert forall t :: t in templates[..n] ==> t in templates;
    }
  }

  /** `random.shuffle` draws `j = randbelow(i + 1)` for each `i`; `picks[i]` is that
      draw, so it lies in `[0, i]`. */
  predicate ValidPicks(picks: seq<int>, n: nat) {
    |picks| == n && forall i :: 0 <= i < n ==> 0 <= picks[i] <= i
  }

  /** The list after the swaps at indices `i - 1` down to 1 of the Fisher-Yates loop
      of `random.shuffle`. */
  function Shuffled<T>(s: seq<T>, picks: seq<int>, i: nat): (r: seq<T>)
    requires ValidPicks(picks, |s|) && i <= |s|
    ensures |r| == |s|
    decreases i
  {
    if i <= 1 then s
    else
      var j := picks[i - 1];
      Shuffled(s[i - 1 := s[j]][j := s[i - 1]], picks, i - 1)
  }

  /** Shuffling only reorders: the multiset of elements is unchanged. */
  lemma {:induction false} ShuffledIsPermutation<T>(s: seq<T>, picks: seq<int>, i: nat)
    requires ValidPicks(picks, |s|) && i <= |s|
    ensures multiset(Shuffled(s, picks, i)) == multiset(s)
    decreases i
  {
    if i > 1 {
      var j := picks[i - 1];
      var t := s[i - 1 := s[j]][j := s[i - 1]];
      SwapIsPermutation(s, i - 1, j);
      ShuffledIsPermutation(t, picks, i - 1);
    }
  }

  lemma SwapIsPermutation<T>(s: seq<T>, i: nat, j: nat)
    requires i < |s| && j < |s|
    ensures multiset(s[i := s[j]][j := s[i]]) == multiset(s)
  {
  }

  /** `random.shuffle(jobs)` with its random draws supplied as `picks`. */
  method Shuffle<T>(s: seq<T>, picks: seq<int>) returns (r: seq<T>)
    requires ValidPicks(picks, |s|)
    ensures r == Shuffled(s, picks, |s|)
    ensures multiset(r) == multiset(s)
  {
    r := s;
    var i := |s|;
    while i > 1
      invariant 0 <= i <= |s| && |r| == |s|
      invariant Shuffled(r, picks, i) == Shuffled(s, picks, |s|)
    {
      var j := picks[i - 1];
      r := r[i - 1 := r[j]][j := r[i - 1]];
      i := i - 1;
    }
    ShuffledIsPermutation(s, picks, |s|);
  }

  /** Lines 118-135 of `main`: expand the templates, then shuffle unless
      `--no-shuffle` was given. `picks` only matters when shuffling. */
  method PrepareJobs(templates: seq<Template>, settings: Settings, picks: seq<int>)
    returns (jobs: seq<Job>)
    requires !settings.noShuffle ==> ValidPicks(picks, TotalCopies(templates))
    ensures |jobs| == TotalCopies(templates)
    ensures multiset(jobs) == multiset(Expansion(templates, settings))
    ensures settings.noShuffle ==> jobs == Expansion(templates, settings)
    ensures !settings.noShuffle ==>
              && |Expansion(templates, settings)| == TotalCopies(templates)
              && jobs == Shuffled(Expansion(templates, settings), picks, TotalCopies(templates))
    ensures forall j :: j in jobs ==> j.settings == settings && j.fields in templates
  {
    jobs := Expand(templates, settings);
    ExpansionLength(templates, settings);
    if !settings.noShuffle {
      jobs := Shuffle(jobs, picks);
      assert |jobs| == |multiset(jobs)| == TotalCopies(templates);
    }
    ExpansionShared(templates, settings);
    forall j | j in jobs ensures j.settings == settings && j.fields in templates {
      assert j in multiset(jobs);
      assert j in Expansion(templates, settings);
    }
  }
}
