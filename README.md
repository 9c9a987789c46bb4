# pystress: a verified model of its deterministic core

pystress (`stress.py`) is a load-test harness. It reads a list of HTTP request
templates and expands them into a flat job list, where each template is repeated
`count` times and every job carries the shared command-line settings. It shuffles
that list unless `--no-shuffle` is given. A thread or process pool then runs one
request per job. At the end it prints a histogram of the statuses and latency
figures: min, max, average and the P50, P90, P95 and P99 percentiles.

This project models the deterministic logic in that pipeline and proves its
properties:

- `wrappers.dfy`, module `Wrappers`: `Option`, which stands for a missing dictionary key or a `None` duration.
- `text.dfy`, module `Text`: `shorter`, which truncates error labels and log lines.
- `sorting.dfy`, module `Sorting`: Python's `sorted` on durations, written as insertion sort. It is proved to be the unique ascending permutation of its input.
- `percentile.dfy`, module `Percentiles`: `percentile`. It uses Python's ceiling, Python's list indexing (negative indices included), the `IndexError` and the `-1.0` fallback branch exactly as written.
- `jobs.dfy`, module `Jobs`: the expansion loop and `random.shuffle` from `main`, pulled out as the methods `Expand`, `Shuffle` and `PrepareJobs`. Each is proved against a specification function: `Expansion` for the expansion and `Shuffled` for the Fisher-Yates swaps.
- `results.dfy`, module `Results`: the `Counter` of statuses and the filtered list of durations with its `[-1.0]` fallback. These are specification functions, plus the one-pass method `Aggregate`.
- `sequences.dfy`, module `Sequences`: a sequence map and permutation facts that the aggregation proofs use.
- `pipeline.dfy`, module `Pipeline`: `pool.map` as a sequential map, the four printed percentiles, and end-to-end facts. The main one is that the histogram and percentiles depend only on the multiset (the unordered collection) of results. So when each job's outcome does not depend on when it is sent, shuffling does not change the report. In a real run the requests go out at different times and their latencies and statuses may differ; the model does not speak about that.

Durations are modelled as exact `real` numbers. The model only compares them, and
comparing is exact on floats too (NaN never occurs as a duration).

### Edge behaviour of the code

- `percentile` does no clamping of its index (stress.py:42-43). Percent 0 gives
  index -1, which Python reads as the last element, so the result is the maximum
  (`PercentZeroIsMaximum`). Above 100 percent no element is ever picked: the lookup
  raises `IndexError` while the guard holds, and the function returns `-1.0` once
  it fails (`PercentAboveHundred`); the model tells that `-1.0`
  (`Fallback`) apart from a value looked up in the list (`Picked`). For every
  percent up to 100 the guard `len(values) >= position` holds, so the `-1.0`
  branch is dead code for every call in the program (`GuardAlwaysHolds`).
- The expansion runs `range(count)` (stress.py:128), so a count of zero or less
  gives no jobs (`Jobs.Copies`).
- With no measured durations, `times` is `[-1.0]` (stress.py:147), so every
  percentile, the minimum and the maximum print as -1.0 (`AllConnectionFailures`).

## Model

| member | source | states |
|---|---|---|
| `Text.PrefixBefore` | stress.py:35 | The result is the longest prefix of the line without `(`. It is followed by `(`, or it is the whole line when there is none. This is `split('(', 1)[0]`. |
| `Text.Shorter` | stress.py:32-37 | The result is never longer than 80 characters, and a line of at most 80 is returned unchanged. A longer line with `(` among its first 60 characters gives the text before its first `(`: a prefix of fewer than 60 characters with no `(`. Any other longer line gives 73 characters: its first 35, then `...`, then its last 35. |
| `Text.ShorterIdempotent` | stress.py:32-37 | Shortening an already shortened line changes nothing. |
| `Sorting.Sort` | stress.py:43 | `sorted(values)` is ascending and a permutation of `values`. |
| `Sorting.SortedUnique` | stress.py:43 | Two ascending sequences with the same multiset of elements are equal, so the sorted list is determined by the multiset. |
| `Sorting.SortPermutation` | stress.py:43 | Sorting two permutations of each other gives the same list. |
| `Sorting.SortOfSorted` | stress.py:43 | An ascending list sorts to itself. |
| `Percentiles.CeilDiv100` | stress.py:42 | The result is the ceiling of `a / 100` for every integer `a`: `100 * (q - 1) < a <= 100 * q`. |
| `Percentiles.Position` | stress.py:42 | `int(math.ceil((size * percent) / 100)) - 1`: the zero-based rank, the largest `position` with `100 * position < size * percent`. |
| `Percentiles.GuardHolds` | stress.py:43 | The guard `len(values) >= position`; it holds exactly when `size * percent <= 100 * (size + 1)`. |
| `Percentiles.PyIndex` | stress.py:43 | Python list indexing: an index in `[-len, len)` gives an element (a negative one counts from the end), and any other index raises `IndexError`. |
| `Percentiles.Percentile` | stress.py:40-43 | An empty list raises `IndexError`. For a non-empty list and a percent in (0, 100], the result is an element of the list. |
| `Percentiles.SortedElement` | stress.py:43 | Every valid index of the sorted list holds an element of the input. |
| `Percentiles.PositionInRange` | stress.py:42 | For size > 0 and 0 < percent <= 100, `ceil(size * percent / 100) - 1` lies in `[0, size - 1]`. |
| `Percentiles.PositionMonotone` | stress.py:42 | A larger percent never gives a smaller index. |
| `Percentiles.GuardAlwaysHolds` | stress.py:43 | For every percent of at most 100, `len(values) >= position` holds, so the `-1.0` branch is never taken. |
| `Percentiles.PositionPastEnd` | stress.py:42 | For a non-empty list and a percent above 100, the rank is at least the list's length. |
| `Percentiles.PercentAboveHundred` | stress.py:42-43 | For every list and every percent above 100, the result is `IndexError` or the `-1.0` fallback, and it is `IndexError` exactly when the guard `len(values) >= position` holds. |
| `Percentiles.PercentAboveHundredExamples` | stress.py:42-43 | Both outcomes occur: 200 percent of one value raises `IndexError`, 300 percent returns `-1.0`. |
| `Percentiles.PercentZeroIsMaximum` | stress.py:42-43 | Percent 0 returns the largest value, through Python's index -1. |
| `Percentiles.PercentileOrderIndependent` | stress.py:43 | Reordering the values never changes the percentile. |
| `Percentiles.PercentileMonotone` | stress.py:42-43 | For 0 < p <= q <= 100, percentile p is at most percentile q, so P50 <= P90 <= P95 <= P99. |
| `Percentiles.CountAtMostPermutation` | stress.py:43 | How many values are at most `v` depends only on the multiset of values. |
| `Percentiles.RankLowerBound` | stress.py:43 | In an ascending list, at least `k + 1` elements are at most the element at index `k`. |
| `Percentiles.RankUpperBound` | stress.py:43 | In an ascending list, at most `k` elements are at most any value below the element at index `k`. |
| `Percentiles.PercentileIsNearestRank` | stress.py:40-43 | The result is the nearest-rank percentile. It is an element such that at least `percent`% of the values are at most it, and no smaller element has that property. |
| `Percentiles.WorkedExample` | stress.py:40-43 | Over 1..10, P50 is 5 and P90 is 9. |
| `Jobs.Copies` | stress.py:121-128 | The number of iterations of `range(count)` with `count = job_json.get('count', 1)`: 1 for a missing count, the count itself when it is positive, otherwise 0. |
| `Jobs.Expansion` | stress.py:118-132 | The job list before the shuffle: for each template in order, `Copies` jobs made of the template's fields and the shared settings; every job carries those settings. |
| `Jobs.Expand` | stress.py:118-132 | The nested loop builds exactly `Expansion(templates, settings)`, and the number of jobs is the sum of the templates' copies. |
| `Jobs.ExpansionLength` | stress.py:120-132 | The number of jobs is the sum of the counts, where a missing count counts as 1 and a count of zero or less counts as 0. |
| `Jobs.ExpansionLayout` | stress.py:120-132 | Copy `i` of template `k` is at index `TotalCopies(templates[..k]) + i`. So each template's copies are contiguous, in template order, and each one is the template with the shared settings. |
| `Jobs.ExpansionShared` | stress.py:129-132 | Every job carries the same `settings` and the fields of one of the templates. |
| `Jobs.SwapIsPermutation` | stress.py:135 | Swapping two entries keeps the multiset of the list. |
| `Jobs.Shuffled` | stress.py:135 | `random.shuffle`'s swap loop: for `i` from `len - 1` down to 1, swap entries `i` and `picks[i]`; the length is unchanged. |
| `Jobs.ShuffledIsPermutation` | stress.py:134-135 | The Fisher-Yates swaps of `random.shuffle` keep the multiset of jobs. |
| `Jobs.Shuffle` | stress.py:135 | The swap loop produces `Shuffled(jobs, picks, len)`, which is a permutation of its input. |
| `Jobs.PrepareJobs` | stress.py:118-135 | The job count is the sum of the counts, and the jobs are a permutation of the expansion. With `--no-shuffle` they are the expansion itself, in order; otherwise they are exactly the expansion after the Fisher-Yates swaps that the given draws dictate. Every job carries the shared settings and the fields of a template. |
| `Results.Histogram` | stress.py:146 | `Counter([r['status'] for r in results])`, built by counting each result's status in turn. |
| `Results.Durations` | stress.py:147 | `[r['time'] for r in results if r['time'] is not None]`, in result order; never longer than the results. |
| `Results.Times` | stress.py:147 | `times` is never empty: `[-1.0]` replaces an empty list. |
| `Results.Tally` | stress.py:146 | Counting one more status raises that status's count by one and leaves the others alone. |
| `Results.SumCountsRemove` | stress.py:146 | The sum of a histogram's counts can take any key out first. |
| `Results.SumCountsTally` | stress.py:146 | Counting one more status raises the total of the counts by one. |
| `Results.HistogramTotal` | stress.py:146 | The histogram's counts add up to `len(results)`. |
| `Results.HistogramCounts` | stress.py:146 | The histogram's keys are exactly the statuses that occur, and each key maps to its number of occurrences. |
| `Results.HistogramOrderIndependent` | stress.py:146 | Any reordering of the results gives the same histogram. |
| `Results.UniformHistogram` | stress.py:146 | When every result has the same status, the histogram is `{status: len(results)}`. |
| `Results.DurationsAppend` | stress.py:147 | The duration filter keeps order across concatenation: the durations of `a + b` are those of `a` followed by those of `b`. |
| `Results.DurationsMembers` | stress.py:147 | A value is among the durations exactly when some result has that measured time. |
| `Results.NoDurations` | stress.py:147 | The durations are empty exactly when no result has a time, and then `times` is `[-1.0]`. Otherwise `times` is the durations. |
| `Results.DurationsPermutation` | stress.py:147 | Reordering the results only reorders the durations. |
| `Results.Aggregate` | stress.py:146-147 | One pass over the results builds exactly the `Counter` of statuses and the `times` list, and the counts add up to `len(results)`. |
| `Pipeline.Dispatch` | stress.py:141 | `pool.map` gives one result per job, in job order. |
| `Pipeline.LatencyPercentiles` | stress.py:155-158 | P50, P90, P95 and P99 over `times` never raise an error. Each is one of the durations (or the sentinel), and they are in ascending order. |
| `Pipeline.Minimum` | stress.py:152 | `min(times)` is an element of `times` and at most every element. |
| `Pipeline.Maximum` | stress.py:153 | `max(times)` is an element of `times` and at least every element. |
| `Pipeline.LatencyBounds` | stress.py:152-158 | The printed minimum is at most P50 and P99 is at most the printed maximum. |
| `Pipeline.ExtremesOrderIndependent` | stress.py:152-153 | The minimum and the maximum depend only on the multiset of durations. |
| `Pipeline.ReportOrderIndependent` | stress.py:141-158 | For an `execute` whose outcome depends on the job alone, two orders of the same jobs give the same histogram, the same durations up to order, the same percentiles and the same minimum and maximum, because these depend only on the multiset of results. |
| `Pipeline.ShuffleKeepsReport` | stress.py:134-158 | For an `execute` whose outcome depends on the job alone, the shuffled job list gives the same histogram and percentiles as the unshuffled one. |
| `Pipeline.AllInstantSuccess` | stress.py:146-158 | If every request returns 200 in zero time, the histogram is `{200: n}`, and every percentile, the minimum and the maximum are 0. |
| `Pipeline.AllConnectionFailures` | stress.py:96-97 | If every request fails to connect with the same error, the histogram holds only that label, `times` is `[-1.0]`, and every percentile, the minimum and the maximum are -1.0. |

## Left out

- Argument parsing (`parse_arguments`) and the logging setup (stress.py:11-29): configuration and I/O. The parsed arguments appear only as the `Jobs.Settings` record.
- Reading the job file and the body files (stress.py:115-116, 123-126): file I/O. A template's `data` is the already resolved body. Because the templates are values, every copy of a template shares the same body.
- `make_request` (stress.py:46-102): the HTTP call, wall-clock timing, exception handling and log formatting. In `Pipeline` it is a function parameter `execute`, taken as deterministic. `Results.Outcome` covers each shape of result it can return: a code with a time, a label without a time, and a label with a time (an exception raised after the response arrived).
- The thread or process pool (stress.py:106-109, 137, 141): concurrency. `Pipeline.Dispatch` is a sequential map with one result per job.
- The run's wall time, and the float arithmetic for the average and the percentages (stress.py:139-144, 154, 164): floating-point numerics. The minimum and maximum, which only compare, are modelled (`Pipeline.Minimum`, `Pipeline.Maximum`).
- Report printing (stress.py:149-165): presentation.
- Jobs.Shuffle: the random draws are the caller-supplied `picks`, each in `[0, i]`. The model states the exact swaps and that the result is a permutation. It does not state that the draws make every order equally likely.
- Percentiles.CeilDiv100: does not model float rounding in `(size * percent) / 100`, which is exact only for products below 2^53.
- Jobs.Copies: takes a present count to be an integer. A JSON `"count": null` makes `.get('count', 1)` return `None` and `range(None)` raise `TypeError`, and so does a non-integer count (stress.py:121,128); `Option<int>` cannot express either, so the model does not capture that abort.
- Jobs.Template: is a typed record. Two things about a JSON object in the job file are therefore not modelled. A key that is not listed is not copied into the job. An entry with its own `settings` key, which makes `dict(**job_json, settings=...)` raise, cannot be represented.
