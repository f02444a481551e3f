/**
 The statistics of the load tester, over exact reals: recorded latencies, counters, and a summary
 with nearest-rank percentiles.
 */
module LoadTest {

  // ---------------------------------------------------------------------------------------
  // Sorting a copy
  // ---------------------------------------------------------------------------------------

  predicate Sorted(s: seq<real>) {
    forall i, j :: 0 <= i <= j < |s| ==> s[i] <= s[j]
  }

  function Insert(x: real, s: seq<real>): seq<real> {
    if s == [] || x <= s[0] then [x] + s else [s[0]] + Insert(x, s[1..])
  }

  lemma PrependKeepsSorted(x: real, s: seq<real>)
    requires Sorted(s) && forall y :: y in s ==> x <= y
    ensures Sorted([x] + s)
  {
    assert forall k :: 0 <= k < |s| ==> s[k] in s;
  }

  lemma TailOfSorted(s: seq<real>)
    requires Sorted(s) && s != []
    ensures s == [s[0]] + s[1..] && multiset(s) == multiset{s[0]} + multiset(s[1..])
    ensures Sorted(s[1..]) && forall y :: y in s[1..] ==> s[0] <= y
  {
    assert s == [s[0]] + s[1..];
  }

  lemma {:induction false} InsertKeepsValues(x: real, s: seq<real>)
    ensures multiset(Insert(x, s)) == multiset(s) + multiset{x}
  {
    if s != [] && x > s[0] {
      InsertKeepsValues(x, s[1..]);
      assert s == [s[0]] + s[1..];
    }
  }

  lemma {:induction false} InsertSorts(x: real, s: seq<real>)
    requires Sorted(s)
    ensures Sorted(Insert(x, s))
  {
    if s != [] {
      TailOfSorted(s);
      if x <= s[0] {
        PrependKeepsSorted(x, s);
      } else {
        var r := Insert(x, s[1..]);
        InsertSorts(x, s[1..]);
        InsertKeepsValues(x, s[1..]);
        forall y | y in r
          ensures s[0] <= y
        {
          assert y in multiset(r);
        }
        PrependKeepsSorted(s[0], r);
      }
    }
  }

  /** sort.Float64s: the values in ascending order. */
  function SortedCopy(s: seq<real>): (r: seq<real>)
    ensures Sorted(r) && multiset(r) == multiset(s) && |r| == |s|
  {
    if s == [] then []
    else
      assert s == [s[0]] + s[1..];
      var rest := SortedCopy(s[1..]);
      InsertSorts(s[0], rest);
      InsertKeepsValues(s[0], rest);
      var r := Insert(s[0], rest);
      assert |multiset(r)| == |multiset(s)|;
      r
  }

  // ---------------------------------------------------------------------------------------
  // Percentile
  // ---------------------------------------------------------------------------------------

  function Ceil(x: real): int {
    -(-x).Floor
  }

  /** p percent of n samples. */
  function Rank(p: real, n: nat): real {
    p / 100.0 * n as real
  }

  function Percentile(sorted: seq<real>, p: real): real {
    if sorted == [] then 0.0
    else
      var idx := Ceil(Rank(p, |sorted|)) - 1;
      if idx < 0 then sorted[0] else if idx >= |sorted| then sorted[|sorted| - 1] else sorted[idx]
  }

  /** How many samples satisfy the bound. */
  function AtMost(s: seq<real>, x: real): nat {
    if s == [] then 0 else AtMost(s[..|s| - 1], x) + if s[|s| - 1] <= x then 1 else 0
  }

  function Below(s: seq<real>, x: real): nat {
    if s == [] then 0 else Below(s[..|s| - 1], x) + if s[|s| - 1] < x then 1 else 0
  }

  lemma {:induction false} CountsInSorted(s: seq<real>, k: nat)
    requires Sorted(s) && k < |s|
    ensures AtMost(s, s[k]) >= k + 1
    ensures Below(s, s[k]) <= k
  {
    var n := |s| - 1;
    if k < n {
      CountsInSorted(s[..n], k);
    } else {
      AllAtMost(s, s[k]);
      BelowLast(s);
    }
  }

  lemma {:induction false} AllAtMost(s: seq<real>, x: real)
    requires forall i :: 0 <= i < |s| ==> s[i] <= x
    ensures AtMost(s, x) == |s|
  {
    if s != [] {
      AllAtMost(s[..|s| - 1], x);
    }
  }

  lemma {:induction false} BelowAtMostLength(s: seq<real>, x: real)
    ensures Below(s, x) <= |s|
  {
    if s != [] {
      BelowAtMostLength(s[..|s| - 1], x);
    }
  }

  lemma BelowLast(s: seq<real>)
    requires s != []
    ensures Below(s, s[|s| - 1]) <= |s| - 1
  {
    BelowAtMostLength(s[..|s| - 1], s[|s| - 1]);
  }

  /** Taking the same value out of two rearrangements leaves rearrangements. */
  lemma RemoveFromBoth(s: seq<real>, t: seq<real>) returns (i: nat)
    requires s != [] && multiset(s) == multiset(t)
    ensures i < |t| && t[i] == s[|s| - 1]
    ensures multiset(s[..|s| - 1]) == multiset(t[..i] + t[i + 1..])
  {
    var n := |s| - 1;
    assert s == s[..n] + [s[n]];
    assert s[n] in multiset(t);
    i :| 0 <= i < |t| && t[i] == s[n];
    assert t == t[..i] + ([t[i]] + t[i + 1..]);
    var a, b := multiset(s[..n]), multiset(t[..i] + t[i + 1..]);
    assert a + multiset{s[n]} == b + multiset{s[n]};
    assert a == (a + multiset{s[n]}) - multiset{s[n]};
    assert b == (b + multiset{s[n]}) - multiset{s[n]};
  }

  lemma {:induction false} CountsAreOrderFree(s: seq<real>, t: seq<real>, x: real)
    requires multiset(s) == multiset(t)
    ensures AtMost(s, x) == AtMost(t, x) && Below(s, x) == Below(t, x)
  {
    if s == [] {
      assert |multiset(t)| == 0;
    } else {
      var i := RemoveFromBoth(s, t);
      RemoveCounts(t, i, x);
      CountsAreOrderFree(s[..|s| - 1], t[..i] + t[i + 1..], x);
    }
  }

  lemma {:induction false} RemoveCounts(t: seq<real>, i: nat, x: real)
    requires i < |t|
    ensures AtMost(t, x) == AtMost(t[..i] + t[i + 1..], x) + if t[i] <= x then 1 else 0
    ensures Below(t, x) == Below(t[..i] + t[i + 1..], x) + if t[i] < x then 1 else 0
  {
    var n := |t| - 1;
    if i == n {
      assert t[..i] + t[i + 1..] == t[..n];
    } else {
      RemoveCounts(t[..n], i, x);
      assert (t[..i] + t[i + 1..])[..n - 1] == t[..n][..i] + t[..n][i + 1..];
    }
  }

  lemma NearestRankInSorted(sorted: seq<real>, p: real)
    requires Sorted(sorted) && sorted != [] && 0.0 < p <= 100.0
    ensures Percentile(sorted, p) in sorted
    ensures (Below(sorted, Percentile(sorted, p)) as real) < Rank(p, |sorted|)
            <= AtMost(sorted, Percentile(sorted, p)) as real
  {
    var rank := Rank(p, |sorted|);
    RankInRange(|sorted|, p);
    CeilBounds(rank);
    var k := Ceil(rank) - 1;
    assert Percentile(sorted, p) == sorted[k];
    CountsInSorted(sorted, k);
  }

  lemma CountsOfCopy(samples: seq<real>, x: real)
    ensures AtMost(SortedCopy(samples), x) == AtMost(samples, x) && Below(SortedCopy(samples), x) == Below(samples, x)
    ensures x in SortedCopy(samples) ==> x in samples
  {
    var sorted := SortedCopy(samples);
    CountsAreOrderFree(sorted, samples, x);
    assert x in sorted ==> x in multiset(sorted);
  }

  /** Nearest rank: at least p percent of the recorded samples are at most the result, and fewer
      than p percent lie strictly below it. */
  lemma PercentileIsNearestRank(samples: seq<real>, p: real)
    requires samples != [] && 0.0 < p <= 100.0
    ensures Percentile(SortedCopy(samples), p) in samples
    ensures AtMost(samples, Percentile(SortedCopy(samples), p)) as real >= Rank(p, |samples|)
    ensures (Below(samples, Percentile(SortedCopy(samples), p)) as real) < Rank(p, |samples|)
  {
    NearestRankInSorted(SortedCopy(samples), p);
    CountsOfCopy(samples, Percentile(SortedCopy(samples), p));
  }

  lemma CeilBounds(x: real)
    ensures (Ceil(x) - 1) as real < x <= Ceil(x) as real
  {
  }

  lemma RankInRange(n: nat, p: real)
    requires 0 < n && 0.0 < p <= 100.0
    ensures 0.0 < Rank(p, n) <= n as real
    ensures 1 <= Ceil(Rank(p, n)) <= n
  {
  }

  lemma PercentileMonotone(sorted: seq<real>, p: real, q: real)
    requires Sorted(sorted) && sorted != [] && 0.0 < p <= q <= 100.0
    ensures sorted[0] <= Percentile(sorted, p) <= Percentile(sorted, q) <= sorted[|sorted| - 1]
  {
    RankInRange(|sorted|, p);
    RankInRange(|sorted|, q);
    assert Rank(p, |sorted|) <= Rank(q, |sorted|);
  }

  // ---------------------------------------------------------------------------------------
  // Average
  // ---------------------------------------------------------------------------------------

  function Sum(s: seq<real>): real {
    if s == [] then 0.0 else Sum(s[..|s| - 1]) + s[|s| - 1]
  }

  method Avg(vals: seq<real>) returns (avg: real)
    ensures avg == if vals == [] then 0.0 else Sum(vals) / |vals| as real
  {
    if |vals| == 0 {
      return 0.0;
    }
    var sum := 0.0;
    for i := 0 to |vals|
      invariant sum == Sum(vals[..i])
    {
      assert vals[..i + 1][..i] == vals[..i];
      sum := sum + vals[i];
    }
    assert vals[..|vals|] == vals;
    return sum / |vals| as real;
  }

  lemma {:induction false} SumBetween(s: seq<real>, lo: real, hi: real, count: real)
    requires count == |s| as real && forall i :: 0 <= i < |s| ==> lo <= s[i] <= hi
    ensures lo * count <= Sum(s) <= hi * count
  {
    if s != [] {
      SumBetween(s[..|s| - 1], lo, hi, count - 1.0);
      assert lo * (count - 1.0) + lo == lo * count;
      assert hi * (count - 1.0) + hi == hi * count;
    }
  }

  // ---------------------------------------------------------------------------------------
  // Metrics
  // ---------------------------------------------------------------------------------------

  datatype Summary = Summary(
    total: int, success: int, failed: int,
    p50: real, p90: real, p99: real, p999: real, min: real, max: real, avg: real,
    statusCount: map<int, int>)

  const NO_SUMMARY := Summary(0, 0, 0, 0.0, 0.0, 0.0, 0.0, 0.0, 0.0, 0.0, map[])

  datatype Sample = Sample(micros: int, status: int)

  predicate Succeeds(status: int) {
    200 <= status < 500
  }

  function Successes(samples: seq<Sample>): nat {
    if samples == [] then 0
    else var n := |samples| - 1; Successes(samples[..n]) + if Succeeds(samples[n].status) then 1 else 0
  }

  function WithStatus(samples: seq<Sample>, status: int): nat {
    if samples == [] then 0
    else var n := |samples| - 1; WithStatus(samples[..n], status) + if samples[n].status == status then 1 else 0
  }

  function Latencies(samples: seq<Sample>): seq<real> {
    seq(|samples|, i requires 0 <= i < |samples| => samples[i].micros as real / 1000.0)
  }

  class Metrics {
    var latencies: seq<real>
    var total: int
    var success: int
    var failed: int
    var statusCount: map<int, int>
    ghost var samples: seq<Sample>  // everything recorded

    ghost predicate Valid()
      reads this
    {
      && latencies == Latencies(samples)
      && total == |samples| && success == Successes(samples) && failed == total - success
      && (forall status :: status in statusCount <==> WithStatus(samples, status) > 0)
      && (forall status :: status in statusCount ==> statusCount[status] == WithStatus(samples, status))
    }

    constructor ()
      ensures Valid() && samples == []
    {
      latencies, total, success, failed, statusCount, samples := [], 0, 0, 0, map[], [];
    }

    method Record(micros: int, status: int)
      requires Valid()
      modifies this
      ensures Valid() && samples == old(samples) + [Sample(micros, status)]
    {
      samples := samples + [Sample(micros, status)];
      assert samples[..|samples| - 1] == old(samples);
      latencies := latencies + [micros as real / 1000.0];
      total := total + 1;
      if 200 <= status && status < 500 {
        success := success + 1;
      } else {
        failed := failed + 1;
      }
      statusCount := statusCount[status := (if status in statusCount then statusCount[status] else 0) + 1];
    }

    method Snapshot() returns (s: Summary)
      requires Valid()
      ensures samples == [] ==> s == NO_SUMMARY
      ensures samples != []
              ==> && Counts(s, samples) && Ranks(s, Latencies(samples))
                  && Averages(s, Latencies(samples), |samples| as real)
    {
      if |latencies| == 0 {
        return NO_SUMMARY;
      }
      var sorted := SortedCopy(latencies);
      var avg := Avg(sorted);
      var n := |sorted|;
      s := Summary(total, success, failed,
                   Percentile(sorted, 50.0), Percentile(sorted, 90.0),
                   Percentile(sorted, 99.0), Percentile(sorted, 99.9),
                   sorted[0], sorted[n - 1], avg, statusCount);
      RanksOfCopy(s, latencies);
      SumOfCopy(latencies);
      AverageOfSorted(s, sorted, Sum(sorted), n as real);
    }
  }

  /** The counters of a summary, in terms of the recorded samples only. */
  ghost predicate Counts(s: Summary, samples: seq<Sample>) {
    && s.total == |samples| && s.success == Successes(samples) && s.failed == |samples| - Successes(samples)
    && (forall status :: WithStatus(samples, status) == if status in s.statusCount then s.statusCount[status] else 0)
  }

  /** The percentiles and extremes of a summary, in terms of the recorded latencies only. */
  predicate Ranks(s: Summary, latencies: seq<real>) {
    && s.p50 == Percentile(SortedCopy(latencies), 50.0) && s.p90 == Percentile(SortedCopy(latencies), 90.0)
    && s.p99 == Percentile(SortedCopy(latencies), 99.0) && s.p999 == Percentile(SortedCopy(latencies), 99.9)
    && s.min <= s.p50 <= s.p90 <= s.p99 <= s.p999 <= s.max
    && s.min in latencies && s.max in latencies && (forall x :: x in latencies ==> s.min <= x <= s.max)
  }

  predicate Averages(s: Summary, latencies: seq<real>, count: real) {
    s.min <= s.avg <= s.max && s.avg * count == Sum(latencies)
  }

  lemma {:induction false} SumIsOrderFree(s: seq<real>, t: seq<real>)
    requires multiset(s) == multiset(t)
    ensures Sum(s) == Sum(t)
  {
    if s == [] {
      assert |multiset(t)| == 0;
    } else {
      var i := RemoveFromBoth(s, t);
      RemoveFromSum(t, i);
      SumIsOrderFree(s[..|s| - 1], t[..i] + t[i + 1..]);
    }
  }

  lemma {:induction false} RemoveFromSum(t: seq<real>, i: nat)
    requires i < |t|
    ensures Sum(t) == Sum(t[..i] + t[i + 1..]) + t[i]
  {
    var n := |t| - 1;
    if i == n {
      assert t[..i] + t[i + 1..] == t[..n];
    } else {
      RemoveFromSum(t[..n], i);
      assert (t[..i] + t[i + 1..])[..n - 1] == t[..n][..i] + t[..n][i + 1..];
    }
  }

  lemma PercentilesOrdered(sorted: seq<real>)
    requires Sorted(sorted) && sorted != []
    ensures sorted[0] <= Percentile(sorted, 50.0) <= Percentile(sorted, 90.0) <= Percentile(sorted, 99.0)
    ensures Percentile(sorted, 99.0) <= Percentile(sorted, 99.9) <= sorted[|sorted| - 1]
  {
  }

  lemma EndsAreExtremes(values: seq<real>, sorted: seq<real>)
    requires values != [] && Sorted(sorted) && multiset(sorted) == multiset(values) && |sorted| == |values|
    ensures sorted[0] in values && sorted[|sorted| - 1] in values
    ensures forall x :: x in values ==> sorted[0] <= x <= sorted[|sorted| - 1]
  {
    assert sorted[0] in multiset(sorted) && sorted[|sorted| - 1] in multiset(sorted);
    forall x | x in values
      ensures sorted[0] <= x <= sorted[|sorted| - 1]
    {
      assert x in multiset(sorted);
    }
  }

  lemma AverageFigures(sum: real, d: real, lo: real, hi: real, avg: real)
    requires 0.0 < d && lo * d <= sum <= hi * d && avg == sum / d
    ensures avg * d == sum && lo <= avg <= hi
  {
  }

  lemma SumOfCopy(values: seq<real>)
    ensures Sum(SortedCopy(values)) == Sum(values)
  {
    SumIsOrderFree(SortedCopy(values), values);
  }

  lemma AverageOfSorted(s: Summary, sorted: seq<real>, sum: real, count: real)
    requires Sorted(sorted) && sorted != [] && count == |sorted| as real && sum == Sum(sorted)
    requires s.min == sorted[0] && s.max == sorted[|sorted| - 1] && s.avg == sum / count
    ensures Averages(s, sorted, count)
  {
    var lo, hi := s.min, s.max;
    SumBetween(sorted, lo, hi, count);
    AverageFigures(sum, count, lo, hi, s.avg);
  }

  lemma RanksOfCopy(s: Summary, latencies: seq<real>)
    requires latencies != []
    requires var sorted := SortedCopy(latencies);
             && s.p50 == Percentile(sorted, 50.0) && s.p90 == Percentile(sorted, 90.0)
             && s.p99 == Percentile(sorted, 99.0) && s.p999 == Percentile(sorted, 99.9)
             && s.min == sorted[0] && s.max == sorted[|sorted| - 1]
    ensures Ranks(s, latencies)
  {
    var sorted := SortedCopy(latencies);
    PercentilesOrdered(sorted);
    EndsAreExtremes(latencies, sorted);
  }

  // ---------------------------------------------------------------------------------------
  // The counters add up
  // ---------------------------------------------------------------------------------------

  function Statuses(samples: seq<Sample>): set<int> {
    set i | 0 <= i < |samples| :: samples[i].status
  }

  ghost function SumCounts(samples: seq<Sample>, statuses: set<int>): nat {
    if statuses == {} then 0
    else WithStatus(samples, Pick(statuses)) + SumCounts(samples, statuses - {Pick(statuses)})
  }

  ghost function Pick<T>(s: set<T>): (x: T)
    requires s != {}
    ensures x in s
  {
    var x :| x in s; x
  }

  lemma {:induction false} OneSampleMore(samples: seq<Sample>, statuses: set<int>)
    requires samples != []
    ensures SumCounts(samples, statuses)
         == SumCounts(samples[..|samples| - 1], statuses) + if samples[|samples| - 1].status in statuses then 1 else 0
    decreases statuses
  {
    if statuses != {} {
      OneSampleMore(samples, statuses - {Pick(statuses)});
    }
  }

  lemma {:induction false} AllStatusesCounted(samples: seq<Sample>, statuses: set<int>)
    requires Statuses(samples) <= statuses
    ensures SumCounts(samples, statuses) == |samples| && Successes(samples) <= |samples|
  {
    if samples == [] {
      NoCounts(statuses);
    } else {
      var n := |samples| - 1;
      assert samples[n].status in Statuses(samples);
      assert forall i :: 0 <= i < n ==> samples[..n][i].status in Statuses(samples);
      AllStatusesCounted(samples[..n], statuses);
      OneSampleMore(samples, statuses);
    }
  }

  lemma {:induction false} NoCounts(statuses: set<int>)
    ensures SumCounts([], statuses) == 0
    decreases statuses
  {
    if statuses != {} {
      NoCounts(statuses - {Pick(statuses)});
    }
  }

  ghost function SumValues(counts: map<int, int>): int {
    if counts == map[] then 0 else counts[Pick(counts.Keys)] + SumValues(counts - {Pick(counts.Keys)})
  }

  lemma {:induction false} SumValuesIsSumCounts(samples: seq<Sample>, counts: map<int, int>)
    requires forall status :: status in counts ==> counts[status] == WithStatus(samples, status)
    ensures SumValues(counts) == SumCounts(samples, counts.Keys)
    decreases counts.Keys
  {
    if counts != map[] {
      var status := Pick(counts.Keys);
      SumValuesIsSumCounts(samples, counts - {status});
      assert (counts - {status}).Keys == counts.Keys - {status};
    }
  }

  lemma {:induction false} RecordedStatusCounted(samples: seq<Sample>, i: nat)
    requires i < |samples|
    ensures WithStatus(samples, samples[i].status) > 0
  {
    if i < |samples| - 1 {
      RecordedStatusCounted(samples[..|samples| - 1], i);
    }
  }

  /** In every summary successes and failures add up to the total, and so do the status counts; the
      total is the number of latencies recorded. */
  lemma SummaryAddsUp(s: Summary, samples: seq<Sample>)
    requires Counts(s, samples)
    ensures s.success + s.failed == s.total == |Latencies(samples)|
    ensures 0 <= s.success && 0 <= s.failed && SumValues(s.statusCount) == s.total
  {
    SumValuesIsSumCounts(samples, s.statusCount);
    forall i | 0 <= i < |samples|
      ensures samples[i].status in s.statusCount
    {
      RecordedStatusCounted(samples, i);
    }
    AllStatusesCounted(samples, s.statusCount.Keys);
  }

  // ---------------------------------------------------------------------------------------
  // A summary in plain terms
  // ---------------------------------------------------------------------------------------

  /** The samples among the first `n` for which the index predicate holds. */
  function Where(n: nat, holds: int -> bool): set<int> {
    set i | 0 <= i < n && holds(i)
  }

  lemma WhereGrows(n: nat, holds: int -> bool)
    ensures |Where(n + 1, holds)| == |Where(n, holds)| + if holds(n) then 1 else 0
  {
    assert Where(n + 1, holds) == if holds(n) then Where(n, holds) + {n} else Where(n, holds);
  }

  lemma {:induction false} SuccessesAreWhere(samples: seq<Sample>, n: nat)
    requires n <= |samples|
    ensures Successes(samples[..n])
         == |set i | 0 <= i < n && 200 <= samples[i].status && samples[i].status <= 499|
  {
    var holds := i => 0 <= i < |samples| && 200 <= samples[i].status && samples[i].status <= 499;
    assert Where(n, holds) == set i | 0 <= i < n && 200 <= samples[i].status && samples[i].status <= 499;
    if 0 < n {
      SuccessesAreWhere(samples, n - 1);
      assert samples[..n][..n - 1] == samples[..n - 1];
      assert Where(n - 1, holds) == set i | 0 <= i < n - 1 && 200 <= samples[i].status && samples[i].status <= 499;
      WhereGrows(n - 1, holds);
    }
  }

  lemma {:induction false} StatusIsWhere(samples: seq<Sample>, status: int, n: nat)
    requires n <= |samples|
    ensures WithStatus(samples[..n], status) == |set i | 0 <= i < n && samples[i].status == status|
  {
    var holds := i => 0 <= i < |samples| && samples[i].status == status;
    assert Where(n, holds) == set i | 0 <= i < n && samples[i].status == status;
    if 0 < n {
      StatusIsWhere(samples, status, n - 1);
      assert samples[..n][..n - 1] == samples[..n - 1];
      assert Where(n - 1, holds) == set i | 0 <= i < n - 1 && samples[i].status == status;
      WhereGrows(n - 1, holds);
    }
  }

  lemma {:induction false} AtMostIsWhere(s: seq<real>, x: real, n: nat)
    requires n <= |s|
    ensures AtMost(s[..n], x) == |set i | 0 <= i < n && s[i] <= x|
  {
    var holds := i => 0 <= i < |s| && s[i] <= x;
    assert Where(n, holds) == set i | 0 <= i < n && s[i] <= x;
    if 0 < n {
      AtMostIsWhere(s, x, n - 1);
      assert s[..n][..n - 1] == s[..n - 1];
      assert Where(n - 1, holds) == set i | 0 <= i < n - 1 && s[i] <= x;
      WhereGrows(n - 1, holds);
    }
  }

  lemma {:induction false} BelowIsWhere(s: seq<real>, x: real, n: nat)
    requires n <= |s|
    ensures Below(s[..n], x) == |set i | 0 <= i < n && s[i] < x|
  {
    var holds := i => 0 <= i < |s| && s[i] < x;
    assert Where(n, holds) == set i | 0 <= i < n && s[i] < x;
    if 0 < n {
      BelowIsWhere(s, x, n - 1);
      assert s[..n][..n - 1] == s[..n - 1];
      assert Where(n - 1, holds) == set i | 0 <= i < n - 1 && s[i] < x;
      WhereGrows(n - 1, holds);
    }
  }

  function AtMostMillis(samples: seq<Sample>, x: real): set<int> {
    set i | 0 <= i < |samples| && samples[i].micros as real <= x * 1000.0
  }

  function BelowMillis(samples: seq<Sample>, x: real): set<int> {
    set i | 0 <= i < |samples| && (samples[i].micros as real) < x * 1000.0
  }

  /** `x` milliseconds is the duration of a sample that at least `p` percent of the samples do not
      exceed, while fewer than `p` percent are faster. */
  predicate NearestRank(samples: seq<Sample>, p: real, x: real) {
    && (exists i :: 0 <= i < |samples| && x * 1000.0 == samples[i].micros as real)
    && p * |samples| as real <= 100.0 * |AtMostMillis(samples, x)| as real
    && p * |samples| as real > 100.0 * |BelowMillis(samples, x)| as real
  }

  lemma LatenciesInMillis(samples: seq<Sample>, x: real)
    ensures AtMost(Latencies(samples), x) == |AtMostMillis(samples, x)|
    ensures Below(Latencies(samples), x) == |BelowMillis(samples, x)|
    ensures x in Latencies(samples) ==> exists i :: 0 <= i < |samples| && x * 1000.0 == samples[i].micros as real
  {
    var s, n := Latencies(samples), |samples|;
    assert s[..n] == s;
    AtMostIsWhere(s, x, n);
    BelowIsWhere(s, x, n);
    assert (set i | 0 <= i < n && s[i] <= x) == AtMostMillis(samples, x);
    assert (set i | 0 <= i < n && s[i] < x) == BelowMillis(samples, x);
  }

  lemma RankInPercent(p: real, n: nat, count: nat)
    ensures count as real >= Rank(p, n) ==> p * n as real <= 100.0 * count as real
    ensures (count as real) < Rank(p, n) ==> p * n as real > 100.0 * count as real
  {
  }

  lemma RankedIsNearest(samples: seq<Sample>, p: real, x: real, n: nat)
    requires n == |samples| && exists i :: 0 <= i < n && x * 1000.0 == samples[i].micros as real
    requires |AtMostMillis(samples, x)| as real >= Rank(p, n) && (|BelowMillis(samples, x)| as real) < Rank(p, n)
    ensures NearestRank(samples, p, x)
  {
    RankInPercent(p, n, |AtMostMillis(samples, x)|);
    RankInPercent(p, n, |BelowMillis(samples, x)|);
  }

  lemma PercentileOfSamples(samples: seq<Sample>, p: real)
    requires samples != [] && 0.0 < p <= 100.0
    ensures NearestRank(samples, p, Percentile(SortedCopy(Latencies(samples)), p))
  {
    var x := Percentile(SortedCopy(Latencies(samples)), p);
    PercentileIsNearestRank(Latencies(samples), p);
    LatenciesInMillis(samples, x);
    RankedIsNearest(samples, p, x, |samples|);
  }

  /** The figures of a summary over the samples that were recorded: statuses 200 to 499 are the
      successes, each status is counted, latencies are in milliseconds. */
  lemma SummaryInPlainTerms(s: Summary, samples: seq<Sample>, status: int)
    requires samples != [] && Counts(s, samples) && Ranks(s, Latencies(samples))
    ensures s.total == |samples| && s.failed == s.total - s.success
    ensures s.success == |set i | 0 <= i < |samples| && 200 <= samples[i].status && samples[i].status <= 499|
    ensures (if status in s.statusCount then s.statusCount[status] else 0)
         == |set i | 0 <= i < |samples| && samples[i].status == status|
    ensures NearestRank(samples, 50.0, s.p50) && NearestRank(samples, 90.0, s.p90)
    ensures NearestRank(samples, 99.0, s.p99) && NearestRank(samples, 99.9, s.p999)
  {
    assert samples[..|samples|] == samples;
    SuccessesAreWhere(samples, |samples|);
    StatusIsWhere(samples, status, |samples|);
    PercentileOfSamples(samples, 50.0);
    PercentileOfSamples(samples, 90.0);
    PercentileOfSamples(samples, 99.0);
    PercentileOfSamples(samples, 99.9);
  }
}
