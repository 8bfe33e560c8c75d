/**
 * Canary metrics (scripts/canary-monitor.js): the pruned window of health checks, the running
 * counters and the latency statistics.
 *
 * Times and latencies are whole milliseconds, rates are exact rationals. Every reading of the
 * clock is a parameter.
 */
module Canary {
  import opened Options
  import opened Sorting

  /** What one call of the health endpoint produced. */
  datatype Sample = Sample(healthy: bool, statusCode: int, latencyMs: int)

  datatype Check = Check(time: int, sample: Sample)

  /** Checks older than 30 minutes are dropped. */
  const WINDOW_MS := 30 * 60 * 1000

  /** The fields of a collector. */
  datatype Metrics = Metrics(
    healthChecks: seq<Check>, fivexxCount: nat, totalSamples: nat, firstCheckTime: int)

  function KeepSince(checks: seq<Check>, cutoff: int): seq<Check> {
    if checks == [] then []
    else
      var n := |checks| - 1;
      KeepSince(checks[..n], cutoff) + if checks[n].time >= cutoff then [checks[n]] else []
  }

  function Recorded(m: Metrics, now: int, sample: Sample): Metrics {
    Metrics(
      KeepSince(m.healthChecks + [Check(now, sample)], now - WINDOW_MS),
      m.fivexxCount + if sample.statusCode >= 500 then 1 else 0,
      m.totalSamples + 1,
      m.firstCheckTime)
  }

  class MetricsCollector {
    var healthChecks: seq<Check>
    var fivexxCount: nat
    var totalSamples: nat
    const firstCheckTime: int

    function Value(): Metrics
      reads this
    {
      Metrics(healthChecks, fivexxCount, totalSamples, firstCheckTime)
    }

    constructor (now: int)
      ensures Value() == Metrics([], 0, 0, now)
    {
      healthChecks := [];
      fivexxCount := 0;
      totalSamples := 0;
      firstCheckTime := now;
    }

    method RecordHealthCheck(now: int, sample: Sample)
      modifies this
      ensures Value() == Recorded(old(Value()), now, sample)
    {
      healthChecks := healthChecks + [Check(now, sample)];
      totalSamples := totalSamples + 1;
      if sample.statusCode >= 500 {
        fivexxCount := fivexxCount + 1;
      }
      var cutoff := now - WINDOW_MS;
      healthChecks := KeepSince(healthChecks, cutoff);
    }
  }

  // ----- The window against the whole history -----

  /** The collector after recording `history`, one call per check at the check's time. */
  function Collected(first: int, history: seq<Check>): Metrics {
    if history == [] then Metrics([], 0, 0, first)
    else
      var n := |history| - 1;
      Recorded(Collected(first, history[..n]), history[n].time, history[n].sample)
  }

  /** No recording at or after check `i` was more than a window later than it. */
  ghost predicate Survives(history: seq<Check>, i: nat)
    requires i < |history|
  {
    forall j :: i <= j < |history| ==> history[j].time - 30 * 60 * 1000 <= history[i].time
  }

  /** The surviving ones among the first `n` checks, in order. */
  ghost function Survivors(history: seq<Check>, n: nat): seq<Check>
    requires n <= |history|
  {
    if n == 0 then []
    else Survivors(history, n - 1) + if Survives(history, n - 1) then [history[n - 1]] else []
  }

  lemma {:induction false} KeepConcat(xs: seq<Check>, ys: seq<Check>, cutoff: int)
    ensures KeepSince(xs + ys, cutoff) == KeepSince(xs, cutoff) + KeepSince(ys, cutoff)
    decreases |ys|
  {
    if ys == [] {
      assert xs + ys == xs;
    } else {
      var n := |ys| - 1;
      assert (xs + ys)[..|xs + ys| - 1] == xs + ys[..n];
      KeepConcat(xs, ys[..n], cutoff);
    }
  }

  lemma KeepLast(xs: seq<Check>, x: Check, cutoff: int)
    ensures KeepSince(xs + [x], cutoff) == KeepSince(xs, cutoff) + if x.time >= cutoff then [x] else []
  {
    assert (xs + [x])[..|xs|] == xs;
  }

  lemma SurvivesExtension(history: seq<Check>, c: Check, i: nat)
    requires i < |history|
    ensures Survives(history + [c], i) <==> Survives(history, i) && history[i].time >= c.time - WINDOW_MS
  {
    var more := history + [c];
    assert forall j :: i <= j < |history| ==> more[j] == history[j];
    assert more[|history|] == c;
  }

  /** Recording one more check prunes the survivors once more. */
  lemma {:induction false} SurvivorsOfExtension(history: seq<Check>, c: Check, n: nat)
    requires n <= |history|
    ensures Survivors(history + [c], n) == KeepSince(Survivors(history, n), c.time - WINDOW_MS)
  {
    if n > 0 {
      SurvivorsOfExtension(history, c, n - 1);
      SurvivesExtension(history, c, n - 1);
      assert (history + [c])[n - 1] == history[n - 1];
      KeepLast(Survivors(history, n - 1), history[n - 1], c.time - WINDOW_MS);
      assert Survivors(history, n - 1) + [] == Survivors(history, n - 1);
    }
  }

  /**
   * For every history, whatever the clock did: the repeatedly pruned window is the history
   * without the checks that some later recording found too old.
   */
  lemma {:induction false} WindowIsSurvivors(first: int, history: seq<Check>)
    ensures Collected(first, history).healthChecks == Survivors(history, |history|)
    decreases |history|
  {
    if history != [] {
      var n := |history| - 1;
      var before, c := history[..n], history[n];
      WindowIsSurvivors(first, before);
      assert history == before + [c];
      SurvivorsOfExtension(before, c, n);
      KeepLast(Survivors(before, n), c, c.time - WINDOW_MS);
      assert Survives(history, n);
    }
  }

  ghost predicate ClockNeverGoesBack(history: seq<Check>) {
    forall i, j :: 0 <= i < j < |history| ==> history[i].time <= history[j].time
  }

  lemma {:induction false} SurvivorsOfSorted(history: seq<Check>, n: nat)
    requires ClockNeverGoesBack(history) && history != [] && n <= |history|
    ensures Survivors(history, n) == KeepSince(history[..n], history[|history| - 1].time - WINDOW_MS)
  {
    if n > 0 {
      SurvivorsOfSorted(history, n - 1);
      var cutoff := history[|history| - 1].time - WINDOW_MS;
      assert Survives(history, n - 1) <==> history[n - 1].time >= cutoff;
      assert history[..n][..n - 1] == history[..n - 1];
    }
  }

  lemma {:induction false} KeepAll(checks: seq<Check>, cutoff: int)
    requires forall i :: 0 <= i < |checks| ==> checks[i].time >= cutoff
    ensures KeepSince(checks, cutoff) == checks
  {
    if checks != [] {
      var n := |checks| - 1;
      KeepAll(checks[..n], cutoff);
      assert checks == checks[..n] + [checks[n]];
    }
  }

  lemma {:induction false} KeepNone(checks: seq<Check>, cutoff: int)
    requires forall i :: 0 <= i < |checks| ==> checks[i].time < cutoff
    ensures KeepSince(checks, cutoff) == []
  {
    if checks != [] {
      KeepNone(checks[..|checks| - 1], cutoff);
    }
  }

  lemma FirstSince(history: seq<Check>, cutoff: int) returns (k: nat)
    requires ClockNeverGoesBack(history)
    ensures k <= |history|
    ensures forall i :: 0 <= i < |history| ==> (i >= k <==> history[i].time >= cutoff)
  {
    k := 0;
    while k < |history| && history[k].time < cutoff
      invariant k <= |history|
      invariant forall i :: 0 <= i < k ==> history[i].time < cutoff
    {
      k := k + 1;
    }
  }

  /** Where the old checks come first, pruning keeps a suffix. */
  lemma KeepSinceIsSuffix(history: seq<Check>, cutoff: int, k: nat)
    requires k <= |history|
    requires forall i :: 0 <= i < |history| ==> (i >= k <==> history[i].time >= cutoff)
    ensures KeepSince(history, cutoff) == history[k..]
  {
    var stale, recent := history[..k], history[k..];
    assert history == stale + recent;
    KeepNone(stale, cutoff);
    KeepAll(recent, cutoff);
    KeepConcat(stale, recent, cutoff);
  }

  /**
   * With a clock that never goes back, the window is the full history filtered once by the latest
   * cutoff: the suffix of checks at most 30 minutes older than the last.
   */
  lemma WindowIsRecentHistory(first: int, history: seq<Check>) returns (k: nat)
    requires ClockNeverGoesBack(history) && history != []
    ensures k < |history| && Collected(first, history).healthChecks == history[k..]
    ensures forall i :: 0 <= i < |history| ==>
              (i >= k <==> history[i].time >= history[|history| - 1].time - 1800000)
  {
    WindowIsSurvivors(first, history);
    SurvivorsOfSorted(history, |history|);
    assert history[..|history|] == history;
    var cutoff := history[|history| - 1].time - WINDOW_MS;
    k := FirstSince(history, cutoff);
    KeepSinceIsSuffix(history, cutoff, k);
  }

  // ----- Counters -----

  /** The positions of the server errors in the whole history. */
  ghost function ServerErrors(history: seq<Check>): set<nat> {
    set i: nat | i < |history| && history[i].sample.statusCode >= 500
  }

  /** The counters run over the full history and are not affected by pruning. */
  lemma {:induction false} CountersCoverHistory(first: int, history: seq<Check>)
    ensures var m := Collected(first, history);
            && m.totalSamples == |history|
            && m.fivexxCount == |ServerErrors(history)| <= |history|
            && m.firstCheckTime == first
    decreases |history|
  {
    if history != [] {
      var n := |history| - 1;
      CountersCoverHistory(first, history[..n]);
      var before := ServerErrors(history[..n]);
      assert forall i: nat :: i < n ==> history[..n][i] == history[i];
      if history[n].sample.statusCode >= 500 {
        assert ServerErrors(history) == before + {n};
      } else {
        assert ServerErrors(history) == before;
      }
    }
  }

  /** `getErrorRate`, in percent. */
  function ErrorRate(m: Metrics): real {
    if m.totalSamples == 0 then 0.0
    else m.fivexxCount as real / m.totalSamples as real * 100.0
  }

  /**
   * After any recordings the error rate is the share of 5xx checks in the full history, in percent:
   * between 0 and 100, and zero exactly when there was none.
   */
  lemma ErrorRateIsPercentage(first: int, history: seq<Check>)
    ensures var m := Collected(first, history);
            && m.totalSamples == |history| && m.fivexxCount == |ServerErrors(history)|
            && ErrorRate(m) * m.totalSamples as real == 100.0 * m.fivexxCount as real
            && 0.0 <= ErrorRate(m) <= 100.0
            && (ErrorRate(m) == 0.0 <==> ServerErrors(history) == {})
  {
    CountersCoverHistory(first, history);
    RateOfCounters(Collected(first, history));
    assert |ServerErrors(history)| == 0 <==> ServerErrors(history) == {};
  }

  lemma RateOfCounters(m: Metrics)
    requires m.fivexxCount <= m.totalSamples
    ensures 0.0 <= ErrorRate(m) <= 100.0
    ensures ErrorRate(m) == 0.0 <==> m.fivexxCount == 0
    ensures ErrorRate(m) * m.totalSamples as real == 100.0 * m.fivexxCount as real
  {
    if m.totalSamples > 0 {
      Fraction(m.fivexxCount as real, m.totalSamples as real);
    }
  }

  lemma Fraction(c: real, t: real)
    requires 0.0 <= c <= t && 0.0 < t
    ensures 0.0 <= c / t <= 1.0
    ensures c / t == 0.0 <==> c == 0.0
    ensures c / t * 100.0 * t == 100.0 * c
  {
    var q := c / t;
    assert q * t == c;
    assert q < 0.0 ==> q * t < 0.0;
    assert q > 1.0 ==> q * t > t;
  }

  // ----- Latency -----

  function Latencies(checks: seq<Check>): (r: seq<int>)
    ensures |r| == |checks|
    ensures forall i :: 0 <= i < |checks| ==> r[i] == checks[i].sample.latencyMs
  {
    seq(|checks|, i requires 0 <= i < |checks| => checks[i].sample.latencyMs)
  }

  function Healthy(checks: seq<Check>): seq<Check> {
    if checks == [] then []
    else
      var n := |checks| - 1;
      Healthy(checks[..n]) + if checks[n].sample.healthy then [checks[n]] else []
  }

  /** `slice(-n)` */
  function LastOf(checks: seq<Check>, n: nat): seq<Check> {
    if |checks| <= n then checks else checks[|checks| - n..]
  }

  /** `getBaselineLatency`: the upper median of the healthy samples; null below two samples. */
  function BaselineLatency(m: Metrics): (r: Option<int>)
    ensures r.Some? <==> |Healthy(m.healthChecks)| >= 2
    ensures r.Some? ==>
              var xs := Latencies(Healthy(m.healthChecks));
              HasRank(xs, |xs| / 2, r.value)
  {
    var samples := Healthy(m.healthChecks);
    if |samples| < 2 then None
    else
      var latencies := Latencies(samples);
      SortedIndexHasRank(latencies, |latencies| / 2);
      Some(SortNumbers(latencies)[|latencies| / 2])
  }

  /**
   * `getRecentLatency`: the 95th percentile of the last 20 samples, null when there are none. At
   * least ceil(0.95 m) of the m samples are at most the result, and fewer are below it.
   */
  function RecentLatency(m: Metrics): (r: Option<int>)
    ensures r.Some? <==> m.healthChecks != []
    ensures r.Some? ==>
              var n := |m.healthChecks|;
              var xs := Latencies(m.healthChecks[n - (if n < 20 then n else 20)..]);
              && r.value in xs
              && 100 * CountBelow(xs, r.value) < 95 * |xs| <= 100 * CountBelow(xs, r.value + 1)
  {
    var samples := LastOf(m.healthChecks, 20);
    if |samples| == 0 then None
    else
      var latencies := Latencies(samples);
      var p95 := Max(0, (95 * |latencies| + 99) / 100 - 1);
      var index := Min(p95, |latencies| - 1);
      SortedIndexHasRank(latencies, index);
      RankOfPercentile(latencies, index, SortNumbers(latencies)[index]);
      Some(SortNumbers(latencies)[index])
  }

  lemma RankOfPercentile(xs: seq<int>, index: nat, v: int)
    requires xs != [] && index == (95 * |xs| + 99) / 100 - 1 && HasRank(xs, index, v)
    ensures v in xs && 100 * CountBelow(xs, v) < 95 * |xs| <= 100 * CountBelow(xs, v + 1)
  {}

  function Max(a: int, b: int): int {
    if a > b then a else b
  }

  function Min(a: int, b: int): int {
    if a < b then a else b
  }

  // ----- The latencies over the window itself -----

  ghost function HealthyAt(checks: seq<Check>): set<nat> {
    set i: nat | i < |checks| && checks[i].sample.healthy
  }

  ghost function HealthyBelow(checks: seq<Check>, v: int): set<nat> {
    set i: nat | i < |checks| && checks[i].sample.healthy && checks[i].sample.latencyMs < v
  }

  /** The checks from index `from` on that took less than `v`. */
  ghost function BelowFrom(checks: seq<Check>, from: int, v: int): set<nat> {
    set i: nat | from <= i < |checks| && checks[i].sample.latencyMs < v
  }

  lemma CountSnoc(xs: seq<int>, x: int, v: int)
    ensures CountBelow(xs + [x], v) == CountBelow(xs, v) + if x < v then 1 else 0
  {
    assert (xs + [x])[..|xs|] == xs;
  }

  lemma {:induction false} HealthyCount(checks: seq<Check>)
    ensures |Healthy(checks)| == |HealthyAt(checks)|
  {
    if checks != [] {
      var n := |checks| - 1;
      HealthyCount(checks[..n]);
      var before := HealthyAt(checks[..n]);
      assert forall i: nat :: i < n ==> checks[..n][i] == checks[i];
      if checks[n].sample.healthy {
        assert HealthyAt(checks) == before + {n};
      } else {
        assert HealthyAt(checks) == before;
      }
    }
  }

  lemma HealthyBelowStep(checks: seq<Check>, n: nat, v: int)
    requires |checks| == n + 1
    ensures |HealthyBelow(checks, v)| == |HealthyBelow(checks[..n], v)|
            + if checks[n].sample.healthy && checks[n].sample.latencyMs < v then 1 else 0
  {
    var before := HealthyBelow(checks[..n], v);
    assert forall i: nat :: i < n ==> checks[..n][i] == checks[i];
    if checks[n].sample.healthy && checks[n].sample.latencyMs < v {
      assert HealthyBelow(checks, v) == before + {n};
    } else {
      assert HealthyBelow(checks, v) == before;
    }
  }

  lemma {:induction false} HealthyBelowCount(checks: seq<Check>, v: int)
    ensures CountBelow(Latencies(Healthy(checks)), v) == |HealthyBelow(checks, v)|
  {
    if checks != [] {
      var n := |checks| - 1;
      var front := Healthy(checks[..n]);
      HealthyBelowCount(checks[..n], v);
      HealthyBelowStep(checks, n, v);
      CountSnoc(Latencies(front), checks[n].sample.latencyMs, v);
      assert Latencies(front + [checks[n]]) == Latencies(front) + [checks[n].sample.latencyMs];
      assert front + [] == front;
    }
  }

  lemma BelowFromStep(checks: seq<Check>, n: nat, from: nat, v: int)
    requires |checks| == n + 1 && from <= n
    ensures |BelowFrom(checks, from, v)| == |BelowFrom(checks[..n], from, v)|
            + if checks[n].sample.latencyMs < v then 1 else 0
  {
    var before := BelowFrom(checks[..n], from, v);
    assert forall i: nat :: i < n ==> checks[..n][i] == checks[i];
    if checks[n].sample.latencyMs < v {
      assert BelowFrom(checks, from, v) == before + {n};
    } else {
      assert BelowFrom(checks, from, v) == before;
    }
  }

  lemma {:induction false} BelowFromCount(checks: seq<Check>, from: nat, v: int)
    requires from <= |checks|
    ensures CountBelow(Latencies(checks[from..]), v) == |BelowFrom(checks, from, v)|
    decreases |checks|
  {
    if from == |checks| {
      assert BelowFrom(checks, from, v) == {};
      assert checks[from..] == [];
    } else {
      var n := |checks| - 1;
      BelowFromCount(checks[..n], from, v);
      BelowFromStep(checks, n, from, v);
      CountSnoc(Latencies(checks[..n][from..]), checks[n].sample.latencyMs, v);
      assert Latencies(checks[from..]) == Latencies(checks[..n][from..]) + [checks[n].sample.latencyMs];
    }
  }

  /** `b` is the upper median of the healthy checks, of which there are at least two. */
  ghost predicate IsBaseline(checks: seq<Check>, b: int) {
    && |HealthyAt(checks)| >= 2
    && |HealthyBelow(checks, b)| <= |HealthyAt(checks)| / 2 < |HealthyBelow(checks, b + 1)|
  }

  /** At least 95% of the last twenty checks (or all, if fewer) took at most `r`, fewer took less. */
  ghost predicate IsRecent(checks: seq<Check>, r: int) {
    var size := if |checks| < 20 then |checks| else 20;
    100 * |BelowFrom(checks, |checks| - 20, r)| < 95 * size <= 100 * |BelowFrom(checks, |checks| - 20, r + 1)|
  }

  /** The baseline is that median, and there is none exactly when fewer than two checks are healthy. */
  lemma BaselineIsMedian(m: Metrics, b: int)
    ensures BaselineLatency(m) == Some(b) <==> IsBaseline(m.healthChecks, b)
    ensures BaselineLatency(m) == None <==> |HealthyAt(m.healthChecks)| < 2
  {
    var checks := m.healthChecks;
    var xs := Latencies(Healthy(checks));
    HealthyCount(checks);
    HealthyBelowCount(checks, b);
    HealthyBelowCount(checks, b + 1);
    if IsBaseline(checks, b) {
      var v := BaselineLatency(m).value;
      SameMedian(xs, |xs| / 2, b, v);
    }
  }

  lemma RecentCount(checks: seq<Check>, from: nat, v: int)
    requires from <= |checks| && from == if |checks| < 20 then 0 else |checks| - 20
    ensures CountBelow(Latencies(checks[from..]), v) == |BelowFrom(checks, |checks| - 20, v)|
  {
    BelowFromCount(checks, from, v);
    assert BelowFrom(checks, |checks| - 20, v) == BelowFrom(checks, from, v);
  }

  /** The recent latency is that percentile, and there is none exactly without checks. */
  lemma RecentIsPercentile(m: Metrics, r: int)
    ensures RecentLatency(m) == Some(r) <==> IsRecent(m.healthChecks, r)
    ensures RecentLatency(m) == None <==> m.healthChecks == []
  {
    var checks := m.healthChecks;
    var n := |checks|;
    var size := if n < 20 then n else 20;
    var xs := Latencies(checks[n - size..]);
    RecentCount(checks, n - size, r);
    RecentCount(checks, n - size, r + 1);
    if IsRecent(checks, r) && RecentLatency(m).Some? {
      var v := RecentLatency(m).value;
      SamePercentile(xs, r, v);
    }
  }

  lemma SamePercentile(xs: seq<int>, v: int, w: int)
    requires 100 * CountBelow(xs, v) < 95 * |xs| <= 100 * CountBelow(xs, v + 1)
    requires 100 * CountBelow(xs, w) < 95 * |xs| <= 100 * CountBelow(xs, w + 1)
    ensures v == w
  {
    if v < w {
      CountMonotone(xs, v + 1, w);
    } else if w < v {
      CountMonotone(xs, w + 1, v);
    }
  }

  lemma SameMedian(xs: seq<int>, k: nat, v: int, w: int)
    requires CountBelow(xs, v) <= k < CountBelow(xs, v + 1)
    requires CountBelow(xs, w) <= k < CountBelow(xs, w + 1)
    ensures v == w
  {
    if v < w {
      CountMonotone(xs, v + 1, w);
    } else if w < v {
      CountMonotone(xs, w + 1, v);
    }
  }
}
