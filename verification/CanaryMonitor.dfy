/**
 * The verdict over canary metrics and the monitor loop with its exit codes
 * (scripts/canary-monitor.js).
 */
module CanaryMonitor {
  import opened Options
  import opened Canary

  datatype Thresholds = Thresholds(errorRatePercent: real, latencyMultiplier: real, fivexxPerMinute: real)

  datatype Severity = Healthy | Degraded | Critical

  /** The four checks, in the order the source runs them. */
  datatype Issue = HighErrorRate | HighFivexxRate | HighLatency | FailingChecks

  /** `getFivexxPerMinute` */
  function FivexxPerMinute(m: Metrics, now: int): real {
    var elapsedMinutes := (now - m.firstCheckTime) as real / 60000.0;
    if elapsedMinutes < 0.5 then m.fivexxCount as real
    else m.fivexxCount as real / if elapsedMinutes > 1.0 then elapsedMinutes else 1.0
  }

  /**
   * One rule covers all three cases: the rate counts per minute of elapsed time, or per one minute
   * while less has passed.
   */
  lemma FivexxRateIsPerElapsedMinute(m: Metrics, now: int)
    ensures var elapsedMinutes := (now - m.firstCheckTime) as real / 60000.0;
            var minutes := if elapsedMinutes > 1.0 then elapsedMinutes else 1.0;
            FivexxPerMinute(m, now) * minutes == m.fivexxCount as real
  {
    var elapsedMinutes := (now - m.firstCheckTime) as real / 60000.0;
    if elapsedMinutes > 1.0 {
      QuotientTimes(m.fivexxCount as real, elapsedMinutes);
    }
  }

  lemma QuotientTimes(c: real, t: real)
    requires t > 0.0
    ensures c / t * t == c
  {}

  function Failures(checks: seq<Check>): (n: nat)
    ensures n <= |checks|
  {
    if checks == [] then 0
    else
      var n := |checks| - 1;
      Failures(checks[..n]) + if checks[n].sample.healthy then 0 else 1
  }

  /** A null latency is falsy, and so is a latency of 0 ms. */
  predicate Truthy(latency: Option<int>) {
    latency.Some? && latency.value != 0
  }

  predicate LatencyExceeds(baseline: Option<int>, recent: Option<int>, multiplier: real) {
    Truthy(baseline) && Truthy(recent) && recent.value as real > baseline.value as real * multiplier
  }

  /** The condition of each check. */
  predicate Fires(issue: Issue, m: Metrics, th: Thresholds, now: int) {
    match issue
    case HighErrorRate => ErrorRate(m) > th.errorRatePercent
    case HighFivexxRate => FivexxPerMinute(m, now) > th.fivexxPerMinute
    case HighLatency => LatencyExceeds(BaselineLatency(m), RecentLatency(m), th.latencyMultiplier)
    case FailingChecks => Failures(LastOf(m.healthChecks, 5)) >= 3
  }

  function SeverityOf(issue: Issue): Severity {
    match issue
    case HighErrorRate | HighLatency => Degraded
    case HighFivexxRate | FailingChecks => Critical
  }

  function Rank(s: Severity): nat {
    match s
    case Healthy => 0
    case Degraded => 1
    case Critical => 2
  }

  /** `s` is the maximum severity among the checks that fire, Healthy when none does. */
  ghost predicate IsVerdict(s: Severity, m: Metrics, th: Thresholds, now: int) {
    && (forall i :: Fires(i, m, th, now) ==> Rank(SeverityOf(i)) <= Rank(s))
    && (s == Healthy || exists i :: Fires(i, m, th, now) && SeverityOf(i) == s)
  }

  lemma VerdictIsUnique(s: Severity, s': Severity, m: Metrics, th: Thresholds, now: int)
    requires IsVerdict(s, m, th, now) && IsVerdict(s', m, th, now)
    ensures s == s'
  {}

  lemma VerdictByCases(s: Severity, m: Metrics, th: Thresholds, now: int)
    requires s == if Fires(HighFivexxRate, m, th, now) || Fires(FailingChecks, m, th, now) then Critical
                  else if Fires(HighErrorRate, m, th, now) || Fires(HighLatency, m, th, now) then Degraded
                  else Healthy
    ensures IsVerdict(s, m, th, now)
  {
    var worst := if Fires(HighFivexxRate, m, th, now) then HighFivexxRate
                   else if Fires(FailingChecks, m, th, now) then FailingChecks
                   else if Fires(HighErrorRate, m, th, now) then HighErrorRate else HighLatency;
    assert s == Healthy || (Fires(worst, m, th, now) && SeverityOf(worst) == s);
  }

  function When(fires: bool, issue: Issue): seq<Issue> {
    if fires then [issue] else []
  }

  function Listed(a: bool, b: bool, c: bool, d: bool): seq<Issue> {
    When(a, HighErrorRate) + When(b, HighFivexxRate) + When(c, HighLatency) + When(d, FailingChecks)
  }

  lemma ListedOnce(a: bool, b: bool, c: bool, d: bool)
    ensures var issues := Listed(a, b, c, d);
            && (HighErrorRate in issues <==> a) && (HighFivexxRate in issues <==> b)
            && (HighLatency in issues <==> c) && (FailingChecks in issues <==> d)
            && (forall j, k :: 0 <= j < k < |issues| ==> issues[j] != issues[k])
            && (issues == [] <==> !a && !b && !c && !d)
  {}

  lemma ListedAreFiring(issues: seq<Issue>, m: Metrics, th: Thresholds, now: int)
    requires issues == Listed(
      Fires(HighErrorRate, m, th, now), Fires(HighFivexxRate, m, th, now),
      Fires(HighLatency, m, th, now), Fires(FailingChecks, m, th, now))
    ensures forall i :: i in issues <==> Fires(i, m, th, now)
    ensures forall j, k :: 0 <= j < k < |issues| ==> issues[j] != issues[k]
  {
    ListedOnce(
      Fires(HighErrorRate, m, th, now), Fires(HighFivexxRate, m, th, now),
      Fires(HighLatency, m, th, now), Fires(FailingChecks, m, th, now));
    forall i: Issue
      ensures i in issues <==> Fires(i, m, th, now)
    {
      match i
      case HighErrorRate =>
      case HighFivexxRate =>
      case HighLatency =>
      case FailingChecks =>
    }
  }

  /** The updates of `status` and `issues` in `assessHealth`, given which conditions hold. */
  method Judge(errorRateHigh: bool, fivexxHigh: bool, slow: bool, failing: bool)
    returns (status: Severity, issues: seq<Issue>)
    ensures issues == Listed(errorRateHigh, fivexxHigh, slow, failing)
    ensures status == if fivexxHigh || failing then Critical
                      else if errorRateHigh || slow then Degraded
                      else Healthy
  {
    issues, status := [], Healthy;
    if errorRateHigh {
      issues := issues + [HighErrorRate];
      status := Degraded;
    }
    if fivexxHigh {
      issues := issues + [HighFivexxRate];
      status := Critical;
    }
    if slow {
      issues := issues + [HighLatency];
      if status == Healthy {
        status := Degraded;
      }
    }
    if failing {
      issues := issues + [FailingChecks];
      status := Critical;
    }
  }

  /** `assessHealth` */
  method AssessHealth(m: Metrics, th: Thresholds, now: int) returns (status: Severity, issues: seq<Issue>)
    ensures IsVerdict(status, m, th, now)
    ensures forall i :: i in issues <==> Fires(i, m, th, now)
    ensures forall j, k :: 0 <= j < k < |issues| ==> issues[j] != issues[k]
    ensures issues == [] <==> status == Healthy
    ensures status == Critical <==> HighFivexxRate in issues || FailingChecks in issues
  {
    var errorRateHigh := ErrorRate(m) > th.errorRatePercent;
    var fivexxHigh := FivexxPerMinute(m, now) > th.fivexxPerMinute;
    var slow := LatencyExceeds(BaselineLatency(m), RecentLatency(m), th.latencyMultiplier);
    var failing := Failures(LastOf(m.healthChecks, 5)) >= 3;
    status, issues := Judge(errorRateHigh, fivexxHigh, slow, failing);
    ListedAreFiring(issues, m, th, now);
    VerdictByCases(status, m, th, now);
  }

  // ----- When each check fires, over the checks themselves -----

  /** The failing ones among the checks from index `from` on. */
  ghost function FailingFrom(checks: seq<Check>, from: int): set<nat> {
    set i: nat | from <= i < |checks| && !checks[i].sample.healthy
  }

  lemma FailingFromStep(checks: seq<Check>, n: nat, from: nat)
    requires |checks| == n + 1 && from <= n
    ensures |FailingFrom(checks, from)| == |FailingFrom(checks[..n], from)| + if checks[n].sample.healthy then 0 else 1
  {
    var before := FailingFrom(checks[..n], from);
    assert forall i: nat :: i < n ==> checks[..n][i] == checks[i];
    if checks[n].sample.healthy {
      assert FailingFrom(checks, from) == before;
    } else {
      assert FailingFrom(checks, from) == before + {n};
    }
  }

  lemma {:induction false} FailuresFrom(checks: seq<Check>, from: nat)
    requires from <= |checks|
    ensures Failures(checks[from..]) == |FailingFrom(checks, from)|
    decreases |checks|
  {
    if from == |checks| {
      assert checks[from..] == [];
      assert FailingFrom(checks, from) == {};
    } else {
      var n := |checks| - 1;
      FailuresFrom(checks[..n], from);
      FailingFromStep(checks, n, from);
      assert checks[from..][..n - from] == checks[..n][from..];
    }
  }

  /** The failing-checks test fires exactly when at least three of the last five checks failed. */
  lemma FailingChecksFireIff(m: Metrics, th: Thresholds, now: int)
    ensures Fires(FailingChecks, m, th, now) <==> |FailingFrom(m.healthChecks, |m.healthChecks| - 5)| >= 3
  {
    var checks := m.healthChecks;
    var from := if |checks| < 5 then 0 else |checks| - 5;
    FailuresFrom(checks, from);
    assert checks[from..] == LastOf(checks, 5);
    assert FailingFrom(checks, |checks| - 5) == FailingFrom(checks, from);
  }

  /** Neither latency is 0 ms, and the recent one exceeds the baseline times the multiplier. */
  lemma LatencyExceedsIff(b: int, r: int, multiplier: real)
    ensures LatencyExceeds(Some(b), Some(r), multiplier) <==> b != 0 && r != 0 && r as real > b as real * multiplier
  {}

  /**
   * For the median b of the healthy checks and the 95th percentile r of the last twenty, the
   * latency test compares b with r.
   */
  lemma HighLatencyFiresIff(m: Metrics, th: Thresholds, now: int, b: int, r: int)
    requires IsBaseline(m.healthChecks, b) && IsRecent(m.healthChecks, r)
    ensures Fires(HighLatency, m, th, now) <==> LatencyExceeds(Some(b), Some(r), th.latencyMultiplier)
  {
    BaselineIsMedian(m, b);
    RecentIsPercentile(m, r);
    LatencyTestOf(m, th, now, Some(b), Some(r));
  }

  lemma LatencyTestOf(m: Metrics, th: Thresholds, now: int, b: Option<int>, r: Option<int>)
    requires BaselineLatency(m) == b && RecentLatency(m) == r
    ensures Fires(HighLatency, m, th, now) <==> LatencyExceeds(b, r, th.latencyMultiplier)
  {}

  /** With fewer than two healthy checks there is no median, and the test does not fire. */
  lemma NoLatencyTestWithoutBaseline(m: Metrics, th: Thresholds, now: int)
    requires |HealthyAt(m.healthChecks)| < 2
    ensures !Fires(HighLatency, m, th, now)
  {
    BaselineIsMedian(m, 0);
  }

  lemma ScaledComparison(rate: real, limit: real, t: real, product: real)
    requires t > 0.0 && rate * t == product
    ensures rate > limit <==> product > limit * t
  {
    assert (rate - limit) * t == product - limit * t;
    assert rate > limit ==> (rate - limit) * t > 0.0;
    assert rate < limit ==> (limit - rate) * t > 0.0;
  }

  /** The error-rate test compares the 5xx checks with the allowed share of all recorded checks. */
  lemma HighErrorRateFiresIff(m: Metrics, th: Thresholds, now: int)
    requires 0 < m.totalSamples && m.fivexxCount <= m.totalSamples
    ensures Fires(HighErrorRate, m, th, now)
            <==> 100.0 * m.fivexxCount as real > th.errorRatePercent * m.totalSamples as real
  {
    RateOfCounters(m);
    ScaledComparison(ErrorRate(m), th.errorRatePercent, m.totalSamples as real, 100.0 * m.fivexxCount as real);
  }

  /** The 5xx test compares them with what the minutes since the start, at least one, allow. */
  lemma HighFivexxRateFiresIff(m: Metrics, th: Thresholds, now: int)
    ensures var elapsed := (now - m.firstCheckTime) as real / 60000.0;
            Fires(HighFivexxRate, m, th, now)
            <==> m.fivexxCount as real > th.fivexxPerMinute * (if elapsed > 1.0 then elapsed else 1.0)
  {
    FivexxRateIsPerElapsedMinute(m, now);
    var elapsed := (now - m.firstCheckTime) as real / 60000.0;
    ScaledComparison(
      FivexxPerMinute(m, now), th.fivexxPerMinute, if elapsed > 1.0 then elapsed else 1.0, m.fivexxCount as real);
  }

  /** Three failures in a row at the end of the window are critical. */
  lemma ThreeFailuresAreCritical(m: Metrics, th: Thresholds, now: int, s: Severity)
    requires IsVerdict(s, m, th, now)
    requires var n := |m.healthChecks|; n >= 3 && forall i :: n - 3 <= i < n ==> !m.healthChecks[i].sample.healthy
    ensures s == Critical
  {
    var last := LastOf(m.healthChecks, 5);
    var n := |last|;
    assert !last[n - 1].sample.healthy && !last[n - 2].sample.healthy && !last[n - 3].sample.healthy;
    assert last[..n - 1][n - 2] == last[n - 2] && last[..n - 1][..n - 2][n - 3] == last[n - 3];
    assert Failures(last) == Failures(last[..n - 1]) + 1;
    assert Failures(last[..n - 1]) == Failures(last[..n - 1][..n - 2]) + 1;
    assert Failures(last[..n - 1][..n - 2]) >= 1;
    assert Fires(FailingChecks, m, th, now);
  }

  // ----- "Consecutive" failures -----

  predicate Fails(c: Check) {
    !c.sample.healthy
  }

  predicate FailThroughout(checks: seq<Check>, a: nat, b: nat) {
    a <= b <= |checks| && forall k :: a <= k < b ==> Fails(checks[k])
  }

  predicate HealthyOutside(checks: seq<Check>, a: nat, b: nat) {
    forall k :: 0 <= k < |checks| && !(a <= k < b) ==> !Fails(checks[k])
  }

  /** Somewhere among the checks there are n failures in a row. */
  ghost predicate HasStreak(checks: seq<Check>, n: nat) {
    exists a: nat, b: nat :: FailThroughout(checks, a, b) && b == a + n
  }

  /** A healthy check lies between two failing ones. */
  predicate Interrupted(checks: seq<Check>) {
    exists i, j, k | 0 <= i < j < k < |checks| :: Fails(checks[i]) && !Fails(checks[j]) && Fails(checks[k])
  }

  lemma {:induction false} FailuresConcat(xs: seq<Check>, ys: seq<Check>)
    ensures Failures(xs + ys) == Failures(xs) + Failures(ys)
    decreases |ys|
  {
    if ys == [] {
      assert xs + ys == xs;
    } else {
      var n := |ys| - 1;
      assert (xs + ys)[..|xs + ys| - 1] == xs + ys[..n];
      FailuresConcat(xs, ys[..n]);
    }
  }

  lemma {:induction false} NoFailuresIffAllHealthy(checks: seq<Check>)
    ensures Failures(checks) == 0 <==> forall k :: 0 <= k < |checks| ==> !Fails(checks[k])
  {
    if checks != [] {
      var n := |checks| - 1;
      NoFailuresIffAllHealthy(checks[..n]);
      assert forall k :: 0 <= k < n ==> checks[..n][k] == checks[k];
    }
  }

  lemma {:induction false} AllFailing(checks: seq<Check>)
    requires forall k :: 0 <= k < |checks| ==> Fails(checks[k])
    ensures Failures(checks) == |checks|
  {
    if checks != [] {
      AllFailing(checks[..|checks| - 1]);
    }
  }

  /** A stretch of failures accounts for all of them exactly when the rest is healthy. */
  lemma FailuresAroundStreak(checks: seq<Check>, a: nat, b: nat)
    requires FailThroughout(checks, a, b)
    ensures Failures(checks) == b - a <==> HealthyOutside(checks, a, b)
  {
    var front, streak, back := checks[..a], checks[a..b], checks[b..];
    FailuresInThree(checks, a, b);
    AllFailing(streak);
    NoFailuresIffAllHealthy(front);
    NoFailuresIffAllHealthy(back);
    assert HealthyOutside(checks, a, b) ==> forall k :: 0 <= k < |back| ==> !Fails(back[k]);
    assert forall k :: b <= k < |checks| ==> checks[k] == back[k - b];
    assert forall k :: 0 <= k < a ==> checks[k] == front[k];
  }

  lemma FailuresInThree(checks: seq<Check>, a: nat, b: nat)
    requires a <= b <= |checks|
    ensures Failures(checks) == Failures(checks[..a]) + Failures(checks[a..b]) + Failures(checks[b..])
  {
    FailuresSplit(checks, b);
    FailuresSplit(checks[..b], a);
    assert checks[..b][..a] == checks[..a] && checks[..b][a..] == checks[a..b];
  }

  lemma FailuresSplit(checks: seq<Check>, k: nat)
    requires k <= |checks|
    ensures Failures(checks) == Failures(checks[..k]) + Failures(checks[k..])
  {
    assert checks == checks[..k] + checks[k..];
    FailuresConcat(checks[..k], checks[k..]);
  }

  /** The first failing check and the place behind the last one. */
  lemma OuterFailures(checks: seq<Check>) returns (a: nat, b: nat)
    ensures a <= b <= |checks| && HealthyOutside(checks, a, b)
    ensures a < b ==> Fails(checks[a]) && Fails(checks[b - 1])
  {
    a, b := 0, |checks|;
    while a < b && !Fails(checks[a])
      invariant a <= b
      invariant forall k :: 0 <= k < a ==> !Fails(checks[k])
    {
      a := a + 1;
    }
    while a < b && !Fails(checks[b - 1])
      invariant a <= b <= |checks| && HealthyOutside(checks, a, b)
      invariant a < b ==> Fails(checks[a])
    {
      b := b - 1;
    }
  }

  /** As many failures in a row as there are failures, exactly when nothing interrupts them. */
  lemma AllFailuresInARowIff(checks: seq<Check>)
    ensures HasStreak(checks, Failures(checks)) <==> !Interrupted(checks)
  {
    var n := Failures(checks);
    if HasStreak(checks, n) {
      var a: nat, b: nat :| FailThroughout(checks, a, b) && b == a + n;
      FailuresAroundStreak(checks, a, b);
    }
    if !Interrupted(checks) {
      var a, b := OuterFailures(checks);
      UninterruptedFail(checks, a, b);
      FailuresAroundStreak(checks, a, b);
      assert b == a + n;
    }
  }

  lemma UninterruptedFail(checks: seq<Check>, a: nat, b: nat)
    requires a <= b <= |checks| && !Interrupted(checks)
    requires a < b ==> Fails(checks[a]) && Fails(checks[b - 1])
    ensures FailThroughout(checks, a, b)
  {
    forall k | a <= k < b
      ensures Fails(checks[k])
    {
      if a < k < b - 1 {
        assert 0 <= a < k < b - 1 < |checks| && Fails(checks[a]) && Fails(checks[b - 1]);
      }
    }
  }

  /**
   * The check reports the number of failures among the last five as "consecutive". That is true
   * exactly when no healthy check lies between two failing ones of the five.
   */
  lemma ReportedFailuresAreConsecutiveIff(m: Metrics, th: Thresholds, now: int)
    requires Fires(FailingChecks, m, th, now)
    ensures var n := |m.healthChecks|;
            var last := m.healthChecks[n - (if n < 5 then n else 5)..];
            Failures(last) >= 3 && (HasStreak(last, Failures(last)) <==> !Interrupted(last))
  {
    var n := |m.healthChecks|;
    assert LastOf(m.healthChecks, 5) == m.healthChecks[n - (if n < 5 then n else 5)..];
    AllFailuresInARowIff(LastOf(m.healthChecks, 5));
  }

  const FAILED := Sample(false, 0, 10)

  const PASSED := Sample(true, 200, 10)

  /** Failing and healthy checks in turn. */
  const ALTERNATING: seq<Check> :=
    [Check(1, FAILED), Check(2, PASSED), Check(3, FAILED), Check(4, PASSED), Check(5, FAILED)]

  lemma AlternatingHasThreeFailures()
    ensures Failures(ALTERNATING) == 3
    ensures !HasStreak(ALTERNATING, 2)
  {
    var c := ALTERNATING;
    FailuresInThree(c, 1, 2);
    FailuresInThree(c[2..], 1, 2);
    assert c[..1] == [c[0]] && c[1..2] == [c[1]];
    assert c[2..][..1] == [c[2]] && c[2..][1..2] == [c[3]] && c[2..][2..] == [c[4]];
    OneFailure(c[0]);
    OneFailure(c[1]);
    OneFailure(c[2]);
    OneFailure(c[3]);
    OneFailure(c[4]);
    forall a: nat, b: nat | b == a + 2
      ensures !FailThroughout(c, a, b)
    {
      if b <= |c| {
        assert !Fails(c[a]) || !Fails(c[a + 1]);
      }
    }
  }

  lemma OneFailure(c: Check)
    ensures Failures([c]) == if Fails(c) then 1 else 0
  {
    assert [c][..0] == [];
  }

  /** The check fires, and the verdict is critical, though no two failures are adjacent. */
  lemma ScatteredFailuresAreCritical(th: Thresholds, now: int, s: Severity)
    requires IsVerdict(s, Metrics(ALTERNATING, 0, 5, 0), th, now)
    ensures Fires(FailingChecks, Metrics(ALTERNATING, 0, 5, 0), th, now) && s == Critical
    ensures !HasStreak(ALTERNATING, 2)
  {
    AlternatingHasThreeFailures();
    assert LastOf(ALTERNATING, 5) == ALTERNATING;
    assert Fires(FailingChecks, Metrics(ALTERNATING, 0, 5, 0), th, now);
  }

  // ----- What the health endpoint can report -----

  /** The server's status code, or no usable answer (timeout, connection error). */
  datatype Answer = Status(code: int) | NoAnswer

  /** `checkHealthEndpoint` over `fetchJson`, which rejects every status outside 200..399. */
  function CheckHealthEndpoint(answer: Answer, latencyMs: int): Sample {
    match answer
    case Status(code) =>
      if 200 <= code < 400 then Sample(code < 500, code, latencyMs) else Sample(false, 0, latencyMs)
    case NoAnswer => Sample(false, 0, latencyMs)
  }

  /** A check is healthy exactly for a status from 200 to 399, and any other answer counts as status 0. */
  lemma EndpointSample(answer: Answer, latencyMs: int)
    ensures var sample := CheckHealthEndpoint(answer, latencyMs);
            && (sample.healthy <==> answer.Status? && 200 <= answer.code <= 399)
            && sample.statusCode == (if sample.healthy then answer.code else 0)
            && sample.latencyMs == latencyMs
  {}

  ghost predicate FromEndpoint(sample: Sample) {
    exists answer, latencyMs :: sample == CheckHealthEndpoint(answer, latencyMs)
  }

  /**
   * Whatever the server answers, an error status reaches the collector as status 0: on every
   * history of endpoint checks the 5xx counter stays 0, so with non-negative thresholds neither
   * rate check ever fires and the verdict rests on latency and failing checks alone.
   */
  lemma RateChecksNeverFireEndToEnd(first: int, history: seq<Check>, th: Thresholds, now: int)
    requires forall i :: 0 <= i < |history| ==> FromEndpoint(history[i].sample)
    requires th.errorRatePercent >= 0.0 && th.fivexxPerMinute >= 0.0
    ensures var m := Collected(first, history);
            && m.fivexxCount == 0
            && !Fires(HighErrorRate, m, th, now) && !Fires(HighFivexxRate, m, th, now)
  {
    CountersCoverHistory(first, history);
    assert forall i: nat :: i < |history| ==> FromEndpoint(history[i].sample);
    assert ServerErrors(history) == {};
  }

  // ----- The monitor loop -----

  /** One turn of the loop: when the guard is read, what is recorded, when it is assessed. */
  datatype Poll = Poll(guardTime: int, check: Check, assessTime: int)

  /** What the clock and the endpoint will answer during a run. */
  datatype World = World(
    createdTime: int, startTime: int, warmup: nat -> Check, polls: nat -> Poll, finalTime: int)

  const WARMUP: nat := 3

  /** Sleeping a positive poll interval makes the clock advance between two readings of the guard. */
  ghost predicate ClockAdvances(w: World) {
    forall k: nat :: w.polls(k).guardTime < w.polls(k + 1).guardTime
  }

  /** All checks recorded up to and without poll `k`. */
  function History(w: World, k: nat): seq<Check> {
    if k == 0 then WarmupChecks(w, WARMUP) else History(w, k - 1) + [w.polls(k - 1).check]
  }

  function WarmupChecks(w: World, n: nat): seq<Check> {
    if n == 0 then [] else WarmupChecks(w, n - 1) + [w.warmup(n - 1)]
  }

  function MetricsAt(w: World, k: nat): Metrics {
    Collected(w.createdTime, History(w, k))
  }

  /** The assessment after poll `k` found severity `s`. */
  ghost predicate PollVerdict(w: World, th: Thresholds, k: nat, s: Severity) {
    IsVerdict(s, MetricsAt(w, k + 1), th, w.polls(k).assessTime)
  }

  function ExitCode(s: Severity): int {
    match s
    case Healthy => 0
    case Degraded => 1
    case Critical => 2
  }

  function EndTime(w: World, durationMinutes: int): int {
    w.startTime + durationMinutes * 60 * 1000
  }

  lemma HistoryGrows(w: World, k: nat)
    ensures MetricsAt(w, k + 1) == Recorded(MetricsAt(w, k), w.polls(k).check.time, w.polls(k).check.sample)
  {
    var h := History(w, k + 1);
    assert h[..|h| - 1] == History(w, k);
  }

  /** What a run with this exit code and this number of loop turns did. */
  ghost predicate Outcome(w: World, th: Thresholds, durationMinutes: int, exit: int, polls: nat) {
    // The loop body runs only before the end time, and never after a critical poll.
    && (forall k: nat :: k < polls ==> w.polls(k).guardTime < EndTime(w, durationMinutes))
    && (forall k: nat :: k < polls - 1 ==> !PollVerdict(w, th, k, Critical))
    && if polls > 0 && PollVerdict(w, th, polls - 1, Critical) then
         exit == 2
       else
         && w.polls(polls).guardTime >= EndTime(w, durationMinutes)
         && exists s :: IsVerdict(s, MetricsAt(w, polls), th, w.finalTime) && exit == ExitCode(s)
  }

  method Warmup(w: World) returns (metrics: MetricsCollector)
    ensures fresh(metrics) && metrics.Value() == MetricsAt(w, 0)
  {
    metrics := new MetricsCollector(w.createdTime);
    for i := 0 to WARMUP
      invariant fresh(metrics)
      invariant metrics.Value() == Collected(w.createdTime, WarmupChecks(w, i))
    {
      metrics.RecordHealthCheck(w.warmup(i).time, w.warmup(i).sample);
      ghost var h := WarmupChecks(w, i + 1);
      assert h[..|h| - 1] == WarmupChecks(w, i);
    }
  }

  /** The body of the loop: record the check, then assess. */
  method PollOnce(metrics: MetricsCollector, w: World, th: Thresholds, k: nat) returns (status: Severity)
    requires metrics.Value() == MetricsAt(w, k)
    modifies metrics
    ensures metrics.Value() == MetricsAt(w, k + 1)
    ensures PollVerdict(w, th, k, Critical) <==> status == Critical
  {
    var poll := w.polls(k);
    metrics.RecordHealthCheck(poll.check.time, poll.check.sample);
    HistoryGrows(w, k);
    var issues;
    status, issues := AssessHealth(metrics.Value(), th, poll.assessTime);
    OnlyVerdict(w, th, k, status);
  }

  /** The loop: polls until the end time or the first critical assessment. */
  method PollUntil(metrics: MetricsCollector, w: World, th: Thresholds, endTime: int)
    returns (polls: nat, critical: bool)
    requires ClockAdvances(w) && metrics.Value() == MetricsAt(w, 0)
    modifies metrics
    ensures metrics.Value() == MetricsAt(w, polls)
    ensures forall k: nat :: k < polls ==> w.polls(k).guardTime < endTime
    ensures forall k: nat :: k < polls - (if critical then 1 else 0) ==> !PollVerdict(w, th, k, Critical)
    ensures if critical then polls > 0 && PollVerdict(w, th, polls - 1, Critical)
            else w.polls(polls).guardTime >= endTime
  {
    polls, critical := 0, false;
    while w.polls(polls).guardTime < endTime
      invariant metrics.Value() == MetricsAt(w, polls)
      invariant forall k: nat :: k < polls ==> w.polls(k).guardTime < endTime
      invariant forall k: nat :: k < polls ==> !PollVerdict(w, th, k, Critical)
      decreases endTime - w.polls(polls).guardTime
    {
      var status := PollOnce(metrics, w, th, polls);
      polls := polls + 1;
      if status == Critical {
        return polls, true;
      }
    }
  }

  /** `runMonitor`: terminates on an advancing clock. `polls` is how often the loop body ran. */
  method RunMonitor(w: World, th: Thresholds, durationMinutes: int) returns (exit: int, polls: nat)
    requires ClockAdvances(w)
    ensures Outcome(w, th, durationMinutes, exit, polls)
  {
    var metrics := Warmup(w);
    var critical;
    polls, critical := PollUntil(metrics, w, th, w.startTime + durationMinutes * 60 * 1000);
    if critical {
      return 2, polls;
    }
    var final, issues := AssessHealth(metrics.Value(), th, w.finalTime);
    exit := ExitCode(final);
  }

  lemma OnlyVerdict(w: World, th: Thresholds, k: nat, s: Severity)
    requires PollVerdict(w, th, k, s)
    ensures PollVerdict(w, th, k, Critical) <==> s == Critical
  {
    if PollVerdict(w, th, k, Critical) {
      VerdictIsUnique(s, Critical, MetricsAt(w, k + 1), th, w.polls(k).assessTime);
    }
  }

  /**
   * Exit code 0 (promote) means that no poll was critical, that polling went on until the end
   * time, and that the final assessment is healthy; and conversely.
   */
  lemma PromotedIffHealthy(w: World, th: Thresholds, durationMinutes: int, exit: int, polls: nat)
    requires Outcome(w, th, durationMinutes, exit, polls)
    ensures exit == 0 <==>
      && (forall k: nat :: k < polls ==> !PollVerdict(w, th, k, Critical))
      && IsVerdict(Healthy, MetricsAt(w, polls), th, w.finalTime)
  {
    if polls == 0 || !PollVerdict(w, th, polls - 1, Critical) {
      ExitCodeTellsAssessment(w, th, durationMinutes, exit, polls);
    }
  }

  /** Without a critical poll the exit code tells the final assessment, read at or after the end time. */
  lemma ExitCodeTellsAssessment(w: World, th: Thresholds, durationMinutes: int, exit: int, polls: nat)
    requires Outcome(w, th, durationMinutes, exit, polls)
    requires polls > 0 ==> !PollVerdict(w, th, polls - 1, Critical)
    ensures w.polls(polls).guardTime >= w.startTime + 60000 * durationMinutes
    ensures exit == 0 <==> IsVerdict(Healthy, MetricsAt(w, polls), th, w.finalTime)
    ensures exit == 1 <==> IsVerdict(Degraded, MetricsAt(w, polls), th, w.finalTime)
    ensures exit == 2 <==> IsVerdict(Critical, MetricsAt(w, polls), th, w.finalTime)
    ensures exit in {0, 1, 2}
  {
    var s :| IsVerdict(s, MetricsAt(w, polls), th, w.finalTime) && exit == ExitCode(s);
    forall s' | IsVerdict(s', MetricsAt(w, polls), th, w.finalTime)
      ensures s' == s
    {
      VerdictIsUnique(s, s', MetricsAt(w, polls), th, w.finalTime);
    }
  }

  lemma {:induction false} WarmupIsInOrder(w: World, n: nat)
    ensures |WarmupChecks(w, n)| == n && forall i: nat :: i < n ==> WarmupChecks(w, n)[i] == w.warmup(i)
  {
    if n > 0 {
      WarmupIsInOrder(w, n - 1);
    }
  }

  /** What is assessed after k polls: three warm-up checks and then the polled ones, in order. */
  lemma {:induction false} HistoryIsInOrder(w: World, k: nat)
    ensures |History(w, k)| == 3 + k
    ensures forall i: nat :: i < 3 ==> History(w, k)[i] == w.warmup(i)
    ensures forall j: nat :: j < k ==> History(w, k)[3 + j] == w.polls(j).check
  {
    if k > 0 {
      HistoryIsInOrder(w, k - 1);
    } else {
      WarmupIsInOrder(w, WARMUP);
    }
  }

  /** The first critical poll before the end time stops the run with exit code 2. */
  lemma FirstCriticalPollExits(
      w: World, th: Thresholds, durationMinutes: int, exit: int, polls: nat, k: nat)
    requires ClockAdvances(w) && Outcome(w, th, durationMinutes, exit, polls)
    requires forall j: nat :: j <= k ==> w.polls(j).guardTime < w.startTime + 60000 * durationMinutes
    requires PollVerdict(w, th, k, Critical) && forall j: nat :: j < k ==> !PollVerdict(w, th, j, Critical)
    ensures exit == 2 && polls == k + 1
  {
    assert polls > k + 1 ==> k < polls - 1;
  }
}
