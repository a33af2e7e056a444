/** The waits armed along a run: the log of effective taints, the backoff law between consecutive entries,
    its closed form, and the bounds that hold when both configurations share one memory. */
module Backoff {
  import opened Wrappers
  import opened TaintSpec
  import opened TaintRuns
  import opened Arithmetic

  /** One effective taint: when, under which configuration, the wait it armed and the removal it looked at. */
  datatype Record = Record(at: int, cfg: TaintConfig, wait: int, previousRemoval: Option<int>)

  /** The effective taints of a run, in order. */
  function Log(k: Kind, s: State, steps: seq<Step>): seq<Record> {
    if steps == [] then []
    else
      var front := steps[..|steps| - 1];
      var before, after := Run(k, s, front), Run(k, s, steps);
      Log(k, s, front) +
      if !before.isTainted && after.isTainted
      then [Record(steps[|steps| - 1].now, after.config, after.waitTime, before.lastRemoval)] else []
  }

  /** Is the removal at most `reset` before `at`?  The largest Duration is never exceeded. */
  predicate Recent(removal: Option<int>, at: int, reset: int) {
    reset >= TWO_63 - 1 || (removal.Some? && at - removal.value <= reset)
  }

  /** The whole effect of a taint on an untainted checker, in plain arithmetic: more than the reset duration
      after the last removal, or without one, the wait starts again; otherwise it doubles up to the cap.  The
      timer that the checker pointed at is replaced by one due after that wait. */
  lemma TaintExact(s: State, cfg: TaintConfig, now: int)
    requires !s.isTainted
    ensures var t := Taint(s, cfg, now);
      && t.isTainted && t.lastRemoval == Some(now) && t.config == cfg
      && t.waitTime == (if Recent(s.lastRemoval, now, cfg.resetWaitDuration)
                        then Min(Int64(s.waitTime * 2), cfg.maxWaitTime) else cfg.initialWaitTime)
      && t.removalTimer == Some(s.nextTimer) && t.nextTimer > s.nextTimer
      && (forall id :: id in t.pending <==> id == s.nextTimer || (id in s.pending && s.removalTimer != Some(id)))
      && (forall id :: id in t.pending ==>
            t.pending[id] == if id == s.nextTimer then now + t.waitTime else s.pending[id])
      && t.signal == s.signal && t.ethCallCheckCounter == s.ethCallCheckCounter && t.blockNumber == s.blockNumber
    ensures Taint(Taint(s, cfg, now), cfg, now) == Taint(s, cfg, now)
  {
    assert Since(s.lastRemoval, now) <= cfg.resetWaitDuration <==> Recent(s.lastRemoval, now, cfg.resetWaitDuration);
  }

  /** The wait that follows a wait of `previous`. */
  function WaitAfter(previous: int, r: Record): int {
    if Recent(r.previousRemoval, r.at, r.cfg.resetWaitDuration) then
      Min(Int64(previous * 2), r.cfg.maxWaitTime)
    else
      r.cfg.initialWaitTime
  }

  /** The wait in memory when entry `i` of the log is made. */
  function WaitBefore(log: seq<Record>, i: nat): int
    requires i <= |log|
  {
    if i == 0 then INITIAL.waitTime else log[i - 1].wait
  }

  /** `r` looks at a removal that happened after the window of `previous` had passed. */
  predicate FollowsWindow(previous: Record, r: Record) {
    r.previousRemoval.Some? && previous.at + previous.wait <= r.previousRemoval.value <= r.at
  }

  /** The wait of entry `i` follows from its predecessor's, and the window [at, at + wait] of that
      predecessor ended before the removal that entry `i` looks at. */
  predicate LawAt(log: seq<Record>, i: nat)
    requires i < |log|
  {
    && log[i].wait == WaitAfter(WaitBefore(log, i), log[i])
    && if i == 0 then log[i].previousRemoval == None else FollowsWindow(log[i - 1], log[i])
  }

  ghost predicate LogLaw(log: seq<Record>) {
    forall i :: 0 <= i < |log| ==> LawAt(log, i)
  }

  /** How the state at the end of a run continues its log. */
  ghost predicate LogLink(s: State, log: seq<Record>, now: int) {
    if log == [] then s.waitTime == INITIAL.waitTime && s.lastRemoval == None && !s.isTainted
    else
      var last := log[|log| - 1];
      && s.waitTime == last.wait
      && s.lastRemoval.Some?
      && s.lastRemoval.value <= now
      && (if s.isTainted then s.lastRemoval.value == last.at
          else last.at + last.wait <= s.lastRemoval.value)
  }

  lemma CheckTaintsLikeTaint(k: Kind, s: State, a: Answers, now: int)
    requires !s.isTainted
    ensures var t := CheckAndSetHealth(k, s, a, now);
      if t.isTainted then
        t.waitTime == NextWait(s, HEALTH_CHECK_CONFIG, now) && t.lastRemoval == Some(now) &&
        t.config == HEALTH_CHECK_CONFIG
      else t.waitTime == s.waitTime && t.lastRemoval == s.lastRemoval
  {}

  /** What one step does to the taint and its memory: a taint under some configuration arms the next wait, only
      the timer's callback clears it and not before the wait has passed, and nothing else changes it. */
  lemma StepEffect(k: Kind, s: State, st: Step)
    requires TimerInv(s) && Enabled(s, st)
    ensures var t := Apply(k, s, st);
      if !s.isTainted && t.isTainted then
        t.waitTime == NextWait(s, t.config, st.now) && t.lastRemoval == Some(st.now)
      else if s.isTainted && !t.isTainted then
        t.waitTime == s.waitTime && t.lastRemoval == Some(st.now) && s.lastRemoval.Some? &&
        s.lastRemoval.value + s.waitTime <= st.now && st.event.FireEvent?
      else t.waitTime == s.waitTime && t.lastRemoval == s.lastRemoval
  {
    if st.event.CheckEvent? && !s.isTainted {
      CheckTaintsLikeTaint(k, s, st.event.answers, st.now);
    }
  }

  lemma LogExtends(log: seq<Record>, r: Record)
    requires LogLaw(log)
    requires r.wait == WaitAfter(WaitBefore(log, |log|), r)
    requires if log == [] then r.previousRemoval == None else FollowsWindow(log[|log| - 1], r)
    ensures LogLaw(log + [r])
  {
    var longer := log + [r];
    forall i | 0 <= i < |longer| ensures LawAt(longer, i) {
      assert WaitBefore(longer, i) == WaitBefore(log, i);
      if i < |log| {
        assert LawAt(log, i);
      }
    }
  }

  lemma LogStep(k: Kind, s: State, st: Step, log: seq<Record>, now: int)
    requires TimerInv(s) && Enabled(s, st) && LogLaw(log) && LogLink(s, log, now) && now <= st.now
    ensures var t := Apply(k, s, st);
      var log' := log + if !s.isTainted && t.isTainted
                        then [Record(st.now, t.config, t.waitTime, s.lastRemoval)] else [];
      LogLaw(log') && LogLink(t, log', st.now)
  {
    StepEffect(k, s, st);
    var t := Apply(k, s, st);
    if !s.isTainted && t.isTainted {
      var r := Record(st.now, t.config, t.waitTime, s.lastRemoval);
      LogExtends(log, r);
    } else {
      assert log + [] == log;
    }
  }

  /** Every run from the initial state obeys the backoff law. */
  lemma {:induction false} RunObeysLogLaw(k: Kind, steps: seq<Step>)
    requires ValidRun(k, INITIAL, steps)
    ensures LogLaw(Log(k, INITIAL, steps))
    ensures steps != [] ==>
      LogLink(Run(k, INITIAL, steps), Log(k, INITIAL, steps), steps[|steps| - 1].now)
  {
    if steps != [] {
      var n := |steps| - 1;
      ValidPrefix(k, INITIAL, steps, n);
      RunObeysLogLaw(k, steps[..n]);
      RunKeepsTimerInv(k, INITIAL, steps[..n]);
      LogStep(k, Run(k, INITIAL, steps[..n]), steps[n], Log(k, INITIAL, steps[..n]),
              if n == 0 then steps[n].now else steps[n - 1].now);
    }
  }

  // ----- one configuration: the closed form -----------------------------------------------------

  /** Doubling the largest wait fits in an int64, and waits do not start above the cap. */
  predicate Sane(cfg: TaintConfig) {
    0 < cfg.initialWaitTime <= cfg.maxWaitTime && cfg.maxWaitTime * 2 < TWO_63
  }

  /** Entries i, i+1, ... of `burst` are taints under one configuration, the first after the memory expired
      and each later one within the reset time of the removal before it. */
  ghost predicate Burst(burst: seq<Record>, cfg: TaintConfig) {
    forall i :: 0 <= i < |burst| ==>
      && burst[i].cfg == cfg
      && (i == 0 <==> !Recent(burst[i].previousRemoval, burst[i].at, cfg.resetWaitDuration))
  }

  function CappedWait(cfg: TaintConfig, i: nat): int {
    Min(cfg.initialWaitTime * Pow2(i), cfg.maxWaitTime)
  }

  lemma NoWrap(x: int)
    requires -TWO_63 <= x < TWO_63
    ensures Int64(x) == x
  {}

  lemma CappedWaitDoubles(cfg: TaintConfig, i: nat, r: Record)
    requires Sane(cfg) && r.cfg == cfg && Recent(r.previousRemoval, r.at, cfg.resetWaitDuration)
    ensures WaitAfter(CappedWait(cfg, i), r) == CappedWait(cfg, i + 1)
  {
    var x := cfg.initialWaitTime * Pow2(i);
    assert cfg.initialWaitTime * Pow2(i + 1) == 2 * x;
    Pow2Monotone(0, i);
    MulMonotone(cfg.initialWaitTime, 1, Pow2(i));
    NoWrap(2 * CappedWait(cfg, i));
  }

  /** The closed form: the taint number i of a burst (counting from 0) waits min(Initial * 2^i, Max). */
  lemma {:induction false} BackoffClosedForm(log: seq<Record>, from: nat, n: nat, cfg: TaintConfig, i: nat)
    requires LogLaw(log) && Sane(cfg) && from + n <= |log| && Burst(log[from..from + n], cfg) && i < n
    ensures log[from + i].wait == CappedWait(cfg, i)
  {
    assert log[from..from + n][i] == log[from + i];
    assert LawAt(log, from + i);
    if i == 0 {
      assert CappedWait(cfg, 0) == cfg.initialWaitTime;
    } else {
      BackoffClosedForm(log, from, n, cfg, i - 1);
      CappedWaitDoubles(cfg, i - 1, log[from + i]);
      assert WaitBefore(log, from + i) == CappedWait(cfg, i - 1);
    }
  }

  function SumOfWaits(cfg: TaintConfig, n: nat): int {
    if n == 0 then 0 else SumOfWaits(cfg, n - 1) + CappedWait(cfg, n - 1)
  }

  /** The sum of the first n waits, when the cap is reached at the taint number m. */
  lemma {:induction false} SumOfWaitsClosedForm(cfg: TaintConfig, m: nat, n: nat)
    requires Sane(cfg) && m <= n
    requires m > 0 ==> cfg.initialWaitTime * Pow2(m - 1) <= cfg.maxWaitTime
    requires m < n ==> cfg.initialWaitTime * Pow2(m) >= cfg.maxWaitTime
    ensures SumOfWaits(cfg, n) == cfg.initialWaitTime * (Pow2(m) - 1) + (n - m) * cfg.maxWaitTime
  {
    var a, w := cfg.initialWaitTime, cfg.maxWaitTime;
    if n > m {
      SumOfWaitsClosedForm(cfg, m, n - 1);
      Pow2Monotone(m, n - 1);
      MulMonotone(a, Pow2(m), Pow2(n - 1));
      assert CappedWait(cfg, n - 1) == w;
      Distribute(w, n - m - 1, 1);
    } else if n > 0 {
      if n > 1 {
        Pow2Monotone(n - 2, n - 1);
        MulMonotone(a, Pow2(n - 2), Pow2(n - 1));
      }
      SumOfWaitsClosedForm(cfg, n - 1, n - 1);
      assert CappedWait(cfg, n - 1) == a * Pow2(n - 1);
      Distribute(a, Pow2(n - 1) - 1, Pow2(n - 1));
    }
  }

  /** Taint windows are disjoint: from the first taint of a burst to the end of its n-th window at least the
      sum of the n waits passes. */
  lemma {:induction false} BurstSpan(log: seq<Record>, from: nat, n: nat, cfg: TaintConfig)
    requires LogLaw(log) && Sane(cfg) && 0 < n && from + n <= |log| && Burst(log[from..from + n], cfg)
    ensures log[from + n - 1].at + log[from + n - 1].wait - log[from].at >= SumOfWaits(cfg, n)
  {
    BackoffClosedForm(log, from, n, cfg, n - 1);
    if n > 1 {
      assert LawAt(log, from + n - 1);
      assert log[from..from + n - 1] == log[from..from + n][..n - 1];
      BurstSpan(log, from, n - 1, cfg);
    } else {
      assert SumOfWaits(cfg, 1) == SumOfWaits(cfg, 0) + CappedWait(cfg, 0);
    }
  }

  /** In every run: n taints of one burst take at least Initial * (2^m - 1) + (n - m) * Max. */
  lemma BurstInRun(k: Kind, steps: seq<Step>, from: nat, n: nat, m: nat, cfg: TaintConfig)
    requires ValidRun(k, INITIAL, steps) && Sane(cfg) && 0 < n && m <= n
    requires from + n <= |Log(k, INITIAL, steps)| && Burst(Log(k, INITIAL, steps)[from..from + n], cfg)
    requires m > 0 ==> cfg.initialWaitTime * Pow2(m - 1) <= cfg.maxWaitTime
    requires m < n ==> cfg.initialWaitTime * Pow2(m) >= cfg.maxWaitTime
    ensures var log := Log(k, INITIAL, steps);
      log[from + n - 1].at + log[from + n - 1].wait - log[from].at >=
      cfg.initialWaitTime * (Pow2(m) - 1) + (n - m) * cfg.maxWaitTime
  {
    RunObeysLogLaw(k, steps);
    BurstSpan(Log(k, INITIAL, steps), from, n, cfg);
    SumOfWaitsClosedForm(cfg, m, n);
  }

  /** Entries from..from + n are taints under `cfg`, the first with no removal in the `reset` nanoseconds before
      it and each later one with the removal before it in that time. */
  ghost predicate BurstWithin(log: seq<Record>, from: nat, n: nat, cfg: TaintConfig, reset: int) {
    && from + n <= |log|
    && forall i :: from <= i < from + n ==>
      && log[i].cfg == cfg
      && (if i == from then log[i].previousRemoval.Some? ==> log[i].at - log[i].previousRemoval.value > reset
          else log[i].previousRemoval.Some? && log[i].at - log[i].previousRemoval.value <= reset)
  }

  lemma WithinIsBurst(log: seq<Record>, from: nat, n: nat, cfg: TaintConfig)
    requires BurstWithin(log, from, n, cfg, cfg.resetWaitDuration) && cfg.resetWaitDuration < TWO_63 - 1
    ensures Burst(log[from..from + n], cfg)
  {
    var burst := log[from..from + n];
    forall i | 0 <= i < n
      ensures burst[i].cfg == cfg && (i == 0 <==> !Recent(burst[i].previousRemoval, burst[i].at, cfg.resetWaitDuration))
    {
      assert burst[i] == log[from + i];
    }
  }

  lemma CapReached(cfg: TaintConfig, m: nat, i: nat)
    requires Sane(cfg) && m <= i && cfg.initialWaitTime * Pow2(m) >= cfg.maxWaitTime
    ensures CappedWait(cfg, i) == cfg.maxWaitTime
  {
    Pow2Monotone(m, i);
    MulMonotone(cfg.initialWaitTime, Pow2(m), Pow2(i));
  }

  lemma HTTPWait(i: nat)
    ensures CappedWait(HTTP_CONFIG, i) == 1_000_000_000 * if i < 3 then [10, 20, 40][i] else 60
  {
    assert Pow2(1) == 2 && Pow2(2) == 4 && Pow2(3) == 8;
    if i >= 3 {
      CapReached(HTTP_CONFIG, 3, i);
    }
  }

  lemma HealthCheckWait(i: nat)
    ensures CappedWait(HEALTH_CHECK_CONFIG, i) ==
            1_000_000_000 * if i < 6 then [30, 60, 120, 240, 480, 960][i] else 1200
  {
    assert Pow2(1) == 2 && Pow2(2) == 4 && Pow2(3) == 8 && Pow2(4) == 16 && Pow2(5) == 32 && Pow2(6) == 64;
    if i >= 6 {
      CapReached(HEALTH_CHECK_CONFIG, 6, i);
    }
  }

  lemma BurstInRunWaits(k: Kind, steps: seq<Step>, from: nat, n: nat, cfg: TaintConfig, i: nat)
    requires ValidRun(k, INITIAL, steps) && i < n && Sane(cfg) && cfg.resetWaitDuration < TWO_63 - 1
    requires BurstWithin(Log(k, INITIAL, steps), from, n, cfg, cfg.resetWaitDuration)
    ensures Log(k, INITIAL, steps)[from + i].wait == CappedWait(cfg, i)
  {
    var log := Log(k, INITIAL, steps);
    RunObeysLogLaw(k, steps);
    WithinIsBurst(log, from, n, cfg);
    BackoffClosedForm(log, from, n, cfg, i);
  }

  /** In every run, HTTP taints that follow removals within 20 seconds wait 10, 20, 40 and then always 60
      seconds. */
  lemma HTTPBurstWaits(k: Kind, steps: seq<Step>, from: nat, n: nat, i: nat)
    requires ValidRun(k, INITIAL, steps) && i < n
    requires BurstWithin(Log(k, INITIAL, steps), from, n, HTTP_CONFIG, 20_000_000_000)
    ensures Log(k, INITIAL, steps)[from + i].wait ==
            1_000_000_000 * if i < 3 then [10, 20, 40][i] else 60
  {
    BurstInRunWaits(k, steps, from, n, HTTP_CONFIG, i);
    HTTPWait(i);
  }

  /** In every run, health-check taints that follow removals within 5 minutes wait 30 seconds, 1, 2, 4, 8 and
      16 minutes and then always 20 minutes. */
  lemma HealthCheckBurstWaits(k: Kind, steps: seq<Step>, from: nat, n: nat, i: nat)
    requires ValidRun(k, INITIAL, steps) && i < n
    requires BurstWithin(Log(k, INITIAL, steps), from, n, HEALTH_CHECK_CONFIG, 300_000_000_000)
    ensures Log(k, INITIAL, steps)[from + i].wait ==
            1_000_000_000 * if i < 6 then [30, 60, 120, 240, 480, 960][i] else 1200
  {
    BurstInRunWaits(k, steps, from, n, HEALTH_CHECK_CONFIG, i);
    HealthCheckWait(i);
  }

  // ----- both configurations --------------------------------------------------------------------

  predicate GatewayConfig(cfg: TaintConfig) {
    cfg == HTTP_CONFIG || cfg == HEALTH_CHECK_CONFIG
  }

  /** The gateway taints only under its two configurations. */
  ghost predicate GatewayRun(steps: seq<Step>) {
    forall i :: 0 <= i < |steps| && steps[i].event.TaintEvent? ==> GatewayConfig(steps[i].event.cfg)
  }

  predicate WaitInRange(w: int) {
    10 * SECOND <= w <= 20 * MINUTE
  }

  lemma NextWaitInRange(s: State, cfg: TaintConfig, now: int)
    requires WaitInRange(s.waitTime) && GatewayConfig(cfg)
    ensures Int64(s.waitTime * 2) == s.waitTime * 2
    ensures WaitInRange(NextWait(s, cfg, now)) && NextWait(s, cfg, now) <= cfg.maxWaitTime
    ensures NextWait(s, cfg, now) < cfg.initialWaitTime <==>
      cfg == HEALTH_CHECK_CONFIG && s.lastRemoval.Some? && now - s.lastRemoval.value <= 5 * MINUTE &&
      s.waitTime < 15 * SECOND
  {
    NoWrap(s.waitTime * 2);
  }

  /** Over every interleaving of the two configurations the shared wait stays between 10 seconds and 20
      minutes, its doubling never wraps, and every armed wait respects the cap of its own configuration. */
  lemma {:induction false} MixedConfigBounds(k: Kind, steps: seq<Step>)
    requires ValidRun(k, INITIAL, steps) && GatewayRun(steps)
    ensures var s := Run(k, INITIAL, steps);
      WaitInRange(s.waitTime) && Int64(s.waitTime * 2) == s.waitTime * 2
    ensures forall i :: 0 <= i < |Log(k, INITIAL, steps)| ==>
      var r := Log(k, INITIAL, steps)[i];
      GatewayConfig(r.cfg) && WaitInRange(r.wait) && r.wait <= r.cfg.maxWaitTime
  {
    if steps != [] {
      var n := |steps| - 1;
      ValidPrefix(k, INITIAL, steps, n);
      MixedConfigBounds(k, steps[..n]);
      RunKeepsTimerInv(k, INITIAL, steps[..n]);
      var s, st := Run(k, INITIAL, steps[..n]), steps[n];
      StepEffect(k, s, st);
      var t := Apply(k, s, st);
      if !s.isTainted && t.isTainted {
        if st.event.CheckEvent? { CheckTaintsLikeTaint(k, s, st.event.answers, st.now); }
        NextWaitInRange(s, t.config, st.now);
      }
      NoWrap(t.waitTime * 2);
    }
  }

  /** A health-check taint can wait less than its own initial 30 seconds: after one 10-second HTTP taint it
      waits 20. */
  lemma HealthCheckWaitBelowInitial(k: Kind)
    ensures var s1 := Taint(INITIAL, HTTP_CONFIG, 0);
      var s2 := FireTimer(s1, 0, 10 * SECOND);
      s2 == Run(k, INITIAL, [Step(0, TaintEvent(HTTP_CONFIG)), Step(10 * SECOND, FireEvent(0))]) &&
      Taint(s2, HEALTH_CHECK_CONFIG, 10 * SECOND).waitTime == 20 * SECOND < HEALTH_CHECK_CONFIG.initialWaitTime
  {
    var steps := [Step(0, TaintEvent(HTTP_CONFIG)), Step(10 * SECOND, FireEvent(0))];
    assert steps[..0] == [] && steps[..2] == steps;
    RunPrefix(k, INITIAL, steps, 0);
    RunPrefix(k, INITIAL, steps, 1);
    NoWrap(20 * SECOND);
  }
}
