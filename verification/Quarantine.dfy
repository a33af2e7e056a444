/** The whole gateway over HTTP: requests with failover, check cycles and taint timers as atomic steps on the
    checkers of distinctly named providers. */
module Quarantine {
  import opened Wrappers
  import opened TaintSpec
  import opened TaintRuns
  import opened FailoverSpec
  import opened Backoff

  datatype GatewayEvent =
    | Request(ups: seq<Upstream>)             // ups[p] is what happens if provider p is tried
    | CheckCycle(p: nat, answers: Answers)
    | OtherTaint(p: nat, cfg: TaintConfig)    // a lag verdict of another checker
    | TimerFires(p: nat, id: nat)
    | SignalRead(p: nat)
    | StopCalled(p: nat)

  datatype GatewayStep = GatewayStep(now: int, event: GatewayEvent)

  function Flags(checkers: seq<State>): seq<bool> {
    seq(|checkers|, p requires 0 <= p < |checkers| => !checkers[p].isTainted)
  }

  /** How a request is served. */
  function Serve(checkers: seq<State>, ups: seq<Upstream>): Served
    requires |ups| == |checkers|
  {
    ServeHTTP(FRESH, true, Healthy(Flags(checkers)), ups)
  }

  predicate Fits(checkers: seq<State>, st: GatewayStep) {
    match st.event
    case Request(ups) => |ups| == |checkers|
    case _ => st.event.p < |checkers|
  }

  /** What a gateway step is for the checker of provider p. */
  function Local(checkers: seq<State>, st: GatewayStep, p: nat): Option<Step>
    requires Fits(checkers, st) && p < |checkers|
  {
    match st.event
    case Request(ups) =>
      if p in Serve(checkers, ups).tainted then Some(Step(st.now, TaintEvent(HTTP_CONFIG))) else None
    case CheckCycle(q, answers) => if q == p then Some(Step(st.now, CheckEvent(answers))) else None
    case OtherTaint(q, cfg) => if q == p then Some(Step(st.now, TaintEvent(cfg))) else None
    case TimerFires(q, id) => if q == p then Some(Step(st.now, FireEvent(id))) else None
    case SignalRead(q) => if q == p then Some(Step(st.now, DrainEvent)) else None
    case StopCalled(q) => if q == p then Some(Step(st.now, StopEvent)) else None
  }

  function Next(kinds: seq<Kind>, checkers: seq<State>, st: GatewayStep): seq<State>
    requires Fits(checkers, st) && |kinds| == |checkers|
  {
    seq(|checkers|, p requires 0 <= p < |checkers| =>
      var local := Local(checkers, st, p);
      if local.None? then checkers[p] else Apply(kinds[p], checkers[p], local.value))
  }

  /** Does the step send something to provider p: a forwarded request or a probe? */
  predicate Contacts(kinds: seq<Kind>, checkers: seq<State>, st: GatewayStep, p: nat)
    requires Fits(checkers, st) && |kinds| == |checkers| && p < |checkers|
  {
    match st.event
    case Request(ups) => p in Serve(checkers, ups).tried
    case CheckCycle(q, answers) => q == p && Probes(kinds[p], checkers[p], answers, st.now) != []
    case _ => false
  }

  /** A run of the gateway: `worlds[i]` are the checkers before step i. */
  ghost predicate GatewayExecution(kinds: seq<Kind>, steps: seq<GatewayStep>, worlds: seq<seq<State>>) {
    && |worlds| == |steps| + 1
    && worlds[0] == seq(|kinds|, _ => INITIAL)
    && forall i :: 0 <= i < |steps| ==> StepAt(kinds, steps, worlds, i)
  }

  ghost predicate StepAt(kinds: seq<Kind>, steps: seq<GatewayStep>, worlds: seq<seq<State>>, i: nat)
    requires |worlds| == |steps| + 1 && i < |steps|
  {
    && |worlds[i]| == |kinds| && Fits(worlds[i], steps[i])
    && (forall p :: 0 <= p < |kinds| ==> LocallyEnabled(worlds[i], steps[i], p))
    && (i > 0 ==> steps[i - 1].now <= steps[i].now)
    && (steps[i].event.OtherTaint? ==> GatewayConfig(steps[i].event.cfg))
    && worlds[i + 1] == Next(kinds, worlds[i], steps[i])
  }

  ghost predicate LocallyEnabled(checkers: seq<State>, st: GatewayStep, p: nat)
    requires Fits(checkers, st) && p < |checkers|
  {
    Local(checkers, st, p).Some? ==> Enabled(checkers[p], Local(checkers, st, p).value)
  }

  /** What step i of a run is for provider p. */
  ghost function LocalAt(steps: seq<GatewayStep>, worlds: seq<seq<State>>, p: nat, i: nat): Option<Step>
    requires i < |steps| < |worlds|
  {
    if Fits(worlds[i], steps[i]) && p < |worlds[i]| then Local(worlds[i], steps[i], p) else None
  }

  ghost function AppendLocal(run: seq<Step>, local: Option<Step>): seq<Step> {
    if local.Some? then run + [local.value] else run
  }

  /** The steps of a gateway run that concern provider p. */
  ghost function Projection(steps: seq<GatewayStep>, worlds: seq<seq<State>>, p: nat, n: nat): seq<Step>
    requires n <= |steps| < |worlds|
  {
    if n == 0 then []
    else AppendLocal(Projection(steps, worlds, p, n - 1), LocalAt(steps, worlds, p, n - 1))
  }

  lemma WorldFits(kinds: seq<Kind>, steps: seq<GatewayStep>, worlds: seq<seq<State>>, i: nat)
    requires GatewayExecution(kinds, steps, worlds) && i <= |steps|
    ensures |worlds[i]| == |kinds| && (i < |steps| ==> Fits(worlds[i], steps[i]))
  {
    if i < |steps| {
      assert StepAt(kinds, steps, worlds, i);
    } else if i > 0 {
      assert StepAt(kinds, steps, worlds, i - 1);
    }
  }

  /** A run of one checker up to time `now` that ends in state `s`. */
  ghost predicate CheckerRun(k: Kind, run: seq<Step>, s: State, now: int) {
    && ValidRun(k, INITIAL, run) && GatewayRun(run)
    && Run(k, INITIAL, run) == s
    && (run != [] ==> run[|run| - 1].now <= now)
  }

  lemma ExtendRun(k: Kind, run: seq<Step>, s: State, st: Step, now: int)
    requires CheckerRun(k, run, s, now) && now <= st.now
    requires Enabled(s, st)
    requires st.event.TaintEvent? ==> GatewayConfig(st.event.cfg)
    ensures CheckerRun(k, run + [st], Apply(k, s, st), st.now)
  {
    var longer := run + [st];
    assert longer[..|run|] == run;
    forall i | 0 <= i < |longer|
      ensures Enabled(Run(k, INITIAL, longer[..i]), longer[i]) && (i > 0 ==> longer[i - 1].now <= longer[i].now)
    {
      if i < |run| {
        assert longer[..i] == run[..i];
      }
    }
  }

  /** The time of the step before world n. */
  function Clock(steps: seq<GatewayStep>, n: nat): int
    requires n <= |steps|
  {
    if n > 0 then steps[n - 1].now else if steps != [] then steps[0].now else 0
  }

  /** The checker goes from s to t by `local`, or stays. */
  ghost predicate LocalStep(k: Kind, s: State, t: State, local: Option<Step>, now: int) {
    if local.None? then t == s
    else
      var st := local.value;
      && st.now == now && Enabled(s, st) && t == Apply(k, s, st)
      && (st.event.TaintEvent? ==> GatewayConfig(st.event.cfg))
  }

  lemma LocalStepFacts(
    kinds: seq<Kind>, steps: seq<GatewayStep>, worlds: seq<seq<State>>, p: nat, n: nat)
    requires GatewayExecution(kinds, steps, worlds) && p < |kinds| && n < |steps|
    ensures |worlds[n]| == |worlds[n + 1]| == |kinds|
    ensures Clock(steps, n) <= steps[n].now
    ensures LocalStep(kinds[p], worlds[n][p], worlds[n + 1][p], LocalAt(steps, worlds, p, n), steps[n].now)
  {
    assert StepAt(kinds, steps, worlds, n);
    assert LocallyEnabled(worlds[n], steps[n], p);
  }

  lemma ExtendByLocal(
    k: Kind, run: seq<Step>, longer: seq<Step>, s: State, t: State, local: Option<Step>, clock: int, now: int)
    requires CheckerRun(k, run, s, clock) && clock <= now && LocalStep(k, s, t, local, now)
    requires longer == AppendLocal(run, local)
    ensures CheckerRun(k, longer, t, now)
  {
    if local.Some? {
      ExtendRun(k, run, s, local.value, clock);
    }
  }

  lemma EmptyRun(k: Kind, now: int)
    ensures CheckerRun(k, [], INITIAL, now)
  {}

  lemma ProjectsFurther(kinds: seq<Kind>, steps: seq<GatewayStep>, worlds: seq<seq<State>>, p: nat, n: nat)
    requires GatewayExecution(kinds, steps, worlds) && p < |kinds| && n < |steps| && |worlds[n]| == |kinds|
    requires CheckerRun(kinds[p], Projection(steps, worlds, p, n), worlds[n][p], Clock(steps, n))
    ensures |worlds[n + 1]| == |kinds|
    ensures CheckerRun(kinds[p], Projection(steps, worlds, p, n + 1), worlds[n + 1][p], Clock(steps, n + 1))
  {
    LocalStepFacts(kinds, steps, worlds, p, n);
    ExtendByLocal(
      kinds[p], Projection(steps, worlds, p, n), Projection(steps, worlds, p, n + 1), worlds[n][p], worlds[n + 1][p],
      LocalAt(steps, worlds, p, n), Clock(steps, n), Clock(steps, n + 1));
  }

  /** Every gateway run restricted to one provider is a valid run of its checker under the gateway's two
      configurations, so everything proved about single checkers holds for each of them. */
  lemma {:induction false} GatewayProjects(
    kinds: seq<Kind>, steps: seq<GatewayStep>, worlds: seq<seq<State>>, p: nat, n: nat)
    requires GatewayExecution(kinds, steps, worlds) && p < |kinds| && n <= |steps|
    ensures |worlds[n]| == |kinds|
    ensures CheckerRun(kinds[p], Projection(steps, worlds, p, n), worlds[n][p], Clock(steps, n))
  {
    if n == 0 {
      EmptyRun(kinds[p], Clock(steps, 0));
    } else {
      GatewayProjects(kinds, steps, worlds, p, n - 1);
      ProjectsFurther(kinds, steps, worlds, p, n - 1);
    }
  }

  lemma CheckerKeepsTimerInv(
    kinds: seq<Kind>, steps: seq<GatewayStep>, worlds: seq<seq<State>>, p: nat, n: nat)
    requires GatewayExecution(kinds, steps, worlds) && p < |kinds| && n <= |steps|
    ensures |worlds[n]| == |kinds| && TimerInv(worlds[n][p])
  {
    GatewayProjects(kinds, steps, worlds, p, n);
    RunKeepsTimerInv(kinds[p], INITIAL, Projection(steps, worlds, p, n));
  }

  /** A tainted provider receives neither a request nor a probe. */
  lemma OnlyHealthyContacted(kinds: seq<Kind>, checkers: seq<State>, st: GatewayStep, p: nat)
    requires Fits(checkers, st) && |kinds| == |checkers| && p < |checkers|
    requires Contacts(kinds, checkers, st, p)
    ensures !checkers[p].isTainted
  {
    if st.event.Request? {
      FailoverTrace(Flags(checkers), st.event.ups);
      HealthyIsOrderedFilter(Flags(checkers));
      var tried := Serve(checkers, st.event.ups).tried;
      var i :| 0 <= i < |tried| && tried[i] == p;
      assert Healthy(Flags(checkers))[i] == p;
      assert p in Healthy(Flags(checkers));
    }
  }

  /** The taint of p at time t with wait w is still in force. */
  ghost predicate InForce(s: State, t: int, w: int) {
    s.isTainted && s.lastRemoval == Some(t) && s.waitTime == w
  }

  lemma {:induction false} InForceUntilDue(
    kinds: seq<Kind>, steps: seq<GatewayStep>, worlds: seq<seq<State>>, p: nat, i: nat, t: int, w: int, j: nat)
    requires GatewayExecution(kinds, steps, worlds) && p < |kinds| && i < j <= |steps|
    requires |worlds[i + 1]| == |kinds| && InForce(worlds[i + 1][p], t, w)
    ensures |worlds[j]| == |kinds|
    ensures InForce(worlds[j][p], t, w) || (j > 0 && t + w <= steps[j - 1].now)
  {
    WorldFits(kinds, steps, worlds, j);
    if j > i + 1 {
      InForceUntilDue(kinds, steps, worlds, p, i, t, w, j - 1);
      CheckerKeepsTimerInv(kinds, steps, worlds, p, j - 1);
      LocalStepFacts(kinds, steps, worlds, p, j - 1);
      var local := LocalAt(steps, worlds, p, j - 1);
      if local.Some? {
        StepEffect(kinds[p], worlds[j - 1][p], local.value);
      }
    }
  }

  /** Quarantine: once a step taints provider p, no request is forwarded to p and no probe is sent to it over
      HTTP before the wait that the taint armed has passed, and that wait is at least ten seconds. */
  lemma QuarantineHolds(
    kinds: seq<Kind>, steps: seq<GatewayStep>, worlds: seq<seq<State>>, p: nat, i: nat, j: nat)
    requires GatewayExecution(kinds, steps, worlds) && p < |kinds| && i < j < |steps|
    requires |worlds[i]| == |worlds[i + 1]| == |worlds[j]| == |kinds| && Fits(worlds[j], steps[j])
    requires !worlds[i][p].isTainted && worlds[i + 1][p].isTainted
    requires Contacts(kinds, worlds[j], steps[j], p)
    ensures steps[i].now + worlds[i + 1][p].waitTime <= steps[j].now
    ensures worlds[i + 1][p].waitTime >= 10 * SECOND
  {
    var w := worlds[i + 1][p].waitTime;
    CheckerKeepsTimerInv(kinds, steps, worlds, p, i);
    LocalStepFacts(kinds, steps, worlds, p, i);
    StepEffect(kinds[p], worlds[i][p], LocalAt(steps, worlds, p, i).value);
    GatewayProjects(kinds, steps, worlds, p, i + 1);
    MixedConfigBounds(kinds[p], Projection(steps, worlds, p, i + 1));
    InForceUntilDue(kinds, steps, worlds, p, i, steps[i].now, w, j);
    OnlyHealthyContacted(kinds, worlds[j], steps[j], p);
    LocalStepFacts(kinds, steps, worlds, p, j);
  }

  /** A provider whose checker is stranded is never contacted over HTTP again. */
  lemma {:induction false} StrandedNeverContacted(
    kinds: seq<Kind>, steps: seq<GatewayStep>, worlds: seq<seq<State>>, p: nat, i: nat, j: nat)
    requires GatewayExecution(kinds, steps, worlds) && p < |kinds| && i <= j < |steps|
    requires |worlds[i]| == |kinds| && Stranded(worlds[i][p])
    ensures |worlds[j]| == |kinds| && Fits(worlds[j], steps[j])
    ensures Stranded(worlds[j][p]) && !Contacts(kinds, worlds[j], steps[j], p)
  {
    WorldFits(kinds, steps, worlds, j);
    if j > i {
      StrandedNeverContacted(kinds, steps, worlds, p, i, j - 1);
      CheckerKeepsTimerInv(kinds, steps, worlds, p, j - 1);
      LocalStepFacts(kinds, steps, worlds, p, j - 1);
      var local := LocalAt(steps, worlds, p, j - 1);
      if local.Some? {
        StrandedStep(kinds[p], worlds[j - 1][p], local.value);
      }
    }
    if Contacts(kinds, worlds[j], steps[j], p) {
      OnlyHealthyContacted(kinds, worlds[j], steps[j], p);
    }
  }
}
