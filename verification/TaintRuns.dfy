/** Runs of one checker: every interleaving of whole-method steps, and what all of them keep. */
module TaintRuns {
  import opened Arithmetic
  import opened Wrappers
  import opened TaintSpec

  datatype Event =
    | TaintEvent(cfg: TaintConfig)
    | FireEvent(id: nat)
    | DrainEvent
    | StopEvent
    | CheckEvent(answers: Answers)

  datatype Step = Step(now: int, event: Event)

  /** A timer fires only when armed and due; a signal is received only when one is waiting. */
  predicate Enabled(s: State, st: Step) {
    match st.event
    case FireEvent(id) => id in s.pending && s.pending[id] <= st.now
    case DrainEvent => s.signal
    case _ => true
  }

  function Apply(k: Kind, s: State, st: Step): State {
    match st.event
    case TaintEvent(cfg) => Taint(s, cfg, st.now)
    case FireEvent(id) => FireTimer(s, id, st.now)
    case DrainEvent => DrainSignal(s)
    case StopEvent => Stop(s)
    case CheckEvent(a) => CheckAndSetHealth(k, s, a, st.now)
  }

  function Run(k: Kind, s: State, steps: seq<Step>): State {
    if steps == [] then s
    else Apply(k, Run(k, s, steps[..|steps| - 1]), steps[|steps| - 1])
  }

  /** Every step is enabled where it is taken and the clock never runs backwards. */
  ghost predicate ValidRun(k: Kind, s: State, steps: seq<Step>) {
    forall i :: 0 <= i < |steps| ==>
      Enabled(Run(k, s, steps[..i]), steps[i]) && (i > 0 ==> steps[i - 1].now <= steps[i].now)
  }

  /** The probes one step sends. */
  function StepProbes(k: Kind, s: State, st: Step): seq<Probe> {
    if st.event.CheckEvent? then Probes(k, s, st.event.answers, st.now) else []
  }

  /** The probes sent along a run. */
  function ProbesSent(k: Kind, s: State, steps: seq<Step>): seq<Probe> {
    if steps == [] then []
    else
      var front := steps[..|steps| - 1];
      ProbesSent(k, s, front) + StepProbes(k, Run(k, s, front), steps[|steps| - 1])
  }

  lemma ValidPrefix(k: Kind, s: State, steps: seq<Step>, n: nat)
    requires ValidRun(k, s, steps) && n <= |steps|
    ensures ValidRun(k, s, steps[..n])
  {
    forall i | 0 <= i < n ensures steps[..n][..i] == steps[..i] {}
  }

  lemma RunPrefix(k: Kind, s: State, steps: seq<Step>, n: nat)
    requires n < |steps|
    ensures Run(k, s, steps[..n + 1]) == Apply(k, Run(k, s, steps[..n]), steps[n])
  {
    assert steps[..n + 1][..n] == steps[..n];
  }

  // ----- timers ---------------------------------------------------------------------------------

  /** The checker points at a timer exactly when one is armed; then it is the only one, the checker is
      tainted, and the timer is due when the recorded taint time plus the wait has passed. */
  ghost predicate TimerInv(s: State) {
    match s.removalTimer
    case None => s.pending == map[]
    case Some(id) =>
      && s.isTainted
      && id < s.nextTimer
      && s.lastRemoval.Some?
      && s.pending == map[id := s.lastRemoval.value + s.waitTime]
  }

  lemma TaintKeepsTimerInv(s: State, cfg: TaintConfig, now: int)
    requires TimerInv(s)
    ensures TimerInv(Taint(s, cfg, now))
  {
    assert StopRemovalTimer(s) == map[];
  }

  lemma StepKeepsTimerInv(k: Kind, s: State, st: Step)
    requires TimerInv(s) && Enabled(s, st)
    ensures TimerInv(Apply(k, s, st))
  {
    match st.event
    case TaintEvent(cfg) => TaintKeepsTimerInv(s, cfg, st.now);
    case FireEvent(id) => assert s.pending - {id} == map[];
    case DrainEvent => assert StopRemovalTimer(s) == map[];
    case StopEvent =>
    case CheckEvent(a) => CheckKeepsTimerInv(k, s, a, st.now);
  }

  lemma CheckKeepsTimerInv(k: Kind, s: State, a: Answers, now: int)
    requires TimerInv(s)
    ensures TimerInv(CheckAndSetHealth(k, s, a, now))
  {
    if !s.isTainted {
      var b := if a.block.None? then s else s.(blockNumber := a.block.value);
      TaintKeepsTimerInv(b, HEALTH_CHECK_CONFIG, now);
      var s' := CheckBlockNumber(s, a, now);
      TaintKeepsTimerInv(s'.(ethCallCheckCounter := BumpCounter(s')), HEALTH_CHECK_CONFIG, now);
    }
  }

  lemma {:induction false} RunKeepsTimerInv(k: Kind, s: State, steps: seq<Step>)
    requires TimerInv(s) && ValidRun(k, s, steps)
    ensures TimerInv(Run(k, s, steps))
  {
    if steps != [] {
      var n := |steps| - 1;
      ValidPrefix(k, s, steps, n);
      RunKeepsTimerInv(k, s, steps[..n]);
      StepKeepsTimerInv(k, Run(k, s, steps[..n]), steps[n]);
    }
  }

  /** Over all runs: at most one live timer, a live timer implies tainted, and it is due at
      lastRemoval + waitTime. */
  lemma TimerSafety(k: Kind, steps: seq<Step>)
    requires ValidRun(k, INITIAL, steps)
    ensures var s := Run(k, INITIAL, steps);
      && |s.pending| <= 1
      && (s.pending != map[] ==> s.isTainted && s.lastRemoval.Some?)
      && forall id :: id in s.pending ==> s.removalTimer == Some(id) && s.pending[id] == s.lastRemoval.value + s.waitTime
  {
    RunKeepsTimerInv(k, INITIAL, steps);
  }

  // ----- the stranded state ---------------------------------------------------------------------

  /** Tainted with no timer left to clear it. */
  ghost predicate Stranded(s: State) {
    s.isTainted && s.pending == map[]
  }

  lemma StrandedStep(k: Kind, s: State, st: Step)
    requires TimerInv(s) && Enabled(s, st)
    ensures Stranded(Apply(k, s, st)) <==> Stranded(s) || (st.event.DrainEvent? && s.isTainted)
  {
    StepKeepsTimerInv(k, s, st);
    match st.event
    case DrainEvent => assert StopRemovalTimer(s) == map[];
    case TaintEvent(cfg) => if !s.isTainted { assert s.nextTimer in Taint(s, cfg, st.now).pending; }
    case FireEvent(id) =>
    case StopEvent =>
    case CheckEvent(a) => if !s.isTainted { ArmedByCheck(k, s, a, st.now); }
  }

  lemma ArmedByCheck(k: Kind, s: State, a: Answers, now: int)
    requires !s.isTainted
    ensures var t := CheckAndSetHealth(k, s, a, now); t.isTainted ==> t.pending != map[]
  {
    var s' := CheckBlockNumber(s, a, now);
    if s'.isTainted {
      assert s.nextTimer in s'.pending;
    } else {
      var t := CheckEthCall(k, s', a.ethCallOk, now);
      if t.isTainted { assert s'.nextTimer in t.pending; }
    }
  }

  /** Does step `i` receive a signal while the checker is tainted? */
  predicate DrainsTaintedAt(k: Kind, s: State, steps: seq<Step>, i: nat)
    requires i < |steps|
  {
    steps[i].event.DrainEvent? && Run(k, s, steps[..i]).isTainted
  }

  ghost predicate DrainsTainted(k: Kind, s: State, steps: seq<Step>) {
    exists i :: 0 <= i < |steps| && DrainsTaintedAt(k, s, steps, i)
  }

  lemma DrainsTaintedFront(k: Kind, s: State, steps: seq<Step>)
    requires steps != []
    ensures DrainsTainted(k, s, steps) <==>
      DrainsTainted(k, s, steps[..|steps| - 1]) || DrainsTaintedAt(k, s, steps, |steps| - 1)
  {
    var n := |steps| - 1;
    forall i | 0 <= i < n ensures DrainsTaintedAt(k, s, steps[..n], i) == DrainsTaintedAt(k, s, steps, i) {
      assert steps[..n][..i] == steps[..i];
    }
  }

  /** Exactly which runs strand a checker: those that receive a signal while it is tainted. */
  lemma {:induction false} StrandedIffDrainedWhileTainted(k: Kind, s: State, steps: seq<Step>)
    requires TimerInv(s) && !Stranded(s) && ValidRun(k, s, steps)
    ensures Stranded(Run(k, s, steps)) <==> DrainsTainted(k, s, steps)
  {
    if steps != [] {
      var n := |steps| - 1;
      ValidPrefix(k, s, steps, n);
      RunKeepsTimerInv(k, s, steps[..n]);
      StrandedIffDrainedWhileTainted(k, s, steps[..n]);
      DrainsTaintedFront(k, s, steps);
      StrandedStep(k, Run(k, s, steps[..n]), steps[n]);
    }
  }

  /** Does step `i` take the checker from untainted to tainted? */
  ghost predicate TaintsAt(k: Kind, s: State, steps: seq<Step>, i: nat)
    requires i < |steps|
  {
    !Run(k, s, steps[..i]).isTainted && Run(k, s, steps[..i + 1]).isTainted
  }

  /** The discipline under which the signal channel never disarms a live taint: no stale signal waits when
      a taint begins, and Stop is not called while tainted. */
  ghost predicate Disciplined(k: Kind, s: State, steps: seq<Step>) {
    forall i :: 0 <= i < |steps| ==>
      && (TaintsAt(k, s, steps, i) ==> !Run(k, s, steps[..i]).signal)
      && (steps[i].event.StopEvent? ==> !Run(k, s, steps[..i]).isTainted)
  }

  lemma DisciplinedPrefix(k: Kind, s: State, steps: seq<Step>, n: nat)
    requires Disciplined(k, s, steps) && n <= |steps|
    ensures Disciplined(k, s, steps[..n])
  {
    var front := steps[..n];
    forall i | 0 <= i < n
      ensures (TaintsAt(k, s, front, i) ==> !Run(k, s, front[..i]).signal)
      ensures front[i].event.StopEvent? ==> !Run(k, s, front[..i]).isTainted
    {
      assert front[..i] == steps[..i] && front[..i + 1] == steps[..i + 1];
      assert TaintsAt(k, s, steps, i) == TaintsAt(k, s, front, i);
    }
  }

  lemma NoSignalStep(k: Kind, s: State, st: Step)
    requires s.isTainted ==> !s.signal
    requires st.event.StopEvent? ==> !s.isTainted
    requires !s.isTainted && Apply(k, s, st).isTainted ==> !s.signal
    ensures Apply(k, s, st).isTainted ==> !Apply(k, s, st).signal
  {}

  lemma {:induction false} NoSignalWhileTainted(k: Kind, s: State, steps: seq<Step>)
    requires !s.isTainted && ValidRun(k, s, steps) && Disciplined(k, s, steps)
    ensures Run(k, s, steps).isTainted ==> !Run(k, s, steps).signal
  {
    if steps != [] {
      var n := |steps| - 1;
      ValidPrefix(k, s, steps, n);
      DisciplinedPrefix(k, s, steps, n);
      NoSignalWhileTainted(k, s, steps[..n]);
      assert steps[..n + 1] == steps;
      assert TaintsAt(k, s, steps, n) ==> !Run(k, s, steps[..n]).signal;
      NoSignalStep(k, Run(k, s, steps[..n]), steps[n]);
    }
  }

  lemma NoDrainWhileTainted(k: Kind, s: State, steps: seq<Step>, i: nat)
    requires !s.isTainted && ValidRun(k, s, steps) && Disciplined(k, s, steps)
    requires i < |steps| && steps[i].event.DrainEvent?
    ensures !Run(k, s, steps[..i]).isTainted
  {
    ValidPrefix(k, s, steps, i);
    DisciplinedPrefix(k, s, steps, i);
    NoSignalWhileTainted(k, s, steps[..i]);
    assert Enabled(Run(k, s, steps[..i]), steps[i]);
  }

  /** Tainted with one pending timer, due at lastRemoval + waitTime, or untainted with none. */
  ghost predicate TaintedIffArmed(s: State) {
    if s.isTainted then
      s.removalTimer.Some? && s.lastRemoval.Some? &&
      s.pending == map[s.removalTimer.value := s.lastRemoval.value + s.waitTime]
    else s.pending == map[]
  }

  lemma ArmedUnlessStranded(s: State)
    requires TimerInv(s) && !Stranded(s)
    ensures TaintedIffArmed(s)
  {}

  /** Under that discipline a checker is tainted exactly while its one timer is pending. */
  lemma DisciplinedTaintHasItsTimer(k: Kind, steps: seq<Step>)
    requires ValidRun(k, INITIAL, steps) && Disciplined(k, INITIAL, steps)
    ensures TaintedIffArmed(Run(k, INITIAL, steps))
  {
    forall i | 0 <= i < |steps| && steps[i].event.DrainEvent? ensures !DrainsTaintedAt(k, INITIAL, steps, i) {
      NoDrainWhileTainted(k, INITIAL, steps, i);
    }
    StrandedIffDrainedWhileTainted(k, INITIAL, steps);
    RunKeepsTimerInv(k, INITIAL, steps);
    ArmedUnlessStranded(Run(k, INITIAL, steps));
  }

  /** A stranded checker stays exactly as it is, apart from the signal slot, whatever happens next, and no
      probe is ever sent again. */
  lemma {:induction false} StrandedIsAbsorbing(k: Kind, s: State, steps: seq<Step>)
    requires TimerInv(s) && Stranded(s) && ValidRun(k, s, steps)
    ensures Run(k, s, steps) == s.(signal := Run(k, s, steps).signal)
    ensures ProbesSent(k, s, steps) == []
  {
    if steps != [] {
      var n := |steps| - 1;
      ValidPrefix(k, s, steps, n);
      StrandedIsAbsorbing(k, s, steps[..n]);
      var t := Run(k, s, steps[..n]);
      assert Enabled(t, steps[n]);
    }
  }

  /** A checker can be untainted again by some continuation exactly when it is not stranded. */
  lemma RecoverableIffNotStranded(k: Kind, s: State)
    requires TimerInv(s)
    ensures (exists steps :: ValidRun(k, s, steps) && !Run(k, s, steps).isTainted) <==> !Stranded(s)
  {
    if Stranded(s) {
      forall steps | ValidRun(k, s, steps) ensures Run(k, s, steps).isTainted {
        StrandedIsAbsorbing(k, s, steps);
      }
    } else if s.isTainted {
      var id := s.removalTimer.value;
      var steps := [Step(s.pending[id], FireEvent(id))];
      assert steps[..0] == [];
      assert ValidRun(k, s, steps) && !Run(k, s, steps).isTainted;
    } else {
      assert ValidRun(k, s, []) && !Run(k, s, []).isTainted;
    }
  }

  /** A run of ordinary steps that strands a checker: its timer fires and signals, a request taints it again
      before the loop reads the signal, and reading the stale signal stops the new timer. */
  lemma StaleSignalStrands(k: Kind)
    ensures var steps := [
        Step(0, TaintEvent(HTTP_CONFIG)), Step(10 * SECOND, FireEvent(0)),
        Step(10 * SECOND, TaintEvent(HTTP_CONFIG)), Step(10 * SECOND, DrainEvent)];
      ValidRun(k, INITIAL, steps) && Stranded(Run(k, INITIAL, steps)) &&
      forall i :: 0 <= i < |steps| ==> !steps[i].event.StopEvent?
  {
    var steps := [
      Step(0, TaintEvent(HTTP_CONFIG)), Step(10 * SECOND, FireEvent(0)),
      Step(10 * SECOND, TaintEvent(HTTP_CONFIG)), Step(10 * SECOND, DrainEvent)];
    assert steps[..0] == [] && steps[..4] == steps;
    RunPrefix(k, INITIAL, steps, 0);
    RunPrefix(k, INITIAL, steps, 1);
    RunPrefix(k, INITIAL, steps, 2);
    RunPrefix(k, INITIAL, steps, 3);
    var s1 := Taint(INITIAL, HTTP_CONFIG, 0);
    var s2 := FireTimer(s1, 0, 10 * SECOND);
    var s3 := Taint(s2, HTTP_CONFIG, 10 * SECOND);
    assert s1.pending == map[0 := 10 * SECOND];
    assert s3.pending.Keys == {1} && s3.removalTimer == Some(1);
    assert DrainSignal(s3).pending == map[];
  }

  // ----- the signal slot ------------------------------------------------------------------------

  ghost predicate NoDrainAfter(steps: seq<Step>, i: nat) {
    forall j :: i < j < |steps| ==> !steps[j].event.DrainEvent?
  }

  /** A timer's callback or a Stop that no later step has read. */
  ghost predicate SignalWaits(steps: seq<Step>) {
    exists i :: 0 <= i < |steps| && (steps[i].event.FireEvent? || steps[i].event.StopEvent?) && NoDrainAfter(steps, i)
  }

  lemma SignalWaitsFront(steps: seq<Step>)
    requires steps != []
    ensures var front, e := steps[..|steps| - 1], steps[|steps| - 1].event;
      SignalWaits(steps) <==> e.FireEvent? || e.StopEvent? || (SignalWaits(front) && !e.DrainEvent?)
  {
    var n := |steps| - 1;
    var front := steps[..n];
    if SignalWaits(front) && !steps[n].event.DrainEvent? {
      var i :| 0 <= i < n && (front[i].event.FireEvent? || front[i].event.StopEvent?) && NoDrainAfter(front, i);
      forall j | i < j < |steps| ensures !steps[j].event.DrainEvent? {
        assert j < n ==> front[j] == steps[j];
      }
      assert steps[i] == front[i] && NoDrainAfter(steps, i);
    }
    if SignalWaits(steps) {
      var i :| 0 <= i <= n && (steps[i].event.FireEvent? || steps[i].event.StopEvent?) && NoDrainAfter(steps, i);
      if i < n {
        forall j | i < j < n ensures !front[j].event.DrainEvent? {
          assert front[j] == steps[j];
        }
        assert front[i] == steps[i] && NoDrainAfter(front, i);
      }
    }
    if steps[n].event.FireEvent? || steps[n].event.StopEvent? {
      assert NoDrainAfter(steps, n);
    }
  }

  /** In every run a signal waits exactly if a timer's callback or Stop has sent one that was not read since. */
  lemma {:induction false} SignalIff(k: Kind, s: State, steps: seq<Step>)
    requires !s.signal
    ensures Run(k, s, steps).signal <==> SignalWaits(steps)
  {
    if steps != [] {
      SignalIff(k, s, steps[..|steps| - 1]);
      SignalWaitsFront(steps);
    }
  }

  // ----- check cycles ---------------------------------------------------------------------------

  /** One whole cycle, in terms of the answers: which probes are sent, which answers taint, what is stored. */
  lemma CycleExact(k: Kind, s: State, a: Answers, now: int)
    ensures var t := CheckAndSetHealth(k, s, a, now);
      if s.isTainted then t == s && Probes(k, s, a, now) == []
      else
        var good := a.block.Some? && !a.lagged;
        var sends := good && k.isEvm && !k.isWebSocket && s.ethCallCheckCounter % 2 == 1;
        && Probes(k, s, a, now) == (if sends then [BlockNumberProbe, EthCallProbe] else [BlockNumberProbe])
        && (t.isTainted <==> a.block.None? || a.lagged || (sends && !a.ethCallOk))
        && t.blockNumber == (if a.block.Some? then a.block.value else s.blockNumber)
        && t.ethCallCheckCounter ==
           (if good && k.isEvm then (s.ethCallCheckCounter + 1) % TWO_32 else s.ethCallCheckCounter)
        && t.signal == s.signal
  {
    EvenCounter(s.ethCallCheckCounter);
  }

  /** Does cycle number `i` of a new checker get an answer that taints?  The eth_call probe is sent by HTTP EVM
      checkers in every second cycle. */
  predicate BadCycle(k: Kind, steps: seq<Step>, i: nat)
    requires i < |steps| && steps[i].event.CheckEvent?
  {
    var a := steps[i].event.answers;
    a.block.None? || a.lagged || (k.isEvm && !k.isWebSocket && i % 2 == 1 && !a.ethCallOk)
  }

  ghost predicate SomeBadCycle(k: Kind, steps: seq<Step>)
    requires forall i :: 0 <= i < |steps| ==> steps[i].event.CheckEvent?
  {
    exists i :: 0 <= i < |steps| && BadCycle(k, steps, i)
  }

  lemma SomeBadCycleFront(k: Kind, steps: seq<Step>)
    requires steps != [] && forall i :: 0 <= i < |steps| ==> steps[i].event.CheckEvent?
    ensures SomeBadCycle(k, steps) <==>
            SomeBadCycle(k, steps[..|steps| - 1]) || BadCycle(k, steps, |steps| - 1)
  {
    var front := steps[..|steps| - 1];
    forall i | 0 <= i < |front| ensures BadCycle(k, front, i) == BadCycle(k, steps, i) {}
  }

  lemma NextCycle(k: Kind, s: State, st: Step, n: nat)
    requires st.event.CheckEvent? && !s.isTainted && (k.isEvm ==> s.ethCallCheckCounter == n % TWO_32)
    ensures var t, a := Apply(k, s, st), st.event.answers;
      && (t.isTainted <==> a.block.None? || a.lagged || (k.isEvm && !k.isWebSocket && n % 2 == 1 && !a.ethCallOk))
      && (!t.isTainted && k.isEvm ==> t.ethCallCheckCounter == (n + 1) % TWO_32)
  {
    CycleExact(k, s, st.event.answers, st.now);
    CounterParity(n);
    RemainderOfRemainder(n, TWO_32, 2);
  }

  /** A checker that does nothing but check cycles is tainted exactly if some cycle got a bad answer: a failed
      block number probe, a lag verdict, or a failed eth_call in an even-numbered cycle. */
  lemma {:induction false} CyclesTaintIff(k: Kind, steps: seq<Step>)
    requires forall i :: 0 <= i < |steps| ==> steps[i].event.CheckEvent?
    ensures Run(k, INITIAL, steps).isTainted <==> SomeBadCycle(k, steps)
    ensures !Run(k, INITIAL, steps).isTainted && k.isEvm ==>
            Run(k, INITIAL, steps).ethCallCheckCounter == |steps| % TWO_32
  {
    if steps != [] {
      var n := |steps| - 1;
      CyclesTaintIff(k, steps[..n]);
      SomeBadCycleFront(k, steps);
      var s := Run(k, INITIAL, steps[..n]);
      CycleExact(k, s, steps[n].event.answers, steps[n].now);
      if !s.isTainted {
        NextCycle(k, s, steps[n], n);
      }
    }
  }

  // ----- eth_call probes ------------------------------------------------------------------------

  /** Is this step a check cycle that gets as far as the eth_call half? */
  predicate ReachesEthCall(s: State, st: Step) {
    st.event.CheckEvent? && !s.isTainted && !CheckBlockNumber(s, st.event.answers, st.now).isTainted
  }

  /** How many check cycles of the run reached the eth_call half. */
  function EthCallCycles(k: Kind, s: State, steps: seq<Step>): nat {
    if steps == [] then 0
    else
      var front := steps[..|steps| - 1];
      EthCallCycles(k, s, front) + if ReachesEthCall(Run(k, s, front), steps[|steps| - 1]) then 1 else 0
  }

  function EthCallsSent(probes: seq<Probe>): nat {
    if probes == [] then 0
    else EthCallsSent(probes[..|probes| - 1]) + if probes[|probes| - 1].EthCallProbe? then 1 else 0
  }

  lemma {:induction false} EthCallsConcat(a: seq<Probe>, b: seq<Probe>)
    ensures EthCallsSent(a + b) == EthCallsSent(a) + EthCallsSent(b)
  {
    if b == [] {
      assert a + b == a;
    } else {
      assert (a + b)[..|a + b| - 1] == a + b[..|b| - 1];
      EthCallsConcat(a, b[..|b| - 1]);
    }
  }

  lemma EthCallStep(k: Kind, s: State, st: Step, cycles: nat)
    requires k.isEvm ==> s.ethCallCheckCounter == cycles % TWO_32
    ensures var cycles' := cycles + if ReachesEthCall(s, st) then 1 else 0;
      && EthCallsSent(StepProbes(k, s, st)) ==
         (if k.isEvm && !k.isWebSocket then cycles' / 2 - cycles / 2 else 0)
      && (k.isEvm ==> Apply(k, s, st).ethCallCheckCounter == cycles' % TWO_32)
  {
    assert [BlockNumberProbe, EthCallProbe][..1] == [BlockNumberProbe];
    assert [BlockNumberProbe][..0] == [];
    assert EthCallsSent([BlockNumberProbe]) == 0;
    assert EthCallsSent([BlockNumberProbe, EthCallProbe]) == 1;
    CounterParity(cycles);
  }

  /** On an HTTP EVM checker exactly every second cycle that reaches the eth_call half sends the probe,
      also after the 32-bit counter wraps; on any other checker none does. */
  lemma {:induction false} EthCallEverySecondCycle(k: Kind, s: State, steps: seq<Step>)
    requires s.ethCallCheckCounter == 0
    ensures EthCallsSent(ProbesSent(k, s, steps)) ==
            if k.isEvm && !k.isWebSocket then EthCallCycles(k, s, steps) / 2 else 0
    ensures k.isEvm ==> Run(k, s, steps).ethCallCheckCounter == EthCallCycles(k, s, steps) % TWO_32
  {
    if steps != [] {
      var front, last := steps[..|steps| - 1], steps[|steps| - 1];
      EthCallEverySecondCycle(k, s, front);
      var t := Run(k, s, front);
      EthCallsConcat(ProbesSent(k, s, front), StepProbes(k, t, last));
      EthCallStep(k, t, last, EthCallCycles(k, s, front));
    }
  }

  lemma CounterParity(c: nat)
    ensures (c % TWO_32 + 1) % TWO_32 == (c + 1) % TWO_32
    ensures ((c + 1) % TWO_32) % 2 == (c + 1) % 2
  {
    RemainderOfSum(c % TWO_32 + 1, TWO_32, c / TWO_32);
    RemainderOfRemainder(c + 1, TWO_32, 2);
  }
}
