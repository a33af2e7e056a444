/** The taint state of one health checker and the effect of every whole-method step on it.

    Times and durations are nanoseconds.  The clock is an argument of each step.  The Go runtime's timers
    are part of the state: `pending` holds the due time of every timer this checker has armed that has
    neither fired nor been stopped, whether or not the checker still points at it. */
module TaintSpec {
  import opened Arithmetic
  import opened Wrappers

  const SECOND: int := 1_000_000_000
  const MINUTE: int := 60 * SECOND

  /** The int64 value that an exact result wraps to. */
  function Int64(x: int): int {
    (x + TWO_63) % TWO_64 - TWO_63
  }

  /** Int64 keeps the remainder modulo 2^64 and lands in the range of an int64. */
  lemma Int64Wraps(x: int)
    ensures -0x8000_0000_0000_0000 <= Int64(x) < 0x8000_0000_0000_0000
    ensures exists q :: Int64(x) == x + q * 0x1_0000_0000_0000_0000
  {
    assert Int64(x) == x + -((x + TWO_63) / TWO_64) * TWO_64;
  }

  function Min(a: int, b: int): int {
    if a <= b then a else b
  }

  datatype TaintConfig = TaintConfig(initialWaitTime: int, maxWaitTime: int, resetWaitDuration: int)

  const HEALTH_CHECK_CONFIG := TaintConfig(30 * SECOND, 20 * MINUTE, 5 * MINUTE)
  const HTTP_CONFIG := TaintConfig(10 * SECOND, 60 * SECOND, 20 * SECOND)

  /** What a checker is configured to probe; fixed at construction. */
  datatype Kind = Kind(isEvm: bool, isWebSocket: bool)

  datatype State = State(
    isTainted: bool,
    lastRemoval: Option<int>,   // None is Go's zero time
    waitTime: int,
    config: TaintConfig,
    removalTimer: Option<nat>,
    pending: map<nat, int>,
    nextTimer: nat,
    signal: bool,               // the one-slot channel taintRemoveCh
    ethCallCheckCounter: nat,
    blockNumber: nat)

  const INITIAL: State :=
    State(false, None, HEALTH_CHECK_CONFIG.initialWaitTime, HEALTH_CHECK_CONFIG, None, map[], 0, false, 0, 0)

  /** time.Since, which saturates at the largest Duration for the zero time. */
  function Since(lastRemoval: Option<int>, now: int): int {
    if lastRemoval.None? then TWO_63 - 1 else Min(now - lastRemoval.value, TWO_63 - 1)
  }

  /** The wait that a taint under `cfg` at `now` arms. */
  function NextWait(s: State, cfg: TaintConfig, now: int): int {
    if Since(s.lastRemoval, now) <= cfg.resetWaitDuration then
      Min(Int64(s.waitTime * 2), cfg.maxWaitTime)
    else
      cfg.initialWaitTime
  }

  /** The runtime timers left after Stop on the timer the checker points at. */
  function StopRemovalTimer(s: State): map<nat, int> {
    if s.removalTimer.Some? then s.pending - {s.removalTimer.value} else s.pending
  }

  function Taint(s: State, cfg: TaintConfig, now: int): State {
    if s.isTainted then s else
      var wait := NextWait(s, cfg, now);
      s.(isTainted := true,
         lastRemoval := Some(now),
         waitTime := wait,
         config := cfg,
         removalTimer := Some(s.nextTimer),
         pending := StopRemovalTimer(s)[s.nextTimer := now + wait],
         nextTimer := s.nextTimer + 1)
  }

  function RemoveTaint(s: State, now: int): State {
    s.(isTainted := false, lastRemoval := Some(now), removalTimer := None)
  }

  /** The callback of a timer: it leaves the runtime, clears the taint and signals the checker's loop. */
  function FireTimer(s: State, id: nat, now: int): State {
    RemoveTaint(s.(pending := s.pending - {id}), now).(signal := true)
  }

  /** The loop's reaction to a received signal. */
  function DrainSignal(s: State): State {
    s.(signal := false, pending := StopRemovalTimer(s), removalTimer := None)
  }

  function Stop(s: State): State {
    s.(signal := true)
  }

  datatype Probe = BlockNumberProbe | EthCallProbe

  /** What the outside world answers during one check cycle: the reported block number or None for an error,
      whether the lag callback tainted this very checker, and whether the eth_call probe succeeds. */
  datatype Answers = Answers(block: Option<nat>, lagged: bool, ethCallOk: bool)

  /** The block number half of a cycle, up to and including the lag callback. */
  function CheckBlockNumber(s: State, a: Answers, now: int): State {
    if a.block.None? then Taint(s, HEALTH_CHECK_CONFIG, now)
    else if a.lagged then Taint(s.(blockNumber := a.block.value), HEALTH_CHECK_CONFIG, now)
    else s.(blockNumber := a.block.value)
  }

  function BumpCounter(s: State): nat {
    (s.ethCallCheckCounter + 1) % TWO_32
  }

  lemma EvenCounter(c: nat)
    ensures ((c + 1) % TWO_32) % 2 == 0 <==> c % 2 == 1
  {
    RemainderOfRemainder(c + 1, TWO_32, 2);
  }

  /** Does the eth_call half send a probe when it is reached in state `s`? */
  predicate SendsEthCall(k: Kind, s: State) {
    k.isEvm && BumpCounter(s) % 2 == 0 && !k.isWebSocket
  }

  function CheckEthCall(k: Kind, s: State, ethCallOk: bool, now: int): State {
    if !k.isEvm then s else
      var s' := s.(ethCallCheckCounter := BumpCounter(s));
      if SendsEthCall(k, s) && !ethCallOk then Taint(s', HEALTH_CHECK_CONFIG, now) else s'
  }

  function CheckAndSetHealth(k: Kind, s: State, a: Answers, now: int): State {
    if s.isTainted then s else
      var s' := CheckBlockNumber(s, a, now);
      if s'.isTainted then s' else CheckEthCall(k, s', a.ethCallOk, now)
  }

  /** The probes one check cycle sends. */
  function Probes(k: Kind, s: State, a: Answers, now: int): seq<Probe> {
    if s.isTainted then []
    else
      var s' := CheckBlockNumber(s, a, now);
      if !s'.isTainted && SendsEthCall(k, s') then [BlockNumberProbe, EthCallProbe] else [BlockNumberProbe]
  }
}
