/** The manager of all checkers of one path: its construction, the lookup map and the lag rule. */
module HealthCheckManagers {
  import opened Arithmetic
  import opened Wrappers
  import opened Sequences
  import opened TaintSpec
  import opened BlockLag
  import opened LagPools
  import opened HealthCheckers

  datatype Target = Target(name: string, httpURL: string, webSocketURL: string)

  /** Which checker: the configured name and the connection type. */
  datatype CheckerId = CheckerId(name: string, connectionType: string)

  function Key(name: string, connectionType: string): string {
    name + ":" + connectionType
  }

  /** The checkers one target gets, in creation order. */
  function IdsOf(t: Target): seq<CheckerId> {
    (if t.httpURL == "" then [] else [CheckerId(t.name, HTTP)]) +
    (if t.webSocketURL == "" then [] else [CheckerId(t.name, WEBSOCKET)])
  }

  /** The checkers of the first `k` of a target's two connections. */
  ghost function FirstIdsOf(t: Target, k: nat): seq<CheckerId> {
    if k == 0 then []
    else if k == 1 then if t.httpURL == "" then [] else [CheckerId(t.name, HTTP)]
    else IdsOf(t)
  }

  function CheckerIds(targets: seq<Target>): seq<CheckerId> {
    if targets == [] then []
    else CheckerIds(targets[..|targets| - 1]) + IdsOf(targets[|targets| - 1])
  }

  function Keys(ids: seq<CheckerId>): seq<string> {
    seq(|ids|, i requires 0 <= i < |ids| => Key(ids[i].name, ids[i].connectionType))
  }

  /** The position a key leads to: later checkers overwrite earlier ones in the map. */
  function LastWithKey(ids: seq<CheckerId>, key: string): Option<nat> {
    LastIndexOf(Keys(ids), key)
  }

  lemma {:induction false} LastWithKeyGrows(ids: seq<CheckerId>, id: CheckerId, key: string)
    ensures LastWithKey(ids + [id], key) ==
            if Key(id.name, id.connectionType) == key then Some(|ids|) else LastWithKey(ids, key)
  {
    assert Keys(ids + [id]) == Keys(ids) + [Key(id.name, id.connectionType)];
    LastIndexOfAppend(Keys(ids), Key(id.name, id.connectionType), key);
  }

  /** A checker as it is created for a chain: untainted, with no block number yet, for EVM by default. */
  ghost predicate New(c: HealthChecker, chainType: string)
    reads c
  {
    c.Contents() == INITIAL && c.chainType == if chainType == "" then "evm" else chainType
  }

  class HealthCheckManager {
    const blockDiffThreshold: nat
    var checkers: seq<HealthChecker>
    var checkerMap: map<string, HealthChecker>

    /** The identities of the checkers, in list order. */
    ghost function Ids(): seq<CheckerId>
      reads this
    {
      seq(|checkers|, i requires 0 <= i < |checkers| reads this =>
        CheckerId(checkers[i].name, checkers[i].connectionType))
    }

    ghost predicate Valid()
      reads this
    {
      && (forall i, j :: 0 <= i < j < |checkers| ==> checkers[i] != checkers[j])
      && MapAgrees(checkers, Ids(), checkerMap)
      && blockDiffThreshold < TWO_64
    }

    constructor (targets: seq<Target>, chainType: string, blockDiffThreshold: nat)
      requires blockDiffThreshold < TWO_64
      ensures Valid() && Ids() == CheckerIds(targets)
      ensures forall c :: c in checkers ==> New(c, chainType) && fresh(c)
      ensures Shows(Start(Names()), States())
      ensures this.blockDiffThreshold == blockDiffThreshold
    {
      this.blockDiffThreshold := blockDiffThreshold;
      var cs: seq<HealthChecker> := [];
      var byKey: map<string, HealthChecker> := map[];
      ghost var ids: seq<CheckerId> := [];
      for t := 0 to |targets|
        invariant ids == CheckerIds(targets[..t])
        invariant Built(cs, ids, byKey)
        invariant forall c :: c in cs ==> New(c, chainType) && fresh(c)
      {
        var target := targets[t];
        var connections := [(target.httpURL, HTTP), (target.webSocketURL, WEBSOCKET)];
        for k := 0 to 2
          invariant ids == CheckerIds(targets[..t]) + FirstIdsOf(target, k)
          invariant Built(cs, ids, byKey)
          invariant forall c :: c in cs ==> New(c, chainType) && fresh(c)
        {
          var (url, connType) := connections[k];
          if url == "" {
            continue;
          }
          var c := new HealthChecker(target.name, chainType, connType);
          BuiltGrows(cs, ids, byKey, c);
          cs, ids := cs + [c], ids + [CheckerId(target.name, connType)];
          byKey := byKey[Key(target.name, connType) := c];
        }
        assert targets[..t + 1][..t] == targets[..t];
      }
      assert targets[..|targets|] == targets;
      checkers, checkerMap := cs, byKey;
      new;
      assert Ids() == ids;
      forall i | 0 <= i < |checkers| ensures States()[i] == INITIAL {
        assert checkers[i] in cs && New(checkers[i], chainType);
      }
    }

    /** A lookup finds the last checker stored under the combined key. */
    method GetHealthChecker(name: string, connectionType: string) returns (checker: HealthChecker?)
      requires Valid()
      ensures match LastWithKey(Ids(), Key(name, connectionType))
        case None => checker == null
        case Some(i) => i < |checkers| && checker == checkers[i]
    {
      var key := Key(name, connectionType);
      checker := if key in checkerMap then checkerMap[key] else null;
      assert KeyAgrees(checkers, Ids(), checkerMap, key);
    }

    ghost function States(): seq<State>
      reads this, checkers
    {
      seq(|checkers|, i requires 0 <= i < |checkers| reads this, checkers => checkers[i].Contents())
    }

    ghost function Names(): seq<string>
      reads this
    {
      seq(|checkers|, i requires 0 <= i < |checkers| reads this => checkers[i].name)
    }

    ghost function Blocks(): seq<nat>
      reads this, checkers
    {
      seq(|checkers|, i requires 0 <= i < |checkers| reads this, checkers => checkers[i].blockNumber)
    }

    /** The checker that a report of `updated` under `name` gets tainted for block lag, if any. */
    ghost function LagVictim(name: string, updated: nat): Option<nat>
      reads this, checkers
    {
      if LagTest(MaxBlock(Blocks()), updated, blockDiffThreshold) then LastIndexOf(Names(), name) else None
    }

    method CheckBlockLagAndTaint(name: string, updated: nat, now: int)
      requires Valid() && updated < TWO_64
      modifies checkers
      ensures forall i :: 0 <= i < |checkers| ==>
        checkers[i].Contents() ==
        if old(LagVictim(name, updated)) == Some(i)
        then TaintSpec.Taint(old(checkers[i].Contents()), HEALTH_CHECK_CONFIG, now)
        else old(checkers[i].Contents())
    {
      var maxBlock := 0;
      var targetChecker: HealthChecker? := null;
      ghost var target: Option<nat> := None;
      for i := 0 to |checkers|
        invariant maxBlock == MaxBlock(Blocks()[..i])
        invariant target == LastIndexOf(Names()[..i], name)
        invariant target.Some? ==> target.value < i
        invariant targetChecker == if target.Some? then checkers[target.value] else null
      {
        assert Blocks()[..i + 1][..i] == Blocks()[..i] && Names()[..i + 1][..i] == Names()[..i];
        var bn := checkers[i].blockNumber;
        if bn > maxBlock {
          maxBlock := bn;
        }
        if checkers[i].name == name {
          targetChecker, target := checkers[i], Some(i);
        }
      }
      assert Blocks()[..|checkers|] == Blocks() && Names()[..|checkers|] == Names();
      if maxBlock > (updated + blockDiffThreshold) % TWO_64 {
        if targetChecker != null {
          var _ := targetChecker.TaintHealthCheck(now);
        }
      }
    }

    /** The block number half of a cycle of checker `i` with its lag callback. */
    method CheckAndSetBlockNumberHealth(i: nat, block: Option<nat>, now: int)
      requires Valid() && i < |checkers| && (block.Some? ==> block.value < TWO_64)
      modifies checkers
      ensures var victim := old(ReportVictim(i, block));
        && checkers[i].Contents() ==
           CheckBlockNumber(old(checkers[i].Contents()), Answers(block, victim == Some(i), true), now)
        && forall j :: 0 <= j < |checkers| && j != i ==>
             checkers[j].Contents() ==
             if victim == Some(j) then TaintSpec.Taint(old(checkers[j].Contents()), HEALTH_CHECK_CONFIG, now)
             else old(checkers[j].Contents())
      ensures block.Some? && !old(checkers[i].isTainted) ==>
        forall w :: Shows(w, old(States())) ==>
          Shows(AfterCycle(Names(), blockDiffThreshold, w, i, block.value), States())
    {
      var stored := checkers[i].StoreBlockNumber(block, now);
      if stored {
        assert Names() == old(Names());
        assert Blocks() == old(Blocks())[i := block.value];
        CheckBlockLagAndTaint(checkers[i].name, block.value, now);
        if !old(checkers[i].isTainted) {
          forall w | Shows(w, old(States()))
            ensures Shows(AfterCycle(Names(), blockDiffThreshold, w, i, block.value), States())
          {
            assert w.block == old(Blocks());
            CycleShows(Names(), blockDiffThreshold, w, old(States()), States(), i, block.value, now);
          }
        }
      }
    }

    /** One whole check cycle of checker `i`, its lag callback included.  `block` is the probe's answer and
        `ethCallOk` that of the eth_call probe. */
    method RunCycle(i: nat, block: Option<nat>, ethCallOk: bool, now: int) returns (probes: seq<Probe>)
      requires Valid() && i < |checkers| && (block.Some? ==> block.value < TWO_64)
      modifies checkers
      ensures var victim := old(CycleVictim(i, block));
        var k, answers := checkers[i].ProbeKind(), Answers(block, victim == Some(i), ethCallOk);
        && CycleEffect(old(States()), States(), k, i, victim, answers, now)
        && probes == Probes(k, old(States())[i], answers, now)
    {
      probes := [];
      if checkers[i].isTainted {
        return;
      }
      probes := [BlockNumberProbe];
      CheckAndSetBlockNumberHealth(i, block, now);
      if !checkers[i].isTainted {
        var sent := checkers[i].CheckAndSetEthCallHealth(ethCallOk, now);
        if sent {
          probes := probes + [EthCallProbe];
        }
      }
    }

    /** The checker that gets tainted for lag when checker `i` reports `block`. */
    ghost function ReportVictim(i: nat, block: Option<nat>): Option<nat>
      requires i < |checkers|
      reads this, checkers
    {
      if block.Some? && LagTest(MaxBlock(Blocks()[i := block.value]), block.value, blockDiffThreshold)
      then LastIndexOf(Names(), checkers[i].name)
      else None
    }

    /** The lag victim of a cycle of checker `i`; a tainted checker is not probed. */
    ghost function CycleVictim(i: nat, block: Option<nat>): Option<nat>
      requires i < |checkers|
      reads this, checkers
    {
      if checkers[i].isTainted then None else ReportVictim(i, block)
    }
  }

  /** What one whole check cycle of checker i does to all checkers. */
  ghost predicate CycleEffect(
    before: seq<State>, after: seq<State>, k: Kind, i: nat, victim: Option<nat>, answers: Answers, now: int)
  {
    && i < |before| == |after|
    && after[i] == CheckAndSetHealth(k, before[i], answers, now)
    && forall j :: 0 <= j < |after| && j != i ==>
         after[j] == if victim == Some(j) then TaintSpec.Taint(before[j], HEALTH_CHECK_CONFIG, now) else before[j]
  }

  /** The block numbers and taint flags of a world of the lag protocol are those of the checkers. */
  ghost predicate Shows(w: World, states: seq<State>) {
    && |w.block| == |w.taint| == |w.phase| == |states|
    && forall c :: 0 <= c < |states| ==>
         w.block[c] == states[c].blockNumber && (w.taint[c].Clean? <==> !states[c].isTainted)
  }

  /** What the block number half of a cycle does to the checkers is an undisturbed cycle of the protocol. */
  lemma {:induction false} CycleShows(
    names: seq<string>, threshold: nat, w: World, before: seq<State>, after: seq<State>, i: nat, reported: nat,
    now: int)
    requires Shows(w, before) && i < |names| == |before| == |after| && !before[i].isTainted
    requires var lagging := LagTest(MaxBlock(w.block[i := reported]), reported, threshold);
      var victim := if lagging then LastIndexOf(names, names[i]) else None;
      && after[i] == CheckBlockNumber(before[i], Answers(Some(reported), victim == Some(i), true), now)
      && forall j :: 0 <= j < |after| && j != i ==>
           after[j] == if victim == Some(j) then TaintSpec.Taint(before[j], HEALTH_CHECK_CONFIG, now) else before[j]
    ensures Shows(AfterCycle(names, threshold, w, i, reported), after)
  {}

  /** A timer that fires on checker c is a removal of the protocol, and a taint from elsewhere its other taint. */
  lemma {:induction false} OtherStepsShow(
    names: seq<string>, threshold: nat, w: World, states: seq<State>, c: nat, cfg: TaintConfig, id: nat, now: int)
    requires Shows(w, states) && |names| == |states| && c < |states|
    ensures Shows(Next(names, threshold, w, TaintOther(c)), states[c := TaintSpec.Taint(states[c], cfg, now)])
    ensures states[c].isTainted ==>
      Enabled(names, w, Removal(c)) &&
      Shows(Next(names, threshold, w, Removal(c)), states[c := FireTimer(states[c], id, now)])
  {}

  /** Under this key the map holds the last checker that was stored under it. */
  ghost predicate KeyAgrees(cs: seq<HealthChecker>, ids: seq<CheckerId>, m: map<string, HealthChecker>, key: string)
    requires |cs| == |ids|
  {
    match LastWithKey(ids, key)
    case None => key !in m
    case Some(i) => i < |cs| && key in m && m[key] == cs[i]
  }

  ghost predicate MapAgrees(cs: seq<HealthChecker>, ids: seq<CheckerId>, m: map<string, HealthChecker>) {
    |cs| == |ids| && forall key :: KeyAgrees(cs, ids, m, key)
  }

  /** The list and the map under construction. */
  ghost predicate Built(cs: seq<HealthChecker>, ids: seq<CheckerId>, m: map<string, HealthChecker>) {
    && MapAgrees(cs, ids, m)
    && (forall i, j :: 0 <= i < j < |cs| ==> cs[i] != cs[j])
    && forall i :: 0 <= i < |cs| ==> ids[i] == CheckerId(cs[i].name, cs[i].connectionType)
  }

  lemma {:induction false} BuiltGrows(cs: seq<HealthChecker>, ids: seq<CheckerId>, m: map<string, HealthChecker>, c: HealthChecker)
    requires Built(cs, ids, m) && c !in cs
    ensures Built(cs + [c], ids + [CheckerId(c.name, c.connectionType)], m[Key(c.name, c.connectionType) := c])
  {
    var id := CheckerId(c.name, c.connectionType);
    var cs', ids', m' := cs + [c], ids + [id], m[Key(c.name, c.connectionType) := c];
    forall key ensures KeyAgrees(cs', ids', m', key) {
      LastWithKeyGrows(ids, id, key);
      LastIndexOfIsLast(Keys(ids), key);
      assert KeyAgrees(cs, ids, m, key);
    }
  }

  // ----- what the combined key can and cannot tell apart ----------------------------------------

  predicate EndsWith(s: string, suffix: string) {
    |suffix| <= |s| && s[|s| - |suffix|..] == suffix
  }

  /** Connection types whose keys can also be read as another name with a real connection type. */
  predicate Ambiguous(connectionType: string) {
    EndsWith(connectionType, ":" + HTTP) || EndsWith(connectionType, ":" + WEBSOCKET)
  }

  lemma {:induction false} SameKeyOverlap(name: string, a: string, other: string, b: string)
    requires Key(name, a) == Key(other, b)
    ensures if |a| == |b| then a == b && name == other
            else EndsWith(b, ":" + a) || EndsWith(a, ":" + b)
  {
    var key := Key(name, a);
    assert key[|key| - |a| - 1..] == ":" + a && key[|key| - |b| - 1..] == ":" + b;
    if |a| == |b| {
      assert key[..|key| - |a| - 1] == name && key[..|key| - |b| - 1] == other;
      assert (":" + a)[1..] == a && (":" + b)[1..] == b;
    } else if |a| < |b| {
      assert b == key[|key| - |b|..];
      assert b[|b| - |a| - 1..] == key[|key| - |a| - 1..];
    } else {
      assert a == key[|key| - |a|..];
      assert a[|a| - |b| - 1..] == key[|key| - |b| - 1..];
    }
  }

  lemma {:induction false} ColonInside(s: string, suffix: string)
    ensures EndsWith(s, ":" + suffix) ==> ':' in s
  {
    if EndsWith(s, ":" + suffix) {
      assert s[|s| - |suffix| - 1..][0] == ':';
    }
  }

  lemma {:induction false} KeyInjective(id: CheckerId, name: string, connectionType: string)
    requires id.connectionType == HTTP || id.connectionType == WEBSOCKET
    requires !Ambiguous(connectionType) && Key(id.name, id.connectionType) == Key(name, connectionType)
    ensures id == CheckerId(name, connectionType)
  {
    SameKeyOverlap(id.name, id.connectionType, name, connectionType);
    ColonInside(id.connectionType, connectionType);
    assert ':' !in id.connectionType;
  }

  lemma {:induction false} IdsAreReal(targets: seq<Target>)
    ensures forall i :: 0 <= i < |CheckerIds(targets)| ==>
      CheckerIds(targets)[i].connectionType == HTTP || CheckerIds(targets)[i].connectionType == WEBSOCKET
  {
    if targets != [] {
      IdsAreReal(targets[..|targets| - 1]);
    }
  }

  lemma {:induction false} LookupsAgree(ids: seq<CheckerId>, name: string, connectionType: string)
    requires forall i :: 0 <= i < |ids| ==> ids[i].connectionType == HTTP || ids[i].connectionType == WEBSOCKET
    requires !Ambiguous(connectionType)
    ensures LastWithKey(ids, Key(name, connectionType)) == LastIndexOf(ids, CheckerId(name, connectionType))
  {
    var key, id := Key(name, connectionType), CheckerId(name, connectionType);
    forall i | 0 <= i < |ids| ensures Keys(ids)[i] == key <==> ids[i] == id {
      if Key(ids[i].name, ids[i].connectionType) == key {
        KeyInjective(ids[i], name, connectionType);
      }
    }
    LastIndexOfAgrees(Keys(ids), key, ids, id);
  }

  lemma {:induction false} SplitKey(name: string, connectionType: string, kind: string) returns (long: string)
    requires EndsWith(connectionType, ":" + kind)
    ensures Key(long, kind) == Key(name, connectionType)
  {
    var cut := |connectionType| - |kind| - 1;
    assert connectionType == connectionType[..cut] + (":" + kind);
    long := name + ":" + connectionType[..cut];
  }

  lemma {:induction false} OneChecker(long: string, kind: string) returns (targets: seq<Target>)
    requires kind == HTTP || kind == WEBSOCKET
    ensures CheckerIds(targets) == [CheckerId(long, kind)]
  {
    var target := if kind == HTTP then Target(long, "u", "") else Target(long, "", "u");
    targets := [target];
    assert targets[..0] == [];
    assert IdsOf(target) == [CheckerId(long, kind)];
  }

  /** An ambiguous lookup finds a checker whose own type is another one. */
  lemma {:induction false} AmbiguousLookupErrs(name: string, connectionType: string) returns (targets: seq<Target>)
    requires Ambiguous(connectionType)
    ensures LastWithKey(CheckerIds(targets), Key(name, connectionType)) !=
            LastIndexOf(CheckerIds(targets), CheckerId(name, connectionType))
  {
    var kind := if EndsWith(connectionType, ":" + HTTP) then HTTP else WEBSOCKET;
    var long := SplitKey(name, connectionType, kind);
    targets := OneChecker(long, kind);
    var ids := CheckerIds(targets);
    assert Keys(ids) == [Key(name, connectionType)];
    LastIndexOfIsLast(Keys(ids), Key(name, connectionType));
    LastIndexOfIsLast(ids, CheckerId(name, connectionType));
    assert |kind| < |connectionType|;
  }

  /** The lookup returns the last checker with the given name and connection type, for every configuration,
      exactly when the connection type does not itself end in ":http" or ":websocket". */
  lemma {:induction false} LookupExact(name: string, connectionType: string)
    ensures (forall targets :: LastWithKey(CheckerIds(targets), Key(name, connectionType)) ==
                               LastIndexOf(CheckerIds(targets), CheckerId(name, connectionType)))
            <==> !Ambiguous(connectionType)
  {
    if Ambiguous(connectionType) {
      var targets := AmbiguousLookupErrs(name, connectionType);
    } else {
      forall targets ensures LastWithKey(CheckerIds(targets), Key(name, connectionType)) ==
                             LastIndexOf(CheckerIds(targets), CheckerId(name, connectionType)) {
        IdsAreReal(targets);
        LookupsAgree(CheckerIds(targets), name, connectionType);
      }
    }
  }

  // ----- where a lag verdict lands --------------------------------------------------------------

  function NamesOf(ids: seq<CheckerId>): seq<string> {
    seq(|ids|, i requires 0 <= i < |ids| => ids[i].name)
  }

  function TargetNames(targets: seq<Target>): seq<string> {
    seq(|targets|, t requires 0 <= t < |targets| => targets[t].name)
  }

  ghost predicate DistinctTargets(targets: seq<Target>) {
    Distinct(TargetNames(targets))
  }

  lemma {:induction false} DistinctTargetsFront(targets: seq<Target>)
    requires DistinctTargets(targets) && targets != []
    ensures DistinctTargets(targets[..|targets| - 1])
  {
    assert TargetNames(targets[..|targets| - 1]) == TargetNames(targets)[..|targets| - 1];
  }

  lemma {:induction false} NamesOfConcat(a: seq<CheckerId>, b: seq<CheckerId>)
    ensures NamesOf(a + b) == NamesOf(a) + NamesOf(b)
  {}

  /** With distinct target names a lag verdict about a target lands on its WebSocket checker if it has one
      and on its HTTP checker otherwise, whichever of its connections reported. */
  lemma {:induction false} VerdictLandsOnLastConnection(targets: seq<Target>, t: nat)
    requires DistinctTargets(targets) && t < |targets| && IdsOf(targets[t]) != []
    ensures var ids := CheckerIds(targets);
      var i := LastIndexOf(NamesOf(ids), targets[t].name);
      i.Some? && i.value < |ids| &&
      ids[i.value] == CheckerId(targets[t].name, if targets[t].webSocketURL != "" then WEBSOCKET else HTTP)
  {
    var n := |targets| - 1;
    var front, own := CheckerIds(targets[..n]), IdsOf(targets[n]);
    NamesOfConcat(front, own);
    if t == n {
      LastIndexOfEnd(NamesOf(front), NamesOf(own), targets[t].name);
    } else {
      DistinctTargetsFront(targets);
      VerdictLandsOnLastConnection(targets[..n], t);
      assert TargetNames(targets)[t] != TargetNames(targets)[n];
      LastIndexOfSkips(NamesOf(front), NamesOf(own), targets[t].name);
    }
  }

  /** So in no interleaving is the HTTP checker of a target with both connections tainted for lag. */
  lemma {:induction false} HTTPCheckerNeverLagTainted(
    targets: seq<Target>, t: nat, c: nat, threshold: nat, actions: seq<Action>, worlds: seq<World>, i: nat)
    requires DistinctTargets(targets) && t < |targets| && targets[t].webSocketURL != ""
    requires c < |CheckerIds(targets)| && CheckerIds(targets)[c] == CheckerId(targets[t].name, HTTP)
    requires var names := NamesOf(CheckerIds(targets));
      Execution(names, threshold, actions, worlds) && worlds[0] == Start(names)
    requires i <= |actions|
    ensures worlds[i].Fits(NamesOf(CheckerIds(targets))) && !worlds[i].taint[c].ByLag?
  {
    LagTaintsLastNamed(NamesOf(CheckerIds(targets)), threshold, actions, worlds, i);
    VerdictLandsOnLastConnection(targets, t);
  }

  // ----- the pools that requests draw from ------------------------------------------------------

  /** The positions of the checkers of one connection type. */
  ghost function OfType(ids: seq<CheckerId>, connectionType: string): set<nat> {
    set i: nat | i < |ids| && ids[i].connectionType == connectionType
  }

  ghost predicate SomeTarget(targets: seq<Target>, http: bool, webSocket: bool) {
    exists t :: 0 <= t < |targets| && (http ==> targets[t].httpURL != "") && (webSocket ==> targets[t].webSocketURL != "")
  }

  ghost predicate Configured(targets: seq<Target>, id: CheckerId) {
    exists t :: 0 <= t < |targets| && id in IdsOf(targets[t])
  }

  lemma {:induction false} ConfiguredFront(targets: seq<Target>, id: CheckerId)
    requires targets != []
    ensures Configured(targets, id) <==>
            Configured(targets[..|targets| - 1], id) || id in IdsOf(targets[|targets| - 1])
  {
    var front := targets[..|targets| - 1];
    if Configured(front, id) {
      var t :| 0 <= t < |front| && id in IdsOf(front[t]);
      assert targets[t] == front[t];
    }
    if Configured(targets, id) && id !in IdsOf(targets[|targets| - 1]) {
      var t :| 0 <= t < |targets| && id in IdsOf(targets[t]);
      assert front[t] == targets[t];
    }
  }

  lemma {:induction false} InEither(a: seq<CheckerId>, b: seq<CheckerId>, id: CheckerId)
    ensures id in a + b <==> id in a || id in b
  {}

  lemma {:induction false} CheckersOfTargets(targets: seq<Target>, id: CheckerId)
    ensures id in CheckerIds(targets) <==> Configured(targets, id)
  {
    if targets != [] {
      var n := |targets| - 1;
      CheckersOfTargets(targets[..n], id);
      ConfiguredFront(targets, id);
      InEither(CheckerIds(targets[..n]), IdsOf(targets[n]), id);
    }
  }

  /** With distinct target names no two checkers agree in both name and type. */
  lemma {:induction false} CheckersDistinct(targets: seq<Target>)
    requires DistinctTargets(targets)
    ensures Distinct(CheckerIds(targets))
  {
    if targets != [] {
      var n := |targets| - 1;
      var front := CheckerIds(targets[..n]);
      DistinctTargetsFront(targets);
      CheckersDistinct(targets[..n]);
      forall i | 0 <= i < |front| ensures front[i].name != targets[n].name {
        CheckersOfTargets(targets[..n], front[i]);
        var t :| 0 <= t < n && front[i] in IdsOf(targets[t]);
        assert TargetNames(targets)[t] != TargetNames(targets)[n];
      }
    }
  }

  /** Which checkers a verdict about their own name can hit: all but the HTTP checkers that are followed by
      the WebSocket checker of their target. */
  lemma {:induction false} LastOfItsNameIff(targets: seq<Target>, t: nat, i: nat)
    requires DistinctTargets(targets) && t < |targets| && i < |CheckerIds(targets)|
    requires CheckerIds(targets)[i] in IdsOf(targets[t])
    ensures LastOfItsName(NamesOf(CheckerIds(targets)), i) <==>
            CheckerIds(targets)[i].connectionType == WEBSOCKET || targets[t].webSocketURL == ""
  {
    var ids := CheckerIds(targets);
    VerdictLandsOnLastConnection(targets, t);
    CheckersDistinct(targets);
    var last := LastIndexOf(NamesOf(ids), targets[t].name).value;
    assert ids[last] == ids[i] ==> last == i;
  }

  lemma {:induction false} SomeOfType(targets: seq<Target>)
    ensures OfType(CheckerIds(targets), HTTP) != {} <==> SomeTarget(targets, true, false)
    ensures OfType(CheckerIds(targets), WEBSOCKET) != {} <==> SomeTarget(targets, false, true)
  {
    var ids := CheckerIds(targets);
    forall i | 0 <= i < |ids|
      ensures ids[i].connectionType == HTTP ==> SomeTarget(targets, true, false)
      ensures ids[i].connectionType == WEBSOCKET ==> SomeTarget(targets, false, true)
    {
      CheckersOfTargets(targets, ids[i]);
    }
    forall t | 0 <= t < |targets|
      ensures targets[t].httpURL != "" ==> OfType(ids, HTTP) != {}
      ensures targets[t].webSocketURL != "" ==> OfType(ids, WEBSOCKET) != {}
    {
      forall id | id in IdsOf(targets[t]) ensures OfType(ids, id.connectionType) != {} {
        CheckersOfTargets(targets, id);
        var i :| 0 <= i < |ids| && ids[i] == id;
        assert i in OfType(ids, id.connectionType);
      }
      assert targets[t].httpURL != "" ==> IdsOf(targets[t])[0] == CheckerId(targets[t].name, HTTP);
      assert targets[t].webSocketURL != "" ==>
        IdsOf(targets[t])[|IdsOf(targets[t])| - 1] == CheckerId(targets[t].name, WEBSOCKET);
    }
  }

  lemma {:induction false} OneTypeIsEveryone(targets: seq<Target>)
    ensures IsEveryone(NamesOf(CheckerIds(targets)), OfType(CheckerIds(targets), HTTP)) <==>
            !SomeTarget(targets, false, true)
    ensures IsEveryone(NamesOf(CheckerIds(targets)), OfType(CheckerIds(targets), WEBSOCKET)) <==>
            !SomeTarget(targets, true, false)
  {
    SomeOfType(targets);
    IdsAreReal(targets);
    var ids := CheckerIds(targets);
    assert forall i: nat :: i < |ids| ==> (i in OfType(ids, HTTP) <==> i !in OfType(ids, WEBSOCKET));
  }

  /** Exactly when lag alone always leaves some HTTP checker untainted. */
  lemma {:induction false} HTTPPoolSurvivesLagIff(targets: seq<Target>, threshold: nat, rules: Rules)
    requires DistinctTargets(targets) && threshold < TWO_64 && rules.lagOnly
    ensures var ids := CheckerIds(targets);
      LagSpares(NamesOf(ids), threshold, rules, OfType(ids, HTTP)) <==>
      && SomeTarget(targets, true, false)
      && (|| SomeTarget(targets, true, true)
          || (NeverWraps(rules, threshold) &&
              (2 * threshold + 1 >= TWO_64 ||
               (!SomeTarget(targets, false, true) &&
                (rules.nonDecreasing || NoDoubleLag(NamesOf(ids), threshold))))))
  {
    var ids := CheckerIds(targets);
    var pool := OfType(ids, HTTP);
    LagSparesIff(NamesOf(ids), threshold, rules, pool);
    SomeOfType(targets);
    OneTypeIsEveryone(targets);
    forall i | i in pool && !LastOfItsName(NamesOf(ids), i) ensures SomeTarget(targets, true, true) {
      CheckersOfTargets(targets, ids[i]);
      var t :| 0 <= t < |targets| && ids[i] in IdsOf(targets[t]);
      LastOfItsNameIff(targets, t, i);
    }
    if t :| 0 <= t < |targets| && targets[t].httpURL != "" && targets[t].webSocketURL != "" {
      var id := IdsOf(targets[t])[0];
      CheckersOfTargets(targets, id);
      var i :| 0 <= i < |ids| && ids[i] == id;
      LastOfItsNameIff(targets, t, i);
      assert i in pool;
    }
  }

  /** Exactly when lag alone always leaves some WebSocket checker untainted. */
  lemma {:induction false} WebSocketPoolSurvivesLagIff(targets: seq<Target>, threshold: nat, rules: Rules)
    requires DistinctTargets(targets) && threshold < TWO_64 && rules.lagOnly
    ensures var ids := CheckerIds(targets);
      LagSpares(NamesOf(ids), threshold, rules, OfType(ids, WEBSOCKET)) <==>
      && SomeTarget(targets, false, true)
      && NeverWraps(rules, threshold)
      && (2 * threshold + 1 >= TWO_64 ||
          (!SomeTarget(targets, true, false) && (rules.nonDecreasing || NoDoubleLag(NamesOf(ids), threshold))))
  {
    var ids := CheckerIds(targets);
    var pool := OfType(ids, WEBSOCKET);
    LagSparesIff(NamesOf(ids), threshold, rules, pool);
    SomeOfType(targets);
    OneTypeIsEveryone(targets);
    forall i | i in pool ensures LastOfItsName(NamesOf(ids), i) {
      CheckersOfTargets(targets, ids[i]);
      var t :| 0 <= t < |targets| && ids[i] in IdsOf(targets[t]);
      LastOfItsNameIff(targets, t, i);
    }
  }
}
