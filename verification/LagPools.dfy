/** Exactly when block lag alone leaves a given part of the pool with an untainted checker, and exactly when a
    checker that holds the maximum can be tainted for lag: over every interleaving, for every list of names,
    every threshold and every combination of what may be assumed about the reports. */
module LagPools {
  import opened Arithmetic
  import opened Wrappers
  import opened Sequences
  import opened BlockLag

  // ----- reaching worlds ------------------------------------------------------------------------

  ghost predicate RunTo(
    names: seq<string>, threshold: nat, rules: Rules, actions: seq<Action>, worlds: seq<World>, w: World)
  {
    RunOf(names, threshold, rules, actions, worlds) && worlds[|actions|] == w
  }

  ghost predicate Reached(names: seq<string>, threshold: nat, rules: Rules, w: World) {
    exists actions, worlds :: RunTo(names, threshold, rules, actions, worlds, w)
  }

  lemma ReachStart(names: seq<string>, threshold: nat, rules: Rules)
    ensures Reached(names, threshold, rules, Start(names))
  {
    assert RunTo(names, threshold, rules, [], [Start(names)], Start(names));
  }

  lemma ReachOneMore(names: seq<string>, threshold: nat, rules: Rules, w: World, a: Action)
    requires Reached(names, threshold, rules, w) && w.Fits(names) && Enabled(names, w, a)
    requires Allowed(rules, threshold, w, a)
    ensures Reached(names, threshold, rules, Next(names, threshold, w, a))
  {
    var actions, worlds :| RunTo(names, threshold, rules, actions, worlds, w);
    var w' := Next(names, threshold, w, a);
    var actions', worlds' := actions + [a], worlds + [w'];
    forall i | 0 <= i < |actions'|
      ensures StepAt(names, threshold, actions', worlds', i)
      ensures Allowed(rules, threshold, worlds'[i], actions'[i])
    {
      if i < |actions| {
        assert StepAt(names, threshold, actions, worlds, i);
        assert Allowed(rules, threshold, worlds[i], actions[i]);
      }
    }
    assert RunTo(names, threshold, rules, actions', worlds', w');
  }

  // ----- undisturbed check cycles ---------------------------------------------------------------

  lemma {:induction false} ScanToEnd(names: seq<string>, threshold: nat, rules: Rules, w: World, c: nat)
    requires Reached(names, threshold, rules, w) && w.Fits(names) && c < |names|
    requires w.phase[c].Scanning? && w.phase[c].next <= |names|
    requires w.phase[c].maxBlock == MaxBlock(w.block[..w.phase[c].next])
    requires w.phase[c].target == LastIndexOf(names[..w.phase[c].next], names[c])
    ensures Reached(names, threshold, rules, w.(phase := w.phase[c :=
              Scanning(|names|, w.phase[c].updated, MaxBlock(w.block), LastIndexOf(names, names[c]))]))
    decreases |names| - w.phase[c].next
  {
    var next := w.phase[c].next;
    var end := Scanning(|names|, w.phase[c].updated, MaxBlock(w.block), LastIndexOf(names, names[c]));
    if next == |names| {
      assert w.block[..next] == w.block && names[..next] == names;
      assert w.phase[c := end] == w.phase;
    } else {
      ReachOneMore(names, threshold, rules, w, Scan(c));
      var w1 := Next(names, threshold, w, Scan(c));
      assert w.block[..next + 1][..next] == w.block[..next] && names[..next + 1][..next] == names[..next];
      ScanToEnd(names, threshold, rules, w1, c);
      assert w1.phase[c := end] == w.phase[c := end];
    }
  }

  /** The world after an undisturbed check cycle of c. */
  function AfterCycle(names: seq<string>, threshold: nat, w: World, c: nat, reported: nat): World
    requires |w.block| == |w.taint| == |w.phase| == |names| && c < |names|
  {
    var block, target := w.block[c := reported], LastIndexOf(names, names[c]);
    var lagging := LagTest(MaxBlock(block), reported, threshold);
    w.(block := block,
       taint := if lagging && target.Some? && target.value < |names| && w.taint[target.value].Clean?
                then w.taint[target.value := ByLag] else w.taint)
  }

  lemma Cycle(names: seq<string>, threshold: nat, rules: Rules, w: World, c: nat, reported: nat)
    requires Reached(names, threshold, rules, w) && w.Fits(names) && c < |names| && reported < TWO_64
    requires w.phase[c].Idle? && w.taint[c].Clean? && Allowed(rules, threshold, w, Store(c, reported))
    ensures Reached(names, threshold, rules, AfterCycle(names, threshold, w, c, reported))
  {
    ReachOneMore(names, threshold, rules, w, Begin(c));
    var w1 := Next(names, threshold, w, Begin(c));
    ReachOneMore(names, threshold, rules, w1, Store(c, reported));
    var w2 := Next(names, threshold, w1, Store(c, reported));
    assert w2.block[..0] == [] && names[..0] == [];
    ScanToEnd(names, threshold, rules, w2, c);
    var end := Scanning(|names|, reported, MaxBlock(w2.block), LastIndexOf(names, names[c]));
    var w3 := w2.(phase := w2.phase[c := end]);
    ReachOneMore(names, threshold, rules, w3, Verdict(c));
    assert w3.phase[c := Idle] == w.phase;
    assert Next(names, threshold, w3, Verdict(c)) == AfterCycle(names, threshold, w, c, reported);
  }

  ghost predicate Idles(names: seq<string>, w: World) {
    w.Fits(names) && forall c :: 0 <= c < |names| ==> w.phase[c].Idle?
  }

  ghost predicate LastOfItsName(names: seq<string>, c: nat) {
    c < |names| && LastIndexOf(names, names[c]) == Some(c)
  }

  /** Checker c, clean and the last of its name, may report v. */
  ghost predicate Ready(names: seq<string>, w: World, c: nat, v: nat) {
    c < |w.block| && c < |w.taint| && w.taint[c].Clean? && w.block[c] <= v && LastOfItsName(names, c)
  }

  /** One after the other the checkers of s from position j on, except `leader`, report v and are tainted,
      because v is too far behind the leader's number or because the comparison wraps. */
  lemma {:induction false} TaintInTurn(
    names: seq<string>, threshold: nat, rules: Rules, w: World, s: set<nat>, leader: nat, v: nat, j: nat)
    returns (w': World)
    requires Reached(names, threshold, rules, w) && Idles(names, w) && j <= |names|
    requires v < TWO_64 && (rules.noWrap ==> v + threshold < TWO_64)
    requires forall c :: c in s && j <= c && c != leader ==> Ready(names, w, c, v)
    requires LagTest(v, v, threshold) || (leader < |names| && LagTest(w.block[leader], v, threshold))
    ensures Reached(names, threshold, rules, w') && Idles(names, w')
    ensures forall c :: 0 <= c < |names| ==>
      if c in s && j <= c && c != leader then w'.block[c] == v && w'.taint[c].ByLag?
      else w'.block[c] == w.block[c] && w'.taint[c] == w.taint[c]
    decreases |names| - j
  {
    if j == |names| {
      w' := w;
    } else if j in s && j != leader {
      assert Ready(names, w, j, v);
      Cycle(names, threshold, rules, w, j, v);
      var w1 := AfterCycle(names, threshold, w, j, v);
      MaxBlockBounds(w1.block);
      assert w1.block[j] == v;
      assert leader < |names| ==> w1.block[leader] == w.block[leader];
      assert LagTest(MaxBlock(w1.block), v, threshold);
      assert w1.taint == w.taint[j := ByLag];
      assert forall c :: c in s && j + 1 <= c && c != leader ==> Ready(names, w, c, v);
      w' := TaintInTurn(names, threshold, rules, w1, s, leader, v, j + 1);
    } else {
      w' := TaintInTurn(names, threshold, rules, w, s, leader, v, j + 1);
    }
  }

  /** An untainted checker that reports a new maximum taints nobody, as long as nothing wraps. */
  lemma LeaderReports(names: seq<string>, threshold: nat, rules: Rules, w: World, c: nat, reported: nat)
    requires Reached(names, threshold, rules, w) && Idles(names, w) && c < |names| && w.taint[c].Clean?
    requires reported + threshold < TWO_64 && MaxBlock(w.block) <= reported
    ensures Reached(names, threshold, rules, w.(block := w.block[c := reported]))
  {
    MaxBlockBounds(w.block);
    var block := w.block[c := reported];
    MaxBlockBounds(block);
    Cycle(names, threshold, rules, w, c, reported);
    assert AfterCycle(names, threshold, w, c, reported) == w.(block := block);
  }

  // ----- runs that taint ------------------------------------------------------------------------

  lemma StartsIdle(names: seq<string>)
    ensures Idles(names, Start(names)) && MaxBlock(Start(names).block) == 0
  {
    MaxBlockBounds(Start(names).block);
  }

  /** If the comparison may wrap, everybody of s reports the largest number and is tainted at once. */
  lemma WrappingRun(names: seq<string>, threshold: nat, rules: Rules, s: set<nat>) returns (w: World)
    requires !rules.noWrap && 0 < threshold < TWO_64 && forall c :: c in s ==> LastOfItsName(names, c)
    ensures Reached(names, threshold, rules, w) && Idles(names, w)
    ensures forall c :: 0 <= c < |names| && c in s ==> w.taint[c].ByLag? && w.block[c] == TWO_64 - 1
    ensures forall c :: 0 <= c < |names| ==> w.block[c] < TWO_64
  {
    ReachStart(names, threshold, rules);
    StartsIdle(names);
    var v := TWO_64 - 1;
    assert (v + threshold) % TWO_64 == threshold - 1;
    w := TaintInTurn(names, threshold, rules, Start(names), s, |names|, v, 0);
  }

  /** A checker outside s takes the lead and everybody of s stays at block 0. */
  lemma OutsideLeader(names: seq<string>, threshold: nat, rules: Rules, s: set<nat>, d: nat) returns (w: World)
    requires 2 * threshold + 1 < TWO_64 && d < |names| && d !in s && forall c :: c in s ==> LastOfItsName(names, c)
    ensures Reached(names, threshold, rules, w) && Idles(names, w) && w.block[d] == threshold + 1
    ensures forall c :: 0 <= c < |names| && c != d ==> w.block[c] == 0
    ensures forall c :: 0 <= c < |names| ==> w.taint[c] == if c in s then ByLag else Clean
  {
    ReachStart(names, threshold, rules);
    StartsIdle(names);
    LeaderReports(names, threshold, rules, Start(names), d, threshold + 1);
    var w1 := Start(names).(block := Start(names).block[d := threshold + 1]);
    w := TaintInTurn(names, threshold, rules, w1, s, d, 0, 0);
  }

  ghost predicate IsEveryone(names: seq<string>, s: set<nat>) {
    forall c: nat :: c in s <==> c < |names|
  }

  /** If reports may fall, the leader taints all others and then falls behind the numbers they left. */
  lemma FallingRun(names: seq<string>, threshold: nat, rules: Rules, s: set<nat>) returns (w: World)
    requires !rules.nonDecreasing && 3 * threshold + 2 < TWO_64 && |names| >= 2
    requires IsEveryone(names, s) && forall c :: c in s ==> LastOfItsName(names, c)
    ensures Reached(names, threshold, rules, w) && w.Fits(names)
    ensures forall c :: 0 <= c < |names| ==> w.taint[c].ByLag?
  {
    ReachStart(names, threshold, rules);
    StartsIdle(names);
    LeaderReports(names, threshold, rules, Start(names), 0, 2 * threshold + 2);
    var w1 := Start(names).(block := Start(names).block[0 := 2 * threshold + 2]);
    assert 0 in s && 1 in s;
    var w2 := TaintInTurn(names, threshold, rules, w1, s, 0, threshold + 1, 0);
    Cycle(names, threshold, rules, w2, 0, 0);
    w := AfterCycle(names, threshold, w2, 0, 0);
    assert LastOfItsName(names, 0);
    MaxBlockBounds(w.block);
    assert w.block[1] == threshold + 1;
  }

  // ----- what holds in all runs -----------------------------------------------------------------

  /** Without wrap: every number leaves room for the threshold, and a lag taint needs room for two. */
  ghost predicate RoomAt(threshold: nat, w: World, c: nat)
    requires c < |w.block| == |w.taint| == |w.phase|
  {
    && w.block[c] + threshold < TWO_64
    && (w.phase[c].Scanning? ==>
          w.phase[c].updated + threshold < TWO_64 && w.phase[c].maxBlock + threshold < TWO_64)
    && (w.taint[c].ByLag? ==> 2 * threshold + 1 < TWO_64)
  }

  ghost predicate Room(names: seq<string>, threshold: nat, w: World) {
    w.Fits(names) && forall c :: 0 <= c < |names| ==> RoomAt(threshold, w, c)
  }

  lemma RoomStep(names: seq<string>, threshold: nat, rules: Rules, w: World, a: Action)
    requires threshold < TWO_64 && NeverWraps(rules, threshold) && Room(names, threshold, w)
    requires Enabled(names, w, a) && Allowed(rules, threshold, w, a)
    ensures Room(names, threshold, Next(names, threshold, w, a))
  {
    var w' := Next(names, threshold, w, a);
    forall c | 0 <= c < |names| ensures RoomAt(threshold, w', c) {
      assert RoomAt(threshold, w, c) && RoomAt(threshold, w, a.c);
      if a == Scan(c) {
        assert w.phase[c].next < |names|;
        assert RoomAt(threshold, w, w.phase[c].next);
      }
    }
  }

  lemma {:induction false} RoomInvariant(
    names: seq<string>, threshold: nat, rules: Rules, actions: seq<Action>, worlds: seq<World>, i: nat)
    requires threshold < TWO_64 && NeverWraps(rules, threshold)
    requires RunOf(names, threshold, rules, actions, worlds) && i <= |actions|
    ensures Room(names, threshold, worlds[i])
  {
    if i > 0 {
      RoomInvariant(names, threshold, rules, actions, worlds, i - 1);
      assert StepAt(names, threshold, actions, worlds, i - 1);
      assert Allowed(rules, threshold, worlds[i - 1], actions[i - 1]);
      RoomStep(names, threshold, rules, worlds[i - 1], actions[i - 1]);
    }
  }

  /** Tainted for lag, or about to be: the part of the scan done so far already decides the comparison. */
  predicate Doomed(threshold: nat, w: World, c: nat)
    requires c < |w.taint| == |w.phase|
  {
    w.taint[c].ByLag? ||
    (w.phase[c].Scanning? && LagTest(w.phase[c].maxBlock, w.phase[c].updated, threshold))
  }

  /** Block numbers are too small, or checkers too few, for two lags on top of each other. */
  predicate NoDoubleLag(names: seq<string>, threshold: nat) {
    |names| == 1 || 3 * threshold + 2 >= TWO_64
  }

  ghost predicate SparedAt(names: seq<string>, threshold: nat, w: World, c: nat)
    requires w.Fits(names) && c < |names|
  {
    && RoomAt(threshold, w, c)
    && (w.phase[c].Scanning? ==>
          && w.phase[c].updated == w.block[c]
          && (w.phase[c].target.Some? ==> w.phase[c].target.value == c))
    && (w.taint[c].ByLag? ==> w.phase[c].Idle? && w.block[c] + 2 * threshold + 1 < TWO_64)
  }

  ghost predicate Spared(names: seq<string>, threshold: nat, w: World) {
    && w.Fits(names)
    && (forall c :: 0 <= c < |names| ==> SparedAt(names, threshold, w, c))
    && exists c :: 0 <= c < |names| && !Doomed(threshold, w, c)
  }

  lemma SparedAtStep(names: seq<string>, threshold: nat, rules: Rules, w: World, a: Action, c: nat)
    requires threshold < TWO_64 && NeverWraps(rules, threshold)
    requires Distinct(names) && c < |names| && Spared(names, threshold, w)
    requires Enabled(names, w, a) && Allowed(rules, threshold, w, a)
    ensures SparedAt(names, threshold, Next(names, threshold, w, a), c)
  {
    assert SparedAt(names, threshold, w, c) && SparedAt(names, threshold, w, a.c);
    if a == Scan(c) {
      assert SparedAt(names, threshold, w, w.phase[c].next);
    }
  }

  /** Only a load can doom a checker, and then whoever holds the loaded number is not doomed. */
  lemma DoomedStep(names: seq<string>, threshold: nat, rules: Rules, w: World, a: Action, c: nat)
    requires threshold < TWO_64 && NeverWraps(rules, threshold) && NoDoubleLag(names, threshold)
    requires Distinct(names) && c < |names| && Spared(names, threshold, w) && !Doomed(threshold, w, c)
    requires Enabled(names, w, a) && Allowed(rules, threshold, w, a)
    ensures var w' := Next(names, threshold, w, a);
      !Doomed(threshold, w', c) ||
      (a == Scan(c) && w.phase[c].next < |names| && !Doomed(threshold, w', w.phase[c].next))
  {
    assert SparedAt(names, threshold, w, c) && SparedAt(names, threshold, w, a.c);
    if a == Scan(c) {
      assert SparedAt(names, threshold, w, w.phase[c].next);
    }
  }

  lemma SparedStep(names: seq<string>, threshold: nat, rules: Rules, w: World, a: Action)
    requires threshold < TWO_64 && NeverWraps(rules, threshold) && NoDoubleLag(names, threshold)
    requires Distinct(names) && Spared(names, threshold, w)
    requires Enabled(names, w, a) && Allowed(rules, threshold, w, a)
    ensures Spared(names, threshold, Next(names, threshold, w, a))
  {
    forall c | 0 <= c < |names| ensures SparedAt(names, threshold, Next(names, threshold, w, a), c) {
      SparedAtStep(names, threshold, rules, w, a, c);
    }
    var c: nat :| c < |names| && !Doomed(threshold, w, c);
    DoomedStep(names, threshold, rules, w, a, c);
  }

  lemma {:induction false} SparedInvariant(
    names: seq<string>, threshold: nat, rules: Rules, actions: seq<Action>, worlds: seq<World>, i: nat)
    requires threshold < TWO_64 && NeverWraps(rules, threshold) && NoDoubleLag(names, threshold)
    requires Distinct(names) && names != []
    requires RunOf(names, threshold, rules, actions, worlds) && i <= |actions|
    ensures Spared(names, threshold, worlds[i])
  {
    if i == 0 {
      assert !Doomed(threshold, Start(names), 0);
    } else {
      SparedInvariant(names, threshold, rules, actions, worlds, i - 1);
      assert StepAt(names, threshold, actions, worlds, i - 1);
      assert Allowed(rules, threshold, worlds[i - 1], actions[i - 1]);
      SparedStep(names, threshold, rules, worlds[i - 1], actions[i - 1]);
    }
  }

  // ----- the exact conditions -------------------------------------------------------------------

  /** Lag alone always leaves somebody of s untainted. */
  ghost predicate LagSpares(names: seq<string>, threshold: nat, rules: Rules, s: set<nat>) {
    forall w :: Reached(names, threshold, rules, w) ==> SomeClean(w, s)
  }

  ghost predicate SomeClean(w: World, s: set<nat>) {
    exists c :: c in s && c < |w.taint| && w.taint[c].Clean?
  }

  /** What a configuration must be like for that: somebody of s is followed by a checker of the same name; or
      the comparison never wraps and either the threshold is too large for any lag, or s is everyone and
      reports do not fall or cannot fall far enough. */
  ghost predicate SparingSetup(names: seq<string>, threshold: nat, rules: Rules, s: set<nat>) {
    && s != {}
    && (|| (exists c :: c in s && !LastOfItsName(names, c))
        || (NeverWraps(rules, threshold) &&
            (2 * threshold + 1 >= TWO_64 ||
             (IsEveryone(names, s) && (rules.nonDecreasing || NoDoubleLag(names, threshold))))))
  }

  lemma AllLastIsDistinct(names: seq<string>)
    requires forall c :: 0 <= c < |names| ==> LastOfItsName(names, c)
    ensures Distinct(names)
  {
    forall i, j | 0 <= i < j < |names| ensures names[i] != names[j] {
      assert LastOfItsName(names, i);
      LastIndexOfIsLast(names, names[i]);
    }
  }

  lemma SparingSetupSpares(
    names: seq<string>, threshold: nat, rules: Rules, s: set<nat>, actions: seq<Action>, worlds: seq<World>, w: World)
    requires threshold < TWO_64 && rules.lagOnly && forall c :: c in s ==> c < |names|
    requires SparingSetup(names, threshold, rules, s) && RunTo(names, threshold, rules, actions, worlds, w)
    ensures SomeClean(w, s)
  {
    var n := |actions|;
    OnlyLagTaints(names, threshold, rules, actions, worlds, n);
    LagTaintsLastNamed(names, threshold, actions, worlds, n);
    if c :| c in s && !LastOfItsName(names, c) {
      assert w.taint[c].Clean?;
    } else if 2 * threshold + 1 >= TWO_64 {
      RoomInvariant(names, threshold, rules, actions, worlds, n);
      var c :| c in s;
      assert RoomAt(threshold, w, c);
      assert w.taint[c].Clean?;
    } else if rules.nonDecreasing {
      LagNeverEmptiesThePool(names, threshold, rules, actions, worlds, n);
    } else {
      AllLastIsDistinct(names);
      SparedInvariant(names, threshold, rules, actions, worlds, n);
      var c: nat :| c < |names| && !Doomed(threshold, w, c);
      assert w.taint[c].Clean?;
    }
  }

  lemma OtherSetupsDoNot(names: seq<string>, threshold: nat, rules: Rules, s: set<nat>) returns (w: World)
    requires threshold < TWO_64 && forall c :: c in s ==> c < |names|
    requires !SparingSetup(names, threshold, rules, s)
    ensures Reached(names, threshold, rules, w) && !SomeClean(w, s)
  {
    if s == {} {
      ReachStart(names, threshold, rules);
      w := Start(names);
    } else if !NeverWraps(rules, threshold) {
      w := WrappingRun(names, threshold, rules, s);
    } else if IsEveryone(names, s) {
      w := FallingRun(names, threshold, rules, s);
    } else {
      var d: nat :| d < |names| && d !in s;
      w := OutsideLeader(names, threshold, rules, s, d);
    }
  }

  /** Exactly when lag alone spares somebody of s, for any names, threshold and set of checkers, and for all
      four combinations of rules about the reports. */
  lemma LagSparesIff(names: seq<string>, threshold: nat, rules: Rules, s: set<nat>)
    requires threshold < TWO_64 && rules.lagOnly && forall c :: c in s ==> c < |names|
    ensures LagSpares(names, threshold, rules, s) <==> SparingSetup(names, threshold, rules, s)
  {
    if SparingSetup(names, threshold, rules, s) {
      forall w | Reached(names, threshold, rules, w) ensures SomeClean(w, s) {
        var actions, worlds :| RunTo(names, threshold, rules, actions, worlds, w);
        SparingSetupSpares(names, threshold, rules, s, actions, worlds, w);
      }
    } else {
      var w := OtherSetupsDoNot(names, threshold, rules, s);
    }
  }

  /** For the whole pool under arbitrary reports: lag alone never empties it exactly when two checkers share
      a name, or there is a single checker and the threshold is 0. */
  lemma PoolSurvivesAnyReportsIff(names: seq<string>, threshold: nat, all: set<nat>)
    requires threshold < TWO_64 && names != [] && IsEveryone(names, all)
    ensures LagSpares(names, threshold, Rules(false, false, true), all) <==>
            !Distinct(names) || (|names| == 1 && threshold == 0)
  {
    LagSparesIff(names, threshold, Rules(false, false, true), all);
    DistinctIsAllLast(names);
    assert 0 in all;
  }

  lemma DistinctIsAllLast(names: seq<string>)
    ensures Distinct(names) <==> forall c :: 0 <= c < |names| ==> LastOfItsName(names, c)
  {
    if Distinct(names) {
      forall c | 0 <= c < |names| ensures LastOfItsName(names, c) {
        LastIndexOfDistinct(names, c);
      }
    }
    if forall c :: 0 <= c < |names| ==> LastOfItsName(names, c) {
      AllLastIsDistinct(names);
    }
  }

  /** No checker that holds the maximum is ever tainted for lag. */
  ghost predicate LeadersSpared(names: seq<string>, threshold: nat, rules: Rules) {
    forall w, c: nat :: Reached(names, threshold, rules, w) ==> !LagTaintedLeader(w, c)
  }

  ghost predicate LagTaintedLeader(w: World, c: nat) {
    c < |w.block| == |w.taint| && w.block[c] == MaxBlock(w.block) && w.taint[c].ByLag?
  }

  ghost predicate FairSetup(names: seq<string>, threshold: nat, rules: Rules) {
    names == [] ||
    (NeverWraps(rules, threshold) &&
     (2 * threshold + 1 >= TWO_64 || |names| == 1 || (rules.nonDecreasing && Distinct(names))))
  }

  lemma FairSetupSparesLeaders(
    names: seq<string>, threshold: nat, rules: Rules, actions: seq<Action>, worlds: seq<World>, w: World, c: nat)
    requires threshold < TWO_64 && FairSetup(names, threshold, rules)
    requires RunTo(names, threshold, rules, actions, worlds, w)
    ensures !LagTaintedLeader(w, c)
  {
    var n := |actions|;
    LagTaintsLastNamed(names, threshold, actions, worlds, n);
    if names != [] && c < |names| {
      if 2 * threshold + 1 >= TWO_64 {
        RoomInvariant(names, threshold, rules, actions, worlds, n);
        assert RoomAt(threshold, w, c);
      } else if |names| == 1 {
        SparedInvariant(names, threshold, rules, actions, worlds, n);
      } else {
        LagNeverEmptiesThePool(names, threshold, rules, actions, worlds, n);
      }
    }
  }

  /** The last checker of all lags behind the first, which then falls back to the same number. */
  lemma LeaderFalls(names: seq<string>, threshold: nat, rules: Rules) returns (w: World)
    requires !rules.nonDecreasing && 2 * threshold + 1 < TWO_64 && |names| >= 2
    ensures Reached(names, threshold, rules, w) && LagTaintedLeader(w, |names| - 1)
  {
    var n := |names| - 1;
    w := OutsideLeader(names, threshold, rules, {n}, 0);
    Cycle(names, threshold, rules, w, 0, 0);
    w := AfterCycle(names, threshold, w, 0, 0);
    MaxBlockBounds(w.block);
  }

  /** Two checkers share a name: the last of them leads, the other one reports and gets the leader tainted. */
  lemma NamesakeLags(names: seq<string>, threshold: nat, rules: Rules) returns (w: World, leader: nat)
    requires !Distinct(names) && 2 * threshold + 1 < TWO_64
    ensures Reached(names, threshold, rules, w) && LagTaintedLeader(w, leader)
  {
    var c: nat, d: nat :| c < d < |names| && names[c] == names[d];
    LastIndexOfIsLast(names, names[c]);
    leader := LastIndexOf(names, names[c]).value;
    w := OutsideLeader(names, threshold, rules, {}, leader);
    Cycle(names, threshold, rules, w, c, 0);
    w := AfterCycle(names, threshold, w, c, 0);
    MaxBlockBounds(w.block);
  }

  /** Exactly when a maximum holder is safe from lag taints, in all runs under the rules: with non-decreasing
      reports that do not wrap and at least two checkers, exactly when no two checkers share a name or the
      threshold is too large for any lag. */
  lemma LeadersSparedIff(names: seq<string>, threshold: nat, rules: Rules)
    requires threshold < TWO_64
    ensures LeadersSpared(names, threshold, rules) <==> FairSetup(names, threshold, rules)
  {
    if FairSetup(names, threshold, rules) {
      forall w, c: nat | Reached(names, threshold, rules, w) ensures !LagTaintedLeader(w, c) {
        var actions, worlds :| RunTo(names, threshold, rules, actions, worlds, w);
        FairSetupSparesLeaders(names, threshold, rules, actions, worlds, w, c);
      }
    } else {
      var w, c := LeaderTainted(names, threshold, rules);
      assert Reached(names, threshold, rules, w) && LagTaintedLeader(w, c);
    }
  }

  lemma LeaderTainted(names: seq<string>, threshold: nat, rules: Rules) returns (w: World, c: nat)
    requires threshold < TWO_64 && !FairSetup(names, threshold, rules)
    ensures Reached(names, threshold, rules, w) && LagTaintedLeader(w, c)
  {
    if !NeverWraps(rules, threshold) {
      c := |names| - 1;
      w := WrappingRun(names, threshold, rules, {c});
      MaxBlockBounds(w.block);
    } else if !rules.nonDecreasing {
      c := |names| - 1;
      w := LeaderFalls(names, threshold, rules);
    } else {
      w, c := NamesakeLags(names, threshold, rules);
    }
  }

  // ----- concrete runs --------------------------------------------------------------------------

  /** Falling reports: the leader taints the other checker and then falls behind the number that one left. */
  lemma FallingReportEmptiesThePool()
    ensures exists w :: Reached(["a", "b"], 2, Rules(false, true, true), w) && w.taint == [ByLag, ByLag]
  {
    var names := ["a", "b"];
    DistinctIsAllLast(names);
    var w := FallingRun(names, 2, Rules(false, true, true), {0, 1});
    assert w.taint == [ByLag, ByLag];
  }

  /** A wrapping comparison: a report of 2^64 - 1 gets its own checker tainted and then everybody below it. */
  lemma WrappingReportEmptiesThePool()
    ensures exists w :: Reached(["a", "b"], 2, Rules(true, false, true), w) &&
                        w.block == [TWO_64 - 1, 100] && w.taint == [ByLag, ByLag]
  {
    var names, rules := ["a", "b"], Rules(true, false, true);
    ReachStart(names, 2, rules);
    DistinctIsAllLast(names);
    assert LastOfItsName(names, 0) && LastOfItsName(names, 1);
    Cycle(names, 2, rules, Start(names), 0, TWO_64 - 1);
    var w1 := AfterCycle(names, 2, Start(names), 0, TWO_64 - 1);
    MaxBlockBounds(w1.block);
    assert w1.taint == [ByLag, Clean] && w1.block == [TWO_64 - 1, 0];
    Cycle(names, 2, rules, w1, 1, 100);
    var w2 := AfterCycle(names, 2, w1, 1, 100);
    MaxBlockBounds(w2.block);
    assert w2.block[0] == TWO_64 - 1;
    assert w2.taint == [ByLag, ByLag] && w2.block == [TWO_64 - 1, 100];
  }

  /** Two connections under one name: the lagging HTTP checker gets the WebSocket checker tainted, even though
      the latter holds the maximum. */
  lemma SharedNameTaintsTheLeader()
    ensures exists w :: Reached(["a", "a"], 2, Rules(true, true, true), w) &&
                        w.block == [50, 100] && w.taint == [Clean, ByLag]
  {
    var names, rules := ["a", "a"], Rules(true, true, true);
    ReachStart(names, 2, rules);
    StartsIdle(names);
    LeaderReports(names, 2, rules, Start(names), 1, 100);
    var w1 := Start(names).(block := Start(names).block[1 := 100]);
    Cycle(names, 2, rules, w1, 0, 50);
    var w2 := AfterCycle(names, 2, w1, 0, 50);
    MaxBlockBounds(w2.block);
    assert w2.block[1] == 100;
    assert w2.block == [50, 100] && w2.taint == [Clean, ByLag];
  }
}
