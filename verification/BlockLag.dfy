/** The block-lag rule and its protocol: every checker stores its block number, scans the others one atomic
    load at a time and then taints the scanned checker that carries its name. */
module BlockLag {
  import opened Arithmetic
  import opened Wrappers
  import opened Sequences

  // ----- the test -------------------------------------------------------------------------------

  /** The largest of the block numbers, 0 if there are none. */
  function MaxBlock(blocks: seq<nat>): nat {
    if blocks == [] then 0
    else
      var m, last := MaxBlock(blocks[..|blocks| - 1]), blocks[|blocks| - 1];
      if last > m then last else m
  }

  lemma {:induction false} MaxBlockBounds(blocks: seq<nat>)
    ensures forall i :: 0 <= i < |blocks| ==> blocks[i] <= MaxBlock(blocks)
    ensures blocks != [] ==> exists i :: 0 <= i < |blocks| && blocks[i] == MaxBlock(blocks)
  {
    if blocks != [] {
      var n := |blocks| - 1;
      MaxBlockBounds(blocks[..n]);
      forall i | 0 <= i < n ensures blocks[i] <= MaxBlock(blocks) {
        assert blocks[..n][i] == blocks[i];
      }
      if MaxBlock(blocks) == blocks[n] || n == 0 {
        assert blocks[n] == MaxBlock(blocks);
      } else {
        var i :| 0 <= i < n && blocks[..n][i] == MaxBlock(blocks[..n]);
        assert blocks[i] == MaxBlock(blocks);
      }
    }
  }

  lemma MaxBlockMonotone(a: seq<nat>, b: seq<nat>)
    requires |a| == |b| && forall i :: 0 <= i < |a| ==> a[i] <= b[i]
    ensures MaxBlock(a) <= MaxBlock(b)
  {
    MaxBlockBounds(a);
    MaxBlockBounds(b);
  }

  /** `maxBlock > updated + threshold` in uint64. */
  predicate LagTest(maxBlock: nat, updated: nat, threshold: nat) {
    maxBlock > (updated + threshold) % TWO_64
  }

  /** The test decides "more than `threshold` behind the maximum" exactly when the addition does not wrap. */
  lemma LagTestExact(blocks: seq<nat>, i: nat, threshold: nat)
    requires i < |blocks| && threshold < TWO_64
    requires forall j :: 0 <= j < |blocks| ==> blocks[j] < TWO_64
    ensures var m, updated := MaxBlock(blocks), blocks[i];
      && ((LagTest(m, updated, threshold) <==> m > updated && m - updated > threshold) <==>
          updated + threshold < TWO_64)
      && (updated + threshold >= TWO_64 ==> LagTest(m, updated, threshold))
  {
    MaxBlockBounds(blocks);
    var sum := blocks[i] + threshold;
    if sum >= TWO_64 {
      assert sum % TWO_64 == sum - TWO_64;
    }
  }

  // ----- the protocol ---------------------------------------------------------------------------

  /** Where a checker's goroutine stands between two atomic actions. */
  datatype Phase =
    | Idle
    | Probing
    | Scanning(next: nat, updated: nat, maxBlock: nat, target: Option<nat>)

  /** Why a checker is tainted; a taint of a tainted checker has no effect. */
  datatype Taintedness = Clean | ByLag | ByOther

  datatype World = World(block: seq<nat>, taint: seq<Taintedness>, phase: seq<Phase>) {
    ghost predicate Fits(names: seq<string>) {
      |block| == |taint| == |phase| == |names|
    }
  }

  datatype Action =
    | Begin(c: nat)                  // the fast-path test passes and the probe is sent
    | Store(c: nat, reported: nat)   // the probe succeeded; the number is stored
    | Scan(c: nat)                   // one load of the scan
    | Verdict(c: nat)                // the comparison, and the taint it may cause
    | TaintOther(c: nat)             // a failed probe or request taints c
    | Removal(c: nat)                // the removal timer of c fires

  predicate Enabled(names: seq<string>, w: World, a: Action)
    requires |w.block| == |w.taint| == |w.phase| == |names|
  {
    a.c < |names| &&
    match a
    case Begin(c) => w.phase[c].Idle? && w.taint[c].Clean?
    case Store(c, reported) => w.phase[c].Probing? && reported < TWO_64
    case Scan(c) => w.phase[c].Scanning? && w.phase[c].next < |names|
    case Verdict(c) => w.phase[c].Scanning? && w.phase[c].next == |names|
    case TaintOther(c) => true
    case Removal(c) => !w.taint[c].Clean?
  }

  function Next(names: seq<string>, threshold: nat, w: World, a: Action): (w': World)
    requires w.Fits(names) && Enabled(names, w, a)
    ensures w'.Fits(names)
  {
    match a
    case Begin(c) => w.(phase := w.phase[c := Probing])
    case Store(c, reported) =>
      w.(block := w.block[c := reported], phase := w.phase[c := Scanning(0, reported, 0, None)])
    case Scan(c) =>
      var Scanning(next, updated, maxBlock, target) := w.phase[c];
      w.(phase := w.phase[c := Scanning(
        next + 1,
        updated,
        if w.block[next] > maxBlock then w.block[next] else maxBlock,
        if names[next] == names[c] then Some(next) else target)])
    case Verdict(c) =>
      var Scanning(next, updated, maxBlock, target) := w.phase[c];
      w.(phase := w.phase[c := Idle],
         taint := if LagTest(maxBlock, updated, threshold) && target.Some? && target.value < |names| &&
                     w.taint[target.value].Clean?
                  then w.taint[target.value := ByLag] else w.taint)
    case TaintOther(c) => w.(taint := if w.taint[c].Clean? then w.taint[c := ByOther] else w.taint)
    case Removal(c) => w.(taint := w.taint[c := Clean])
  }

  function Start(names: seq<string>): World {
    World(seq(|names|, _ => 0), seq(|names|, _ => Clean), seq(|names|, _ => Idle))
  }

  /** `worlds` is an execution: one world before each action and one after the last. */
  ghost predicate Execution(names: seq<string>, threshold: nat, actions: seq<Action>, worlds: seq<World>) {
    && |worlds| == |actions| + 1
    && worlds[0].Fits(names)
    && forall i :: 0 <= i < |actions| ==> StepAt(names, threshold, actions, worlds, i)
  }

  ghost predicate StepAt(names: seq<string>, threshold: nat, actions: seq<Action>, worlds: seq<World>, i: nat)
    requires |worlds| == |actions| + 1 && i < |actions|
  {
    worlds[i].Fits(names) && Enabled(names, worlds[i], actions[i]) &&
    worlds[i + 1] == Next(names, threshold, worlds[i], actions[i])
  }

  // ----- which checker a verdict can hit --------------------------------------------------------

  /** The scan's target is the last matching position seen so far. */
  ghost predicate TargetInv(names: seq<string>, w: World) {
    && w.Fits(names)
    && (forall c :: 0 <= c < |names| && w.phase[c].Scanning? ==>
          w.phase[c].next <= |names| && w.phase[c].target == LastIndexOf(names[..w.phase[c].next], names[c]))
    && forall c :: 0 <= c < |names| && w.taint[c].ByLag? ==> LastIndexOf(names, names[c]) == Some(c)
  }

  lemma TargetStep(names: seq<string>, threshold: nat, w: World, a: Action)
    requires TargetInv(names, w) && Enabled(names, w, a)
    ensures TargetInv(names, Next(names, threshold, w, a))
  {
    var c := a.c;
    if a.Scan? {
      var next := w.phase[c].next;
      assert names[..next + 1][..next] == names[..next];
    } else if a.Verdict? {
      assert names[..|names|] == names;
      LastIndexOfIsLast(names, names[c]);
    } else if a.Store? {
      assert names[..0] == [];
    }
  }

  /** Lag only ever taints a checker that is the last one with its name, in every interleaving. */
  lemma {:induction false} LagTaintsLastNamed(
    names: seq<string>, threshold: nat, actions: seq<Action>, worlds: seq<World>, i: nat)
    requires Execution(names, threshold, actions, worlds) && worlds[0] == Start(names) && i <= |actions|
    ensures TargetInv(names, worlds[i])
  {
    if i > 0 {
      LagTaintsLastNamed(names, threshold, actions, worlds, i - 1);
      assert StepAt(names, threshold, actions, worlds, i - 1);
      TargetStep(names, threshold, worlds[i - 1], actions[i - 1]);
    }
  }

  // ----- soundness ------------------------------------------------------------------------------

  /** What a run may be assumed to obey: block numbers of a checker do not go down, the comparison does not
      wrap, and nothing but lag taints. */
  datatype Rules = Rules(nonDecreasing: bool, noWrap: bool, lagOnly: bool)

  predicate Allowed(rules: Rules, threshold: nat, w: World, a: Action) {
    && (rules.lagOnly ==> !a.TaintOther?)
    && (a.Store? && a.c < |w.block| ==>
          && (rules.nonDecreasing ==> w.block[a.c] <= a.reported)
          && (rules.noWrap ==> a.reported + threshold < TWO_64))
  }

  /** The comparison cannot wrap: by rule, or because adding a threshold of 0 never does. */
  predicate NeverWraps(rules: Rules, threshold: nat) {
    rules.noWrap || threshold == 0
  }

  ghost predicate Obeys(rules: Rules, threshold: nat, actions: seq<Action>, worlds: seq<World>)
    requires |worlds| == |actions| + 1
  {
    forall i :: 0 <= i < |actions| ==> Allowed(rules, threshold, worlds[i], actions[i])
  }

  /** A run from the start that obeys the rules. */
  ghost predicate RunOf(
    names: seq<string>, threshold: nat, rules: Rules, actions: seq<Action>, worlds: seq<World>)
  {
    Execution(names, threshold, actions, worlds) && worlds[0] == Start(names) && Obeys(rules, threshold, actions, worlds)
  }

  ghost predicate LagInvAt(names: seq<string>, threshold: nat, w: World, c: nat)
    requires w.Fits(names) && c < |names|
  {
    && (w.phase[c].Scanning? ==>
          && w.phase[c].updated == w.block[c]
          && w.phase[c].maxBlock <= MaxBlock(w.block)
          && w.block[c] + threshold < TWO_64
          && (w.phase[c].target.Some? ==> w.phase[c].target.value == c))
    && (w.taint[c].ByLag? ==> w.phase[c].Idle? && w.block[c] + threshold < MaxBlock(w.block))
  }

  ghost predicate LagInv(names: seq<string>, threshold: nat, w: World) {
    w.Fits(names) && forall c :: 0 <= c < |names| ==> LagInvAt(names, threshold, w, c)
  }

  lemma LagStep(names: seq<string>, threshold: nat, rules: Rules, w: World, a: Action)
    requires Distinct(names) && LagInv(names, threshold, w) && Enabled(names, w, a)
    requires Allowed(rules, threshold, w, a) && rules.nonDecreasing && NeverWraps(rules, threshold)
    ensures LagInv(names, threshold, Next(names, threshold, w, a))
  {
    var w' := Next(names, threshold, w, a);
    MaxBlockMonotone(w.block, w'.block);
    MaxBlockBounds(w.block);
    forall c | 0 <= c < |names| ensures LagInvAt(names, threshold, w', c) {
      assert LagInvAt(names, threshold, w, c);
      assert LagInvAt(names, threshold, w, a.c);
    }
  }

  lemma {:induction false} LagInvariant(
    names: seq<string>, threshold: nat, rules: Rules, actions: seq<Action>, worlds: seq<World>, i: nat)
    requires Distinct(names) && RunOf(names, threshold, rules, actions, worlds) && i <= |actions|
    requires rules.nonDecreasing && NeverWraps(rules, threshold)
    ensures LagInv(names, threshold, worlds[i])
  {
    if i > 0 {
      LagInvariant(names, threshold, rules, actions, worlds, i - 1);
      assert StepAt(names, threshold, actions, worlds, i - 1);
      assert Allowed(rules, threshold, worlds[i - 1], actions[i - 1]);
      LagStep(names, threshold, rules, worlds[i - 1], actions[i - 1]);
    }
  }

  /** In every interleaving without falling reports and without wrap: with one checker per name every
      lag-tainted checker is more than the threshold below the current maximum, so whoever holds the maximum
      is not lag-tainted; and for any names, if lag is the only cause, somebody is untainted. */
  lemma LagNeverEmptiesThePool(
    names: seq<string>, threshold: nat, rules: Rules, actions: seq<Action>, worlds: seq<World>, i: nat)
    requires RunOf(names, threshold, rules, actions, worlds) && i <= |actions|
    requires rules.nonDecreasing && NeverWraps(rules, threshold)
    ensures worlds[i].Fits(names)
    ensures Distinct(names) ==> forall c :: 0 <= c < |names| && worlds[i].taint[c].ByLag? ==>
              worlds[i].block[c] + threshold < MaxBlock(worlds[i].block)
    ensures Distinct(names) ==> forall c :: 0 <= c < |names| && worlds[i].block[c] == MaxBlock(worlds[i].block) ==>
              !worlds[i].taint[c].ByLag?
    ensures names != [] && rules.lagOnly ==> exists c :: 0 <= c < |names| && worlds[i].taint[c].Clean?
  {
    var w := worlds[i];
    LagTaintsLastNamed(names, threshold, actions, worlds, i);
    if Distinct(names) {
      LagInvariant(names, threshold, rules, actions, worlds, i);
      forall c | 0 <= c < |names| && w.taint[c].ByLag? ensures w.block[c] + threshold < MaxBlock(w.block) {
        assert LagInvAt(names, threshold, w, c);
      }
    }
    if names != [] && rules.lagOnly {
      OnlyLagTaints(names, threshold, rules, actions, worlds, i);
      var c: nat;
      if Distinct(names) {
        MaxBlockBounds(w.block);
        c :| c < |w.block| && w.block[c] == MaxBlock(w.block);
      } else {
        var d: nat;
        c, d :| c < d < |names| && names[c] == names[d];
        LastIndexOfIsLast(names, names[c]);
      }
      assert w.taint[c].Clean?;
    }
  }

  lemma {:induction false} OnlyLagTaints(
    names: seq<string>, threshold: nat, rules: Rules, actions: seq<Action>, worlds: seq<World>, i: nat)
    requires RunOf(names, threshold, rules, actions, worlds) && i <= |actions| && rules.lagOnly
    ensures worlds[i].Fits(names) && forall c :: 0 <= c < |names| ==> !worlds[i].taint[c].ByOther?
  {
    if i > 0 {
      OnlyLagTaints(names, threshold, rules, actions, worlds, i - 1);
      assert StepAt(names, threshold, actions, worlds, i - 1);
      assert Allowed(rules, threshold, worlds[i - 1], actions[i - 1]);
    }
  }

  // ----- completeness ---------------------------------------------------------------------------

  /** The scan of `c` has seen everything that was stored in the positions it passed when it began. */
  ghost predicate Covers(names: seq<string>, seen: seq<nat>, w: World, c: nat) {
    && w.Fits(names) && |seen| == |names| && c < |names|
    && (forall d :: 0 <= d < |names| ==> seen[d] <= w.block[d])
    && w.phase[c].Scanning?
    && w.phase[c].updated == seen[c]
    && w.phase[c].next <= |names|
    && (forall d :: 0 <= d < w.phase[c].next ==> seen[d] <= w.phase[c].maxBlock)
    && w.phase[c].target == LastIndexOf(names[..w.phase[c].next], names[c])
  }

  lemma CoversStep(names: seq<string>, threshold: nat, rules: Rules, seen: seq<nat>, w: World, a: Action, c: nat)
    requires Covers(names, seen, w, c) && Enabled(names, w, a)
    requires Allowed(rules, threshold, w, a) && rules.nonDecreasing && a != Verdict(c)
    ensures Covers(names, seen, Next(names, threshold, w, a), c)
  {
    if a == Scan(c) {
      var next := w.phase[c].next;
      assert names[..next + 1][..next] == names[..next];
    }
  }

  lemma TooFarBehind(maxBlock: nat, updated: nat, threshold: nat)
    requires maxBlock > updated + threshold && updated + threshold < TWO_64
    ensures LagTest(maxBlock, updated, threshold)
  {}

  lemma CoveredScanEnds(names: seq<string>, seen: seq<nat>, w: World, c: nat, d: nat)
    requires Covers(names, seen, w, c) && w.phase[c].next == |names| && d < |names|
    ensures w.phase[c].updated == seen[c] && seen[d] <= w.phase[c].maxBlock
    ensures w.phase[c].target == LastIndexOf(names, names[c])
  {
    assert names[..|names|] == names;
  }

  lemma VerdictTaints(names: seq<string>, threshold: nat, w: World, c: nat, t: nat)
    requires w.Fits(names) && Enabled(names, w, Verdict(c)) && t < |names| && w.phase[c].target == Some(t)
    requires LagTest(w.phase[c].maxBlock, w.phase[c].updated, threshold)
    ensures !Next(names, threshold, w, Verdict(c)).taint[t].Clean?
  {}

  lemma LateVerdict(names: seq<string>, threshold: nat, seen: seq<nat>, w: World, c: nat, d: nat)
    requires Covers(names, seen, w, c) && Enabled(names, w, Verdict(c)) && d < |names|
    requires seen[d] > seen[c] + threshold && seen[c] + threshold < TWO_64
    ensures var target := LastIndexOf(names, names[c]);
      target.Some? && target.value < |names| && !Next(names, threshold, w, Verdict(c)).taint[target.value].Clean?
  {
    CoveredScanEnds(names, seen, w, c, d);
    LastIndexOfIsLast(names, names[c]);
    TooFarBehind(w.phase[c].maxBlock, w.phase[c].updated, threshold);
    VerdictTaints(names, threshold, w, c, LastIndexOf(names, names[c]).value);
  }

  lemma StoreKeepsOthers(names: seq<string>, threshold: nat, rules: Rules, w: World, c: nat, reported: nat, d: nat)
    requires w.Fits(names) && Enabled(names, w, Store(c, reported)) && d < |names|
    requires Allowed(rules, threshold, w, Store(c, reported)) && rules.nonDecreasing && NeverWraps(rules, threshold)
    requires w.block[d] > reported + threshold
    ensures reported + threshold < TWO_64
    ensures var w' := Next(names, threshold, w, Store(c, reported));
      w'.block[d] == w.block[d] && w'.block[c] == reported
  {}

  /** A report that is too far behind a number already stored when it is made leaves the last checker of its
      name tainted, whatever the others do between the store and the verdict. */
  lemma LaggardIsTainted(
    names: seq<string>, threshold: nat, rules: Rules, actions: seq<Action>, worlds: seq<World>,
    c: nat, reported: nat, d: nat)
    requires Execution(names, threshold, actions, worlds) && Obeys(rules, threshold, actions, worlds)
    requires rules.nonDecreasing && NeverWraps(rules, threshold)
    requires |actions| >= 2 && c < |names| && d < |names|
    requires actions[0] == Store(c, reported) && actions[|actions| - 1] == Verdict(c)
    requires forall i :: 0 < i < |actions| - 1 ==> actions[i] != Verdict(c)
    requires worlds[0].Fits(names) && worlds[0].block[d] > reported + threshold
    ensures var w, target := worlds[|actions|], LastIndexOf(names, names[c]);
      w.Fits(names) && target.Some? && target.value < |names| && !w.taint[target.value].Clean?
    ensures Distinct(names) ==> LastIndexOf(names, names[c]) == Some(c)
  {
    var n := |actions| - 1;
    assert StepAt(names, threshold, actions, worlds, 0);
    ScanCovers(names, threshold, rules, actions, worlds, c, n);
    assert StepAt(names, threshold, actions, worlds, n);
    assert Allowed(rules, threshold, worlds[0], actions[0]);
    StoreKeepsOthers(names, threshold, rules, worlds[0], c, reported, d);
    LateVerdict(names, threshold, worlds[1].block, worlds[n], c, d);
    if Distinct(names) {
      LastIndexOfDistinct(names, c);
    }
  }

  lemma {:induction false} ScanCovers(
    names: seq<string>, threshold: nat, rules: Rules, actions: seq<Action>, worlds: seq<World>, c: nat, i: nat)
    requires Execution(names, threshold, actions, worlds) && Obeys(rules, threshold, actions, worlds)
    requires rules.nonDecreasing && c < |names|
    requires 0 < i < |actions| && actions[0].Store? && actions[0].c == c
    requires forall j :: 0 < j < |actions| - 1 ==> actions[j] != Verdict(c)
    ensures worlds[1].Fits(names) && Covers(names, worlds[1].block, worlds[i], c)
  {
    if i == 1 {
      assert StepAt(names, threshold, actions, worlds, 0);
      assert names[..0] == [];
    } else {
      ScanCovers(names, threshold, rules, actions, worlds, c, i - 1);
      assert StepAt(names, threshold, actions, worlds, i - 1);
      assert Allowed(rules, threshold, worlds[i - 1], actions[i - 1]);
      CoversStep(names, threshold, rules, worlds[1].block, worlds[i - 1], actions[i - 1], c);
    }
  }
}
