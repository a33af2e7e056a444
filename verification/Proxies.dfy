/** The proxy object: providers linked to their health checkers, and an HTTP request served with failover on a
    response writer.  The methods are proved against FailoverSpec and TaintSpec. */
module Proxies {
  import opened Arithmetic
  import opened Wrappers
  import opened Sequences
  import opened HealthCheckers
  import opened HealthCheckManagers
  import opened FailoverSpec
  import ResponseWriters
  import TaintSpec
  import Quarantine

  class NodeProvider {
    const name: string
    const httpChecker: HealthChecker?
    const wsChecker: HealthChecker?

    constructor (name: string, httpChecker: HealthChecker?, wsChecker: HealthChecker?)
      ensures this.name == name && this.httpChecker == httpChecker && this.wsChecker == wsChecker
    {
      this.name, this.httpChecker, this.wsChecker := name, httpChecker, wsChecker;
    }

    predicate IsHealthy(connectionType: string)
      reads httpChecker, wsChecker
    {
      if connectionType == WEBSOCKET then wsChecker != null && wsChecker.IsHealthy()
      else httpChecker != null && httpChecker.IsHealthy()
    }
  }

  /** The checker that a lookup of the manager returns. */
  ghost predicate Linked(hcm: HealthCheckManager, name: string, connectionType: string, checker: HealthChecker?)
    reads hcm
  {
    match LastWithKey(hcm.Ids(), Key(name, connectionType))
    case None => checker == null
    case Some(i) => i < |hcm.checkers| && checker == hcm.checkers[i]
  }

  /** The first provider of `tainted` that has this HTTP checker. */
  ghost function FirstHit(targets: seq<NodeProvider>, tainted: seq<nat>, c: HealthChecker): Option<nat> {
    if tainted == [] then None
    else
      var earlier, last := FirstHit(targets, tainted[..|tainted| - 1], c), tainted[|tainted| - 1];
      if earlier.Some? then earlier
      else if last < |targets| && targets[last].httpChecker == c then Some(last)
      else None
  }

  lemma {:induction false} FirstHitGrows(targets: seq<NodeProvider>, tainted: seq<nat>, p: nat, c: HealthChecker)
    ensures FirstHit(targets, tainted + [p], c) ==
            if FirstHit(targets, tainted, c).Some? then FirstHit(targets, tainted, c)
            else if p < |targets| && targets[p].httpChecker == c then Some(p) else None
  {
    assert (tainted + [p])[..|tainted|] == tainted;
  }

  ghost function TaintedIf(hit: bool, s: TaintSpec.State, now: int): TaintSpec.State {
    if hit then TaintSpec.Taint(s, TaintSpec.HTTP_CONFIG, now) else s
  }

  /** The state of a checker after the providers in `tainted` were tainted, each at its own time. */
  ghost function AfterTaints(
    targets: seq<NodeProvider>, tainted: seq<nat>, times: seq<int>, c: HealthChecker, s: TaintSpec.State)
    : TaintSpec.State
    requires |times| == |targets|
  {
    var hit := FirstHit(targets, tainted, c);
    if hit.Some? && hit.value < |times| then TaintedIf(true, s, times[hit.value]) else s
  }

  class Proxy {
    const hcm: HealthCheckManager
    var targets: seq<NodeProvider>

    constructor (config: seq<Target>, chainType: string, blockDiffThreshold: nat)
      requires blockDiffThreshold < TWO_64
      ensures hcm.Valid() && hcm.Ids() == CheckerIds(config) && hcm.blockDiffThreshold == blockDiffThreshold
      ensures forall c :: c in hcm.checkers ==> New(c, chainType)
      ensures |targets| == |config|
      ensures forall p :: 0 <= p < |targets| ==>
        && targets[p].name == config[p].name
        && Linked(hcm, targets[p].name, HTTP, targets[p].httpChecker)
        && Linked(hcm, targets[p].name, WEBSOCKET, targets[p].wsChecker)
      ensures DistinctTargets(config) ==>
        && SeparateCheckers(targets)
        && forall p :: 0 <= p < |targets| ==> (targets[p].httpChecker != null <==> config[p].httpURL != "")
    {
      var manager := new HealthCheckManager(config, chainType, blockDiffThreshold);
      var providers: seq<NodeProvider> := [];
      for p := 0 to |config|
        invariant manager.Valid() && manager.Ids() == CheckerIds(config)
        invariant forall c :: c in manager.checkers ==> New(c, chainType)
        invariant |providers| == p
        invariant forall q :: 0 <= q < p ==>
          && providers[q].name == config[q].name
          && Linked(manager, providers[q].name, HTTP, providers[q].httpChecker)
          && Linked(manager, providers[q].name, WEBSOCKET, providers[q].wsChecker)
      {
        var httpChecker := manager.GetHealthChecker(config[p].name, HTTP);
        var wsChecker := manager.GetHealthChecker(config[p].name, WEBSOCKET);
        var provider := new NodeProvider(config[p].name, httpChecker, wsChecker);
        providers := providers + [provider];
      }
      hcm, targets := manager, providers;
      new;
      if DistinctTargets(config) {
        LinksAreSeparate(hcm, config, targets);
      }
    }

    ghost function Checkers(): set<HealthChecker>
      reads this
    {
      set p | 0 <= p < |targets| && targets[p].httpChecker != null :: targets[p].httpChecker as HealthChecker
    }

    ghost function WebSocketCheckers(): set<HealthChecker>
      reads this
    {
      set p | 0 <= p < |targets| && targets[p].wsChecker != null :: targets[p].wsChecker as HealthChecker
    }

    /** Which targets are healthy for a connection type. */
    ghost function Flags(connectionType: string): seq<bool>
      reads this, Checkers(), WebSocketCheckers()
    {
      seq(|targets|, p requires 0 <= p < |targets| reads this, Checkers(), WebSocketCheckers() =>
        targets[p].IsHealthy(connectionType))
    }

    /** The healthy targets, by position. */
    method GetHealthyProviders(connectionType: string) returns (healthy: seq<nat>)
      ensures healthy == Healthy(Flags(connectionType))
      ensures forall p: nat :: p in healthy <==> (
        && p < |targets|
        && var c := if connectionType == "websocket" then targets[p].wsChecker else targets[p].httpChecker;
           c != null && !c.isTainted)
      ensures forall i, j :: 0 <= i < j < |healthy| ==> healthy[i] < healthy[j]
    {
      healthy := [];
      for p := 0 to |targets|
        invariant healthy == Healthy(Flags(connectionType)[..p])
      {
        assert Flags(connectionType)[..p + 1][..p] == Flags(connectionType)[..p];
        if targets[p].IsHealthy(connectionType) {
          healthy := healthy + [p];
        }
      }
      assert Flags(connectionType)[..|targets|] == Flags(connectionType);
      HealthyIsOrderedFilter(Flags(connectionType));
    }

    /** Copies the marker, the status and what arrives of the body. */
    method CopyResponse(w: ResponseWriters.ResponseWriter, provider: nat, up: Upstream) returns (error: Option<GoError>)
      requires up.Response?
      modifies w
      ensures (w.Contents(), error) == FailoverSpec.CopyResponse(old(w.Contents()), provider, up)
    {
      if !w.statusSet {
        w.statusSet := true;
        w.WriteHeader(up.status);
      }
      var bytes := Delivered(up);
      if bytes != [] {
        w.Write(ProviderBytes(provider, bytes));
      }
      if up.transfer.Broken? {
        if IsBrokenPipeError(up.transfer.error) {
          return Some(Wrapped("client disconnected", up.transfer.error));
        }
        return Some(Wrapped("failed to stream response", up.transfer.error));
      }
      return None;
    }

    method WriteErrorResponse(w: ResponseWriters.ResponseWriter, message: Message, status: int)
      modifies w
      ensures w.Contents() == FailoverSpec.WriteJSONRPCError(old(w.Contents()), message, status)
    {
      ResponseWriters.WriteJSONRPCError(w, message, status);
    }

    method HandleProviderFailure(target: NodeProvider, now: int)
      requires target in targets
      modifies Checkers()
      ensures forall c :: c in Checkers() ==>
        c.Contents() == TaintedIf(c == target.httpChecker, old(c.Contents()), now)
    {
      var hc := target.httpChecker;
      if hc != null {
        assert hc in Checkers();
        var _ := hc.TaintHTTP(now);
      }
    }

    method ForwardRequest(w: ResponseWriters.ResponseWriter, p: nat, up: Upstream, now: int) returns (code: int)
      requires p < |targets|
      modifies w, Checkers()
      ensures var f := FailoverSpec.ForwardRequest(old(w.Contents()), p, up);
        && w.Contents() == f.writer && code == f.code
        && forall c :: c in Checkers() ==>
             c.Contents() == TaintedIf(f.taints && c == targets[p].httpChecker, old(c.Contents()), now)
    {
      match up
      case BuildError =>
        HandleProviderFailure(targets[p], now);
        return 0;
      case TransportError =>
        HandleProviderFailure(targets[p], now);
        return 0;
      case Response(status, _, _) =>
        if status < 200 || status >= 300 {
          HandleProviderFailure(targets[p], now);
          return 0;
        }
        var error := CopyResponse(w, p, up);
        if error.Some? {
          if IsBrokenPipeError(error.value) {
            return -1;
          }
          HandleProviderFailure(targets[p], now);
          return 0;
        }
        return 1;
    }

    /** One HTTP request.  `bodyRead` tells whether the request body could be read, `ups[p]` what happens if
        provider p is tried and `times[p]` when it would be tainted. */
    method ServeHTTP(w: ResponseWriters.ResponseWriter, bodyRead: bool, ups: seq<Upstream>, times: seq<int>)
      requires |ups| == |times| == |targets|
      modifies w, Checkers()
      ensures var served := FailoverSpec.ServeHTTP(old(w.Contents()), bodyRead, Healthy(old(Flags(HTTP))), ups);
        w.Contents() == served.writer && TaintedSince(old(States()), served.tainted, times)
      ensures old(w.Contents()) == FRESH && !bodyRead ==> w.Contents() == Writer(true, [400], [ErrorObject(ReadFailed)])
      ensures old(w.Contents()) == FRESH && bodyRead && true !in old(Flags(HTTP)) ==>
        w.Contents() == Writer(true, [503], [ErrorObject(NoneHealthy)])
    {
      if !bodyRead {
        WriteErrorResponse(w, ReadFailed, 400);
        return;
      }
      var healthy := GetHealthyProviders(HTTP);
      assert Flags(HTTP) == old(Flags(HTTP));
      SomebodyHealthy(Flags(HTTP));
      if healthy == [] {
        WriteErrorResponse(w, NoneHealthy, 503);
        return;
      }
      TryProviders(w, healthy, ups, times);
    }

    /** The loop over the snapshot of healthy providers. */
    method TryProviders(
      w: ResponseWriters.ResponseWriter, healthy: seq<nat>, ups: seq<Upstream>, times: seq<int>)
      requires |ups| == |times| == |targets|
      requires forall i :: 0 <= i < |healthy| ==> healthy[i] < |targets|
      modifies w, Checkers()
      ensures w.Contents() == ServeFrom(old(w.Contents()), healthy, ups).writer
      ensures TaintedSince(old(States()), ServeFrom(old(w.Contents()), healthy, ups).tainted, times)
    {
      ghost var start := States();
      ghost var tainted: seq<nat> := [];
      for i := 0 to |healthy|
        invariant TaintedSince(start, tainted, times)
        invariant ServeFrom(old(w.Contents()), healthy, ups) ==
                  After(healthy[..i], tainted, ServeFrom(w.Contents(), healthy[i..], ups))
      {
        var p := healthy[i];
        ServeFromUnfolds(w.Contents(), healthy, i, ups, tainted);
        var code;
        code, tainted := TryProvider(w, p, ups[p], times, start, tainted);
        if code == 1 {
          return;
        } else if code == -1 {
          return;
        }
        if w.statusSet {
          return;
        }
      }
      assert healthy[|healthy|..] == [] && tainted + [] == tainted;
      WriteErrorResponse(w, AllFailed, 503);
    }

    /** One forward, with its effect added to those of the providers tainted before. */
    method TryProvider(
      w: ResponseWriters.ResponseWriter, p: nat, up: Upstream, times: seq<int>,
      ghost start: map<HealthChecker, TaintSpec.State>, ghost tainted: seq<nat>)
      returns (code: int, ghost tainted': seq<nat>)
      requires p < |targets| == |times| && TaintedSince(start, tainted, times)
      modifies w, Checkers()
      ensures var f := FailoverSpec.ForwardRequest(old(w.Contents()), p, up);
        && w.Contents() == f.writer && code == f.code
        && tainted' == (if f.taints then tainted + [p] else tainted)
        && TaintedSince(start, tainted', times)
    {
      ghost var f := FailoverSpec.ForwardRequest(w.Contents(), p, up);
      forall c | c in Checkers() {
        AfterOneMore(targets, tainted, p, times, c, start[c], f.taints);
      }
      code := ForwardRequest(w, p, up, times[p]);
      tainted' := if f.taints then tainted + [p] else tainted;
    }

    /** The states of all HTTP checkers. */
    ghost function States(): map<HealthChecker, TaintSpec.State>
      reads this, Checkers()
    {
      map c | c in Checkers() :: c.Contents()
    }

    /** The states of the HTTP checkers in target order: one world of Quarantine. */
    ghost function World(): seq<TaintSpec.State>
      reads this, Checkers()
    {
      var at := WithHTTP(targets);
      seq(|at|, q requires 0 <= q < |at| && at == WithHTTP(targets) reads this, Checkers() =>
        targets[at[q]].httpChecker.Contents())
    }

    /** What ServeHTTP does to separate checker objects, if the whole request takes one instant, is the request
        step of Quarantine among the providers that have an HTTP checker. */
    twostate lemma ServedRequestIsGatewayStep(kinds: seq<TaintSpec.Kind>, ups: seq<Upstream>, times: seq<int>, now: int)
      requires |ups| == |times| == |targets| && old(targets) == targets && SeparateCheckers(targets)
      requires |kinds| == |WithHTTP(targets)|
      requires forall p :: 0 <= p < |times| ==> times[p] == now
      requires TaintedSince(
        old(States()), FailoverSpec.ServeHTTP(FRESH, true, Healthy(old(Flags(HTTP))), ups).tainted, times)
      ensures World() == Quarantine.Next(kinds, old(World()),
                Quarantine.GatewayStep(now, Quarantine.Request(Picked(ups, WithHTTP(targets)))))
    {
      var at := WithHTTP(targets);
      var flags := old(Flags(HTTP));
      assert Picked(flags, at) == Quarantine.Flags(old(World()));
      forall q | 0 <= q < |at| ensures targets[at[q]].httpChecker in Checkers() {}
      RequestIsGatewayStep(targets, kinds, old(World()), World(), flags, ups, times, now);
    }

    /** The checkers have gone from `start` through the taints of the providers in `tainted`. */
    ghost predicate TaintedSince(start: map<HealthChecker, TaintSpec.State>, tainted: seq<nat>, times: seq<int>)
      requires |times| == |targets|
      reads this, Checkers()
    {
      Checkers() == start.Keys &&
      forall c :: c in Checkers() ==> c.Contents() == AfterTaints(targets, tainted, times, c, start[c])
    }
  }

  lemma {:induction false} AfterOneMore(
    targets: seq<NodeProvider>, tainted: seq<nat>, p: nat, times: seq<int>, c: HealthChecker,
    s: TaintSpec.State, taints: bool)
    requires p < |targets| == |times|
    ensures AfterTaints(targets, if taints then tainted + [p] else tainted, times, c, s) ==
            TaintedIf(taints && c == targets[p].httpChecker, AfterTaints(targets, tainted, times, c, s), times[p])
  {
    FirstHitGrows(targets, tainted, p, c);
    FirstHitInRange(targets, tainted, c);
  }

  lemma {:induction false} FirstHitInRange(targets: seq<NodeProvider>, tainted: seq<nat>, c: HealthChecker)
    ensures match FirstHit(targets, tainted, c)
      case None => forall p :: p in tainted && p < |targets| ==> targets[p].httpChecker != c
      case Some(p) => p in tainted && p < |targets| && targets[p].httpChecker == c
  {
    if tainted != [] {
      FirstHitInRange(targets, tainted[..|tainted| - 1], c);
    }
  }

  /** After a request a checker is tainted exactly if it was tainted before or belongs to a provider that was
      tried and failed, at the time of such a failure; every other checker is untouched. */
  lemma {:induction false} NewlyTaintedExactly(
    targets: seq<NodeProvider>, flags: seq<bool>, ups: seq<Upstream>, times: seq<int>, c: HealthChecker,
    s: TaintSpec.State)
    requires |targets| == |flags| == |ups| == |times|
    ensures var served := FailoverSpec.ServeHTTP(FRESH, true, Healthy(flags), ups);
      var after := AfterTaints(targets, served.tainted, times, c, s);
      var failed := exists p :: p in served.tried && p < |targets| && targets[p].httpChecker == c && Fails(ups[p]);
      && (after.isTainted <==> s.isTainted || failed)
      && (if failed then
            exists p :: p in served.tried && p < |targets| && targets[p].httpChecker == c && Fails(ups[p]) &&
              after == TaintSpec.Taint(s, TaintSpec.HTTP_CONFIG, times[p])
          else after == s)
  {
    var served := FailoverSpec.ServeHTTP(FRESH, true, Healthy(flags), ups);
    FailoverTrace(flags, ups);
    FirstHitInRange(targets, served.tainted, c);
  }

  /** What the loop adds up to after `tried` and `tainted`, if the rest of it ends in `rest`. */
  ghost function After(tried: seq<nat>, tainted: seq<nat>, rest: Served): Served {
    Served(rest.writer, tried + rest.tried, tainted + rest.tainted)
  }

  lemma {:induction false} ServeFromUnfolds(w: Writer, healthy: seq<nat>, i: nat, ups: seq<Upstream>, tainted: seq<nat>)
    requires i < |healthy| && forall j :: 0 <= j < |healthy| ==> healthy[j] < |ups|
    ensures var p := healthy[i];
      var f := FailoverSpec.ForwardRequest(w, p, ups[p]);
      var tainted' := if f.taints then tainted + [p] else tainted;
      After(healthy[..i], tainted, ServeFrom(w, healthy[i..], ups)) ==
      if f.code == 1 || f.code == -1 || f.writer.marker
      then Served(f.writer, healthy[..i + 1], tainted')
      else After(healthy[..i + 1], tainted', ServeFrom(f.writer, healthy[i + 1..], ups))
  {
    assert healthy[i..][1..] == healthy[i + 1..];
    assert healthy[..i + 1] == healthy[..i] + [healthy[i]];
  }

  /** Providers with different names never share an HTTP checker. */
  lemma {:induction false} DistinctNamesDistinctCheckers(
    hcm: HealthCheckManager, name: string, other: string, a: HealthChecker?, b: HealthChecker?)
    requires hcm.Valid() && Linked(hcm, name, HTTP, a) && Linked(hcm, other, HTTP, b)
    requires name != other && a != null
    ensures a != b
  {
    var i := LastWithKey(hcm.Ids(), Key(name, HTTP)).value;
    LastIndexOfIsLast(Keys(hcm.Ids()), Key(name, HTTP));
    LastIndexOfIsLast(Keys(hcm.Ids()), Key(other, HTTP));
    if a == b {
      var j := LastWithKey(hcm.Ids(), Key(other, HTTP)).value;
      assert hcm.checkers[i] == hcm.checkers[j];
      SameKeyOverlap(name, HTTP, other, HTTP);
    }
  }

  /** No two providers share an HTTP checker. */
  ghost predicate SeparateCheckers(targets: seq<NodeProvider>) {
    forall p, q :: 0 <= p < q < |targets| && targets[p].httpChecker != null ==>
      targets[p].httpChecker != targets[q].httpChecker
  }

  function HasHTTP(targets: seq<NodeProvider>): seq<bool> {
    seq(|targets|, p requires 0 <= p < |targets| => targets[p].httpChecker != null)
  }

  /** The providers that have an HTTP checker, in target order. */
  function WithHTTP(targets: seq<NodeProvider>): (at: seq<nat>)
    ensures forall q :: 0 <= q < |at| ==> at[q] < |targets| && targets[at[q]].httpChecker != null
    ensures forall p, q :: 0 <= p < q < |at| ==> at[p] < at[q]
  {
    var has := HasHTTP(targets);
    HealthyIsOrderedFilter(has);
    assert forall q :: 0 <= q < |Healthy(has)| ==> Healthy(has)[q] in Healthy(has);
    Healthy(has)
  }

  lemma {:induction false} RequestIsGatewayStep(
    targets: seq<NodeProvider>, kinds: seq<TaintSpec.Kind>, before: seq<TaintSpec.State>,
    after: seq<TaintSpec.State>, flags: seq<bool>, ups: seq<Upstream>, times: seq<int>, now: int)
    requires |targets| == |flags| == |ups| == |times| && SeparateCheckers(targets)
    requires |kinds| == |before| == |after| == |WithHTTP(targets)|
    requires forall p :: 0 <= p < |times| ==> times[p] == now
    requires forall p :: 0 <= p < |flags| && flags[p] ==> targets[p].httpChecker != null
    requires Picked(flags, WithHTTP(targets)) == Quarantine.Flags(before)
    requires forall q :: 0 <= q < |after| ==>
      after[q] == AfterTaints(
        targets, FailoverSpec.ServeHTTP(FRESH, true, Healthy(flags), ups).tainted, times,
        targets[WithHTTP(targets)[q]].httpChecker, before[q])
    ensures after == Quarantine.Next(
              kinds, before, Quarantine.GatewayStep(now, Quarantine.Request(Picked(ups, WithHTTP(targets)))))
  {
    var at := WithHTTP(targets);
    var inner := Quarantine.Serve(before, Picked(ups, at)).tainted;
    forall q | 0 <= q < |at|
      ensures after[q] == if q in inner then TaintSpec.Taint(before[q], TaintSpec.HTTP_CONFIG, now) else before[q]
    {
      RequestTaints(targets, flags, ups, times, now, q, before[q]);
    }
  }

  lemma {:induction false} RequestTaints(
    targets: seq<NodeProvider>, flags: seq<bool>, ups: seq<Upstream>, times: seq<int>, now: int, q: nat,
    s: TaintSpec.State)
    requires |targets| == |flags| == |ups| == |times| && SeparateCheckers(targets)
    requires forall p :: 0 <= p < |times| ==> times[p] == now
    requires forall p :: 0 <= p < |flags| && flags[p] ==> targets[p].httpChecker != null
    requires q < |WithHTTP(targets)|
    ensures var at := WithHTTP(targets);
      var inner := FailoverSpec.ServeHTTP(FRESH, true, Healthy(Picked(flags, at)), Picked(ups, at)).tainted;
      AfterTaints(
        targets, FailoverSpec.ServeHTTP(FRESH, true, Healthy(flags), ups).tainted, times, targets[at[q]].httpChecker, s)
      == if q in inner then TaintSpec.Taint(s, TaintSpec.HTTP_CONFIG, now) else s
  {
    RequestAmong(HasHTTP(targets), flags, ups, q);
    FailoverTrace(flags, ups);
    HitIsOwn(targets, FailoverSpec.ServeHTTP(FRESH, true, Healthy(flags), ups).tainted, WithHTTP(targets)[q]);
  }

  lemma {:induction false} HitIsOwn(targets: seq<NodeProvider>, tainted: seq<nat>, p: nat)
    requires SeparateCheckers(targets) && p < |targets| && targets[p].httpChecker != null
    ensures FirstHit(targets, tainted, targets[p].httpChecker) == if p in tainted then Some(p) else None
  {
    FirstHitInRange(targets, tainted, targets[p].httpChecker);
  }

  /** What RunCycle does to the checker objects of distinctly named targets is, on their HTTP checkers, the
      check-cycle step of Quarantine if an HTTP checker runs it, and no step at all otherwise.  `who` lists the
      targets with an HTTP checker and `at` the positions of these checkers in the manager's list. */
  lemma {:induction false} CycleIsGatewayStep(
    config: seq<Target>, who: seq<nat>, at: seq<nat>, kinds: seq<TaintSpec.Kind>, before: seq<TaintSpec.State>,
    after: seq<TaintSpec.State>, k: TaintSpec.Kind, i: nat, victim: Option<nat>, answers: TaintSpec.Answers, now: int)
    requires DistinctTargets(config) && |who| == |at| == |kinds|
    requires |before| == |after| == |CheckerIds(config)|
    requires forall p, q :: 0 <= p < q < |who| ==> who[p] < who[q]
    requires forall p :: 0 <= p < |at| ==>
      who[p] < |config| && at[p] < |before| && CheckerIds(config)[at[p]] == CheckerId(config[who[p]].name, HTTP) &&
      (at[p] == i ==> kinds[p] == k)
    requires CycleEffect(before, after, k, i, victim, answers, now)
    requires victim.Some? ==> victim == LastIndexOf(NamesOf(CheckerIds(config)), CheckerIds(config)[i].name)
    ensures forall p :: 0 <= p < |at| && at[p] == i ==>
      Picked(after, at) ==
      Quarantine.Next(kinds, Picked(before, at), Quarantine.GatewayStep(now, Quarantine.CheckCycle(p, answers)))
    ensures (forall p :: 0 <= p < |at| ==> at[p] != i) ==> Picked(after, at) == Picked(before, at)
  {
    forall p | 0 <= p < |at| && at[p] != i ensures after[at[p]] == before[at[p]] {
      if victim == Some(at[p]) {
        VictimIsOwn(config, who[p], at[p], i);
      }
    }
    forall p, q | 0 <= p < q < |at| ensures at[p] != at[q] {
      assert TargetNames(config)[who[p]] != TargetNames(config)[who[q]];
    }
  }

  /** No other checker's verdict lands on an HTTP checker. */
  lemma {:induction false} VictimIsOwn(config: seq<Target>, p: nat, v: nat, i: nat)
    requires DistinctTargets(config) && p < |config| && v < |CheckerIds(config)| && i < |CheckerIds(config)|
    requires CheckerIds(config)[v] == CheckerId(config[p].name, HTTP)
    requires LastIndexOf(NamesOf(CheckerIds(config)), CheckerIds(config)[i].name) == Some(v)
    ensures v == i
  {
    var ids := CheckerIds(config);
    LastIndexOfIsLast(NamesOf(ids), ids[i].name);
    CheckersOfTargets(config, ids[i]);
    var t :| 0 <= t < |config| && ids[i] in IdsOf(config[t]);
    assert TargetNames(config)[t] == TargetNames(config)[p];
    LastOfItsNameIff(config, t, i);
    VerdictLandsOnLastConnection(config, t);
  }

  /** With distinct target names exactly the targets with an HTTP URL get an HTTP checker, each its own. */
  lemma {:induction false} LinksAreSeparate(hcm: HealthCheckManager, config: seq<Target>, targets: seq<NodeProvider>)
    requires hcm.Valid() && hcm.Ids() == CheckerIds(config) && DistinctTargets(config) && |targets| == |config|
    requires forall p :: 0 <= p < |targets| ==>
      targets[p].name == config[p].name && Linked(hcm, targets[p].name, HTTP, targets[p].httpChecker)
    ensures SeparateCheckers(targets)
    ensures forall p :: 0 <= p < |targets| ==> (targets[p].httpChecker != null <==> config[p].httpURL != "")
  {
    forall p, q | 0 <= p < q < |targets| && targets[p].httpChecker != null
      ensures targets[p].httpChecker != targets[q].httpChecker
    {
      assert TargetNames(config)[p] != TargetNames(config)[q];
      DistinctNamesDistinctCheckers(
        hcm, targets[p].name, targets[q].name, targets[p].httpChecker, targets[q].httpChecker);
    }
    forall p | 0 <= p < |targets| ensures targets[p].httpChecker != null <==> config[p].httpURL != "" {
      HTTPLookup(config, p);
    }
  }

  lemma {:induction false} HTTPLookup(config: seq<Target>, p: nat)
    requires DistinctTargets(config) && p < |config|
    ensures LastWithKey(CheckerIds(config), Key(config[p].name, HTTP)).Some? <==> config[p].httpURL != ""
  {
    var ids, id := CheckerIds(config), CheckerId(config[p].name, HTTP);
    IdsAreReal(config);
    ColonInside(HTTP, HTTP);
    ColonInside(HTTP, WEBSOCKET);
    LookupsAgree(ids, config[p].name, HTTP);
    LastIndexOfIsLast(ids, id);
    CheckersOfTargets(config, id);
    if t :| 0 <= t < |config| && id in IdsOf(config[t]) {
      assert TargetNames(config)[t] == TargetNames(config)[p];
    }
    if config[p].httpURL != "" {
      assert IdsOf(config[p])[0] == id;
    }
  }
}
