/** Failover of one HTTP request over a snapshot of healthy providers, with the response header marker that
    tells whether the response is already committed. */
module FailoverSpec {
  import opened Wrappers

  // ----- errors ---------------------------------------------------------------------------------

  datatype ErrorCode = EPIPE | ECONNRESET | ErrClosed | OtherCode

  /** A Go error chain. */
  datatype GoError = Base(code: ErrorCode) | Wrapped(text: string, inner: GoError)

  function RootCode(e: GoError): ErrorCode {
    match e
    case Base(code) => code
    case Wrapped(_, inner) => RootCode(inner)
  }

  /** errors.Is: does the chain contain this code? */
  predicate Is(e: GoError, code: ErrorCode) {
    match e
    case Base(c) => c == code
    case Wrapped(_, inner) => Is(inner, code)
  }

  predicate IsBrokenPipeError(e: GoError) {
    Is(e, EPIPE) || Is(e, ECONNRESET) || Is(e, ErrClosed)
  }

  lemma {:induction false} IsRoot(e: GoError, code: ErrorCode)
    ensures Is(e, code) <==> RootCode(e) == code
  {
    if e.Wrapped? {
      IsRoot(e.inner, code);
    }
  }

  /** Exactly the errors rooted in a broken pipe, a reset connection or a closed one are in the family, however
      deeply they are wrapped. */
  lemma BrokenPipeIff(e: GoError)
    ensures IsBrokenPipeError(e) <==> RootCode(e) in {EPIPE, ECONNRESET, ErrClosed}
  {
    IsRoot(e, EPIPE);
    IsRoot(e, ECONNRESET);
    IsRoot(e, ErrClosed);
  }

  // ----- the outside world ----------------------------------------------------------------------

  /** Which end of the copy failed.  The copy returns one error for both, so the program cannot see the side
      and nothing below reads it; it only names inputs. */
  datatype Side = ClientSide | ProviderSide

  datatype Transfer = Complete | Broken(delivered: nat, side: Side, error: GoError)

  /** What happens when a request is forwarded to a provider. */
  datatype Upstream =
    | BuildError
    | TransportError
    | Response(status: int, body: seq<bv8>, transfer: Transfer)

  predicate IsSuccessStatus(status: int) {
    200 <= status < 300
  }

  /** A 2xx response: the only thing that commits the client's response. */
  predicate Commits(up: Upstream) {
    up.Response? && IsSuccessStatus(up.status)
  }

  /** The bytes of the body that reach the client. */
  function Delivered(up: Upstream): seq<bv8>
    requires up.Response?
  {
    if up.transfer.Broken? && up.transfer.delivered < |up.body| then up.body[..up.transfer.delivered] else up.body
  }

  /** Attempts that count as the provider's failure: everything except a completed copy and a copy cut short
      by an error of the broken-pipe family. */
  predicate Fails(up: Upstream) {
    Commits(up) ==> up.transfer.Broken? && !IsBrokenPipeError(up.transfer.error)
  }

  // ----- the response ---------------------------------------------------------------------------

  datatype Message = ReadFailed | NoneHealthy | AllFailed

  /** A piece of the body, with its origin; providers are named by their position among the targets. */
  datatype Segment = ProviderBytes(provider: nat, bytes: seq<bv8>) | ErrorObject(message: Message)

  /** `marker` is the X-Status-Set header, `statuses` the arguments of all WriteHeader calls, those that
      net/http makes itself on a first Write included. */
  datatype Writer = Writer(marker: bool, statuses: seq<int>, body: seq<Segment>)

  const FRESH := Writer(false, [], [])

  function WriteHeader(w: Writer, status: int): Writer {
    w.(statuses := w.statuses + [status])
  }

  function Write(w: Writer, segment: Segment): Writer {
    var w' := if w.statuses == [] then WriteHeader(w, 200) else w;
    w'.(body := w'.body + [segment])
  }

  /** Set the marker and the status unless the marker says that this was done. */
  function Commit(w: Writer, status: int): Writer {
    if w.marker then w else WriteHeader(w.(marker := true), status)
  }

  function WriteJSONRPCError(w: Writer, message: Message, status: int): Writer {
    Write(Commit(w, status), ErrorObject(message))
  }

  /** The writer after copyResponse and the error it returns. */
  function CopyResponse(w: Writer, provider: nat, up: Upstream): (Writer, Option<GoError>)
    requires up.Response?
  {
    var committed := Commit(w, up.status);
    var bytes := Delivered(up);
    var written := if bytes == [] then committed else Write(committed, ProviderBytes(provider, bytes));
    match up.transfer
    case Complete => (written, None)
    case Broken(_, _, error) =>
      if IsBrokenPipeError(error) then (written, Some(Wrapped("client disconnected", error)))
      else (written, Some(Wrapped("failed to stream response", error)))
  }

  /** The result of one forward: the writer, the return code and whether the provider is tainted. */
  datatype Forwarded = Forwarded(writer: Writer, code: int, taints: bool)

  function ForwardRequest(w: Writer, provider: nat, up: Upstream): Forwarded {
    match up
    case BuildError => Forwarded(w, 0, true)
    case TransportError => Forwarded(w, 0, true)
    case Response(status, _, _) =>
      if !IsSuccessStatus(status) then Forwarded(w, 0, true)
      else
        var (w', error) := CopyResponse(w, provider, up);
        if error.None? then Forwarded(w', 1, false)
        else if IsBrokenPipeError(error.value) then Forwarded(w', -1, false)
        else Forwarded(w', 0, true)
  }

  // ----- the loop -------------------------------------------------------------------------------

  /** The final writer, the providers tried and those of them that were tainted, in order. */
  datatype Served = Served(writer: Writer, tried: seq<nat>, tainted: seq<nat>)

  /** The loop over `providers`; `ups[p]` is what happens when provider p is tried. */
  function ServeFrom(w: Writer, providers: seq<nat>, ups: seq<Upstream>): Served
    requires forall i :: 0 <= i < |providers| ==> providers[i] < |ups|
  {
    if providers == [] then Served(WriteJSONRPCError(w, AllFailed, 503), [], [])
    else
      var p := providers[0];
      var f := ForwardRequest(w, p, ups[p]);
      var hit := if f.taints then [p] else [];
      if f.code == 1 || f.code == -1 || f.writer.marker then Served(f.writer, [p], hit)
      else
        var rest := ServeFrom(f.writer, providers[1..], ups);
        Served(rest.writer, [p] + rest.tried, hit + rest.tainted)
  }

  function ServeHTTP(w: Writer, bodyRead: bool, providers: seq<nat>, ups: seq<Upstream>): Served
    requires forall i :: 0 <= i < |providers| ==> providers[i] < |ups|
  {
    if !bodyRead then Served(WriteJSONRPCError(w, ReadFailed, 400), [], [])
    else if providers == [] then Served(WriteJSONRPCError(w, NoneHealthy, 503), [], [])
    else ServeFrom(w, providers, ups)
  }

  /** The positions whose flag is set, in order. */
  function Healthy(flags: seq<bool>): (r: seq<nat>)
    ensures forall i :: 0 <= i < |r| ==> r[i] < |flags|
  {
    if flags == [] then []
    else
      var n := |flags| - 1;
      if flags[n] then Healthy(flags[..n]) + [n] else Healthy(flags[..n])
  }

  lemma {:induction false} HealthyIsOrderedFilter(flags: seq<bool>)
    ensures forall p: nat :: p in Healthy(flags) <==> p < |flags| && flags[p]
    ensures forall i, j :: 0 <= i < j < |Healthy(flags)| ==> Healthy(flags)[i] < Healthy(flags)[j]
  {
    if flags != [] {
      HealthyIsOrderedFilter(flags[..|flags| - 1]);
    }
  }

  // ----- single commit --------------------------------------------------------------------------

  /** The body consists of these bytes of provider p. */
  predicate BodyIs(body: seq<Segment>, p: nat, bytes: seq<bv8>) {
    body == if bytes == [] then [] else [ProviderBytes(p, bytes)]
  }

  /** A response whose status is 2xx. */
  predicate Answers2xx(up: Upstream) {
    up.Response? && 200 <= up.status <= 299
  }

  /** How many bytes of the body come through: all of them, or those before the break. */
  function Arriving(up: Upstream): (n: nat)
    requires up.Response?
    ensures n <= |up.body|
  {
    match up.transfer
    case Complete => |up.body|
    case Broken(delivered, _, _) => if delivered <= |up.body| then delivered else |up.body|
  }

  /** The response belongs to one provider: its 2xx status and what came through of its body. */
  ghost predicate ResponseOf(w: Writer, p: nat, up: Upstream) {
    && Answers2xx(up)
    && w.statuses == [up.status]
    && BodyIs(w.body, p, up.body[..Arriving(up)])
  }

  /** The response is one JSON-RPC error object. */
  predicate ErrorResponse(w: Writer, message: Message) {
    w.statuses == [if message == ReadFailed then 400 else 503] && w.body == [ErrorObject(message)]
  }

  lemma CopyIsResponseOf(p: nat, up: Upstream)
    requires Commits(up)
    ensures var w := CopyResponse(FRESH, p, up).0;
      w.marker && ResponseOf(w, p, up)
  {
    assert Delivered(up) == up.body[..Arriving(up)];
  }

  /** The position of the first provider that commits, or the length if none does. */
  function FirstCommit(providers: seq<nat>, ups: seq<Upstream>): (k: nat)
    requires forall i :: 0 <= i < |providers| ==> providers[i] < |ups|
    ensures k <= |providers|
    ensures k < |providers| ==> Commits(ups[providers[k]])
    ensures forall i :: 0 <= i < k ==> !Commits(ups[providers[i]])
  {
    if providers == [] || Commits(ups[providers[0]]) then 0
    else
      assert forall i :: 0 < i < |providers| ==> providers[i] == providers[1..][i - 1];
      1 + FirstCommit(providers[1..], ups)
  }

  /** How the loop ends: the first provider that commits answers, or every provider is tried and the error
      object is written. */
  lemma {:induction false} ServeFromOutcome(providers: seq<nat>, ups: seq<Upstream>)
    requires forall i :: 0 <= i < |providers| ==> providers[i] < |ups|
    ensures var s := ServeFrom(FRESH, providers, ups);
      var k := FirstCommit(providers, ups);
      && s.writer.marker
      && (if k < |providers| then
            s.tried == providers[..k + 1] && ResponseOf(s.writer, providers[k], ups[providers[k]])
          else s.tried == providers && ErrorResponse(s.writer, AllFailed))
  {
    if providers != [] {
      var p := providers[0];
      if Commits(ups[p]) {
        CopyIsResponseOf(p, ups[p]);
      } else {
        ServeFromOutcome(providers[1..], ups);
        assert ServeFrom(FRESH, providers, ups).tried == [p] + ServeFrom(FRESH, providers[1..], ups).tried;
      }
    }
  }

  /** The response belongs to one of the providers that were tried. */
  ghost predicate ProviderResponse(s: Served, ups: seq<Upstream>) {
    exists p :: p in s.tried && p < |ups| && ResponseOf(s.writer, p, ups[p])
  }

  /** On every path WriteHeader is called exactly once, the marker is set, and the body is what came through of
      one 2xx provider's body under its status or exactly one JSON-RPC error object, never both. */
  lemma SingleCommit(bodyRead: bool, providers: seq<nat>, ups: seq<Upstream>)
    requires forall i :: 0 <= i < |providers| ==> providers[i] < |ups|
    ensures var s := ServeHTTP(FRESH, bodyRead, providers, ups);
      && s.writer.marker && |s.writer.statuses| == 1
      && (ProviderResponse(s, ups) <==> !exists message :: ErrorResponse(s.writer, message))
  {
    var s := ServeHTTP(FRESH, bodyRead, providers, ups);
    if !bodyRead {
      assert ErrorResponse(s.writer, ReadFailed);
    } else if providers == [] {
      assert ErrorResponse(s.writer, NoneHealthy);
    } else {
      ServeFromOutcome(providers, ups);
      var k := FirstCommit(providers, ups);
      if k < |providers| {
        assert s.tried[k] == providers[k];
        assert providers[k] in s.tried;
        assert ProviderResponse(s, ups);
      } else {
        assert ErrorResponse(s.writer, AllFailed);
      }
    }
  }

  // ----- the trace ------------------------------------------------------------------------------

  /** The tainted providers are exactly the tried ones that failed, in order. */
  lemma {:induction false} TaintedAreTheFailures(w: Writer, providers: seq<nat>, ups: seq<Upstream>)
    requires forall i :: 0 <= i < |providers| ==> providers[i] < |ups|
    ensures var s := ServeFrom(w, providers, ups);
      && s.tried <= providers
      && (forall p :: p in s.tainted <==> p in s.tried && p < |ups| && Fails(ups[p]))
  {
    if providers != [] {
      var p := providers[0];
      var f := ForwardRequest(w, p, ups[p]);
      assert f.taints <==> Fails(ups[p]);
      assert providers == [p] + providers[1..];
      if !(f.code == 1 || f.code == -1 || f.writer.marker) {
        TaintedAreTheFailures(f.writer, providers[1..], ups);
      }
    }
  }

  /** The whole trace of a request on a fresh response: the tried providers are a prefix of the healthy ones,
      every one but the last failed before anything was committed and is tainted, and the tainted ones are
      exactly the failures. */
  lemma FailoverTrace(flags: seq<bool>, ups: seq<Upstream>)
    requires |ups| == |flags|
    ensures var healthy := Healthy(flags);
      var s := ServeHTTP(FRESH, true, healthy, ups);
      && s.tried <= healthy
      && (forall i :: 0 <= i < |s.tried| - 1 ==> !Commits(ups[healthy[i]]) && healthy[i] in s.tainted)
      && (forall p :: p in s.tainted <==> p in s.tried && p < |ups| && Fails(ups[p]))
  {
    var healthy := Healthy(flags);
    if healthy != [] {
      ServeFromOutcome(healthy, ups);
      TaintedAreTheFailures(FRESH, healthy, ups);
      var s := ServeFrom(FRESH, healthy, ups);
      forall i | 0 <= i < |s.tried| - 1 ensures !Commits(ups[healthy[i]]) && healthy[i] in s.tainted {
        assert s.tried[i] == healthy[i] && s.tried[i] in s.tried;
      }
    }
  }

  /** Provider p is the first healthy one that answers with a 2xx status. */
  ghost predicate FirstToAnswer(flags: seq<bool>, ups: seq<Upstream>, p: nat)
    requires |ups| == |flags|
  {
    && p < |flags| && flags[p] && Answers2xx(ups[p])
    && forall q: nat :: q < p && flags[q] ==> !Answers2xx(ups[q])
  }

  ghost predicate NobodyAnswers(flags: seq<bool>, ups: seq<Upstream>)
    requires |ups| == |flags|
  {
    forall p: nat :: p < |flags| && flags[p] ==> !Answers2xx(ups[p])
  }

  /** The healthy providers up to p. */
  ghost predicate HealthyUpTo(tried: seq<nat>, flags: seq<bool>, p: nat) {
    p < |flags| && forall q: nat :: q in tried <==> q <= p && flags[q]
  }

  lemma PositionOfHealthy(flags: seq<bool>, p: nat) returns (i: nat)
    requires p < |flags| && flags[p]
    ensures i < |Healthy(flags)| && Healthy(flags)[i] == p
  {
    HealthyIsOrderedFilter(flags);
    assert p in Healthy(flags);
    i :| 0 <= i < |Healthy(flags)| && Healthy(flags)[i] == p;
  }

  lemma HealthyPrefix(flags: seq<bool>, k: nat)
    requires k < |Healthy(flags)|
    ensures HealthyUpTo(Healthy(flags)[..k + 1], flags, Healthy(flags)[k])
  {
    var healthy := Healthy(flags);
    HealthyIsOrderedFilter(flags);
    forall q: nat ensures q in healthy[..k + 1] <==> q <= healthy[k] && flags[q] {
      if q in healthy[..k + 1] {
        var i :| 0 <= i <= k && healthy[i] == q;
        assert q in healthy;
      }
      if q <= healthy[k] && flags[q] {
        var i := PositionOfHealthy(flags, q);
        assert healthy[..k + 1][i] == q;
      }
    }
  }

  lemma FirstCommitInOrder(flags: seq<bool>, ups: seq<Upstream>)
    requires |ups| == |flags|
    ensures var healthy := Healthy(flags);
      var k := FirstCommit(healthy, ups);
      if k < |healthy| then FirstToAnswer(flags, ups, healthy[k]) else NobodyAnswers(flags, ups)
  {
    var healthy := Healthy(flags);
    var k := FirstCommit(healthy, ups);
    HealthyIsOrderedFilter(flags);
    if k < |healthy| {
      assert healthy[k] in healthy;
    }
    forall p: nat | p < |flags| && flags[p] && (k < |healthy| ==> p < healthy[k]) ensures !Answers2xx(ups[p]) {
      var i := PositionOfHealthy(flags, p);
      assert i < k;
    }
  }

  /** Everybody healthy was tried in vain. */
  ghost predicate AllFail(s: Served, flags: seq<bool>) {
    && s.writer == Writer(true, [503], [ErrorObject(AllFailed)])
    && forall q: nat ::
         && (q in s.tried <==> q < |flags| && flags[q])
         && (q in s.tainted <==> q < |flags| && flags[q])
  }

  /** The answer breaks off with an error outside the broken-pipe family. */
  predicate BreaksOff(up: Upstream) {
    up.Response? && up.transfer.Broken? && RootCode(up.transfer.error) == OtherCode
  }

  /** Provider p answers; it and the healthy ones before it were tried, and those before it are tainted, as is p
      itself if its answer breaks off. */
  ghost predicate AnsweredBy(s: Served, flags: seq<bool>, ups: seq<Upstream>, p: nat)
    requires |ups| == |flags|
  {
    && FirstToAnswer(flags, ups, p)
    && s.writer.marker && ResponseOf(s.writer, p, ups[p])
    && HealthyUpTo(s.tried, flags, p)
    && forall q: nat :: q in s.tainted <==> (q < p && flags[q]) || (q == p && BreaksOff(ups[p]))
  }

  /** What a request on a fresh response ends in: if the body cannot be read, 400 and nobody is tried; if nobody
      is healthy, 503 and nobody is tried; if no healthy provider answers 2xx, 503 after all were tried and
      tainted; otherwise the first one that does answers. */
  lemma RequestOutcome(bodyRead: bool, flags: seq<bool>, ups: seq<Upstream>)
    requires |ups| == |flags|
    ensures var s := ServeHTTP(FRESH, bodyRead, Healthy(flags), ups);
      if !bodyRead then s == Served(Writer(true, [400], [ErrorObject(ReadFailed)]), [], [])
      else if true !in flags then s == Served(Writer(true, [503], [ErrorObject(NoneHealthy)]), [], [])
      else if NobodyAnswers(flags, ups) then AllFail(s, flags)
      else exists p: nat :: AnsweredBy(s, flags, ups, p)
  {
    SomebodyHealthy(flags);
    if bodyRead && true in flags {
      if NobodyAnswers(flags, ups) {
        LoopFails(flags, ups);
      } else {
        var p := LoopAnswers(flags, ups);
        assert AnsweredBy(ServeHTTP(FRESH, true, Healthy(flags), ups), flags, ups, p);
      }
    }
  }

  lemma SomebodyHealthy(flags: seq<bool>)
    ensures Healthy(flags) != [] <==> true in flags
  {
    HealthyIsOrderedFilter(flags);
    if true in flags {
      var p :| 0 <= p < |flags| && flags[p];
      assert p in Healthy(flags);
    }
    if Healthy(flags) != [] {
      assert Healthy(flags)[0] in Healthy(flags);
    }
  }

  lemma LoopFails(flags: seq<bool>, ups: seq<Upstream>)
    requires |ups| == |flags| && NobodyAnswers(flags, ups)
    ensures AllFail(ServeFrom(FRESH, Healthy(flags), ups), flags)
  {
    var healthy := Healthy(flags);
    HealthyIsOrderedFilter(flags);
    FirstCommitInOrder(flags, ups);
    ServeFromOutcome(healthy, ups);
    TaintedAreTheFailures(FRESH, healthy, ups);
  }

  lemma LoopAnswers(flags: seq<bool>, ups: seq<Upstream>) returns (p: nat)
    requires |ups| == |flags| && !NobodyAnswers(flags, ups)
    ensures AnsweredBy(ServeFrom(FRESH, Healthy(flags), ups), flags, ups, p)
  {
    var healthy := Healthy(flags);
    var k := FirstCommit(healthy, ups);
    FirstCommitInOrder(flags, ups);
    ServeFromOutcome(healthy, ups);
    TaintedAreTheFailures(FRESH, healthy, ups);
    p := healthy[k];
    HealthyPrefix(flags, k);
    IsAnsweredBy(ServeFrom(FRESH, healthy, ups), flags, ups, p);
  }

  lemma IsAnsweredBy(s: Served, flags: seq<bool>, ups: seq<Upstream>, p: nat)
    requires |ups| == |flags| && FirstToAnswer(flags, ups, p)
    requires s.writer.marker && ResponseOf(s.writer, p, ups[p])
    requires HealthyUpTo(s.tried, flags, p)
    requires forall q: nat :: q in s.tainted <==> q in s.tried && q < |ups| && Fails(ups[q])
    ensures AnsweredBy(s, flags, ups, p)
  {
    FailsIff(ups[p]);
  }

  lemma FailsIff(up: Upstream)
    ensures Fails(up) <==> !Answers2xx(up) || BreaksOff(up)
  {
    if up.Response? && up.transfer.Broken? {
      BrokenPipeIff(up.transfer.error);
    }
  }

  /** The "all failed" error is written exactly when some provider was healthy and none of the healthy ones
      answered with a 2xx status; then every healthy provider was tried. */
  lemma AllFailedExact(flags: seq<bool>, ups: seq<Upstream>)
    requires |ups| == |flags|
    ensures var s := ServeHTTP(FRESH, true, Healthy(flags), ups);
      && (ErrorResponse(s.writer, AllFailed) <==> true in flags && NobodyAnswers(flags, ups))
      && (ErrorResponse(s.writer, AllFailed) ==> forall p: nat :: p < |flags| && flags[p] ==> p in s.tried)
  {
    RequestOutcome(true, flags, ups);
    var s := ServeHTTP(FRESH, true, Healthy(flags), ups);
    if true !in flags {
      assert s.writer.body[0] == ErrorObject(NoneHealthy);
    } else if !NobodyAnswers(flags, ups) {
      var p: nat :| AnsweredBy(s, flags, ups, p);
      assert s.writer.statuses[0] == ups[p].status != 503;
    }
  }

  /** A committed response keeps its status: once the marker is set neither writer sets it again, and if nothing
      was sent yet net/http itself sends 200. */
  lemma MarkerKeepsStatus(w: Writer, message: Message, status: int, p: nat, up: Upstream)
    requires up.Response? && w.marker
    ensures WriteJSONRPCError(w, message, status) ==
            Writer(true, if w.statuses == [] then [200] else w.statuses, w.body + [ErrorObject(message)])
    ensures var copied := CopyResponse(w, p, up).0;
      copied.marker && copied.statuses == if w.statuses == [] && copied.body != w.body then [200] else w.statuses
  {
    assert forall segment :: (w.body + [segment])[|w.body|] == segment;
  }

  /** A tried provider whose 2xx answer breaks off is tainted exactly when the error is outside the broken-pipe
      family. */
  lemma ProviderBreakTaintedIff(flags: seq<bool>, ups: seq<Upstream>, p: nat)
    requires |ups| == |flags| && p < |ups| && Commits(ups[p]) && ups[p].transfer.Broken?
    requires p in ServeHTTP(FRESH, true, Healthy(flags), ups).tried
    ensures p in ServeHTTP(FRESH, true, Healthy(flags), ups).tainted <==>
            RootCode(ups[p].transfer.error) == OtherCode
  {
    FailoverTrace(flags, ups);
    FailsIff(ups[p]);
  }

  /** So a connection that the provider resets passes for a client that left, and a client that stalls gets
      the provider tainted. */
  lemma WrongSideBlamed()
    ensures var reset := Response(200, [1, 2, 3], Broken(1, ProviderSide, Base(ECONNRESET)));
      var s := ServeHTTP(FRESH, true, Healthy([true]), [reset]);
      s.tried == [0] && s.tainted == []
    ensures var stalled := Response(200, [1, 2, 3], Broken(1, ClientSide, Base(OtherCode)));
      var s := ServeHTTP(FRESH, true, Healthy([true]), [stalled]);
      s.tried == [0] && s.tainted == [0]
  {
    assert [true][..0] == [];
    assert Healthy([true]) == [0];
  }

  // ----- providers that are never healthy do not matter -----------------------------------------

  function Picked<T>(s: seq<T>, at: seq<nat>): (r: seq<T>)
    requires forall q :: 0 <= q < |at| ==> at[q] < |s|
  {
    seq(|at|, q requires 0 <= q < |at| => s[at[q]])
  }

  lemma PickedGrows(at: seq<nat>, n: nat, flags: seq<bool>)
    requires n == |flags| - 1 && forall q :: 0 <= q < |at| ==> at[q] < n
    ensures Picked(flags, at) == Picked(flags[..n], at)
    ensures Picked(flags, at + [n]) == Picked(flags[..n], at) + [flags[n]]
  {}

  lemma HealthyGrows(flags: seq<bool>, flag: bool)
    ensures Healthy(flags + [flag]) == if flag then Healthy(flags) + [|flags|] else Healthy(flags)
  {
    assert (flags + [flag])[..|flags|] == flags;
  }

  lemma PickedOfFront(at: seq<nat>, n: nat, inner: seq<nat>)
    requires forall i :: 0 <= i < |inner| ==> inner[i] < |at|
    ensures Picked(at + [n], inner) == Picked(at, inner)
    ensures Picked(at + [n], inner + [|at|]) == Picked(at, inner) + [n]
  {}

  /** The healthy providers can be found among those that `has` marks, by their positions there. */
  lemma {:induction false} HealthyAmong(has: seq<bool>, flags: seq<bool>)
    requires |has| == |flags| && forall p :: 0 <= p < |flags| && flags[p] ==> has[p]
    ensures Healthy(flags) == Picked(Healthy(has), Healthy(Picked(flags, Healthy(has))))
  {
    if has != [] {
      var n := |has| - 1;
      HealthyAmong(has[..n], flags[..n]);
      var at := Healthy(has[..n]);
      var inner := Picked(flags[..n], at);
      PickedGrows(at, n, flags);
      HealthyGrows(inner, flags[n]);
      PickedOfFront(at, n, Healthy(inner));
    }
  }

  lemma FirstCommitIs(providers: seq<nat>, ups: seq<Upstream>, k: nat)
    requires (forall i :: 0 <= i < |providers| ==> providers[i] < |ups|) && k <= |providers|
    requires k < |providers| ==> Commits(ups[providers[k]])
    requires forall i :: 0 <= i < k ==> !Commits(ups[providers[i]])
    ensures FirstCommit(providers, ups) == k
  {}

  lemma FirstCommitAmong(at: seq<nat>, healthy: seq<nat>, ups: seq<Upstream>)
    requires forall q :: 0 <= q < |at| ==> at[q] < |ups|
    requires forall i :: 0 <= i < |healthy| ==> healthy[i] < |at|
    ensures FirstCommit(Picked(at, healthy), ups) == FirstCommit(healthy, Picked(ups, at))
  {
    var k, picked := FirstCommit(healthy, Picked(ups, at)), Picked(at, healthy);
    forall i | 0 <= i < k ensures !Commits(ups[picked[i]]) {
      assert !Commits(Picked(ups, at)[healthy[i]]);
    }
    FirstCommitIs(picked, ups, k);
  }

  lemma TriedAmong(at: seq<nat>, healthy: seq<nat>, ups: seq<Upstream>)
    requires forall q :: 0 <= q < |at| ==> at[q] < |ups|
    requires forall i :: 0 <= i < |healthy| ==> healthy[i] < |at|
    ensures var inner := ServeHTTP(FRESH, true, healthy, Picked(ups, at)).tried;
      && (forall i :: 0 <= i < |inner| ==> inner[i] < |at|)
      && ServeHTTP(FRESH, true, Picked(at, healthy), ups).tried == Picked(at, inner)
  {
    if healthy != [] {
      ServeFromOutcome(healthy, Picked(ups, at));
      ServeFromOutcome(Picked(at, healthy), ups);
      FirstCommitAmong(at, healthy, ups);
    }
  }

  /** A request goes as if only the providers that `has` marks existed. */
  lemma RequestAmong(has: seq<bool>, flags: seq<bool>, ups: seq<Upstream>, q: nat)
    requires |has| == |flags| == |ups| && forall p :: 0 <= p < |flags| && flags[p] ==> has[p]
    requires q < |Healthy(has)|
    ensures var at := Healthy(has);
      at[q] in ServeHTTP(FRESH, true, Healthy(flags), ups).tainted <==>
      q in ServeHTTP(FRESH, true, Healthy(Picked(flags, at)), Picked(ups, at)).tainted
  {
    var at := Healthy(has);
    HealthyIsOrderedFilter(has);
    HealthyAmong(has, flags);
    TriedAmong(at, Healthy(Picked(flags, at)), ups);
    FailoverTrace(flags, ups);
    FailoverTrace(Picked(flags, at), Picked(ups, at));
    var inner := ServeHTTP(FRESH, true, Healthy(Picked(flags, at)), Picked(ups, at)).tried;
    InPicked(at, inner, q);
  }

  lemma InPicked(at: seq<nat>, inner: seq<nat>, q: nat)
    requires forall i, j :: 0 <= i < j < |at| ==> at[i] < at[j]
    requires q < |at| && forall i :: 0 <= i < |inner| ==> inner[i] < |at|
    ensures at[q] in Picked(at, inner) <==> q in inner
  {
    if q in inner {
      var i :| 0 <= i < |inner| && inner[i] == q;
      assert Picked(at, inner)[i] == at[q];
    }
  }
}
