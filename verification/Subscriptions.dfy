/** Subscription tracking: what one message does to a connection's sets and the shared set, what the sets say
    about the messages seen, and how the shared set relates to the open connections. */
module Subscriptions {
  import opened Wrappers

  /** A JSON-RPC request id that can be a Go map key. */
  datatype Id = NumberId(n: real) | StringId(s: string) | BoolId(b: bool)

  /** A parsed message.  Absent and null ids are None, as are an absent or non-string method, first parameter
      or result; `Unparsable` is anything that is not a JSON object. */
  datatype Message =
    | FromClient(methodName: Option<string>, id: Option<Id>, firstParam: Option<string>)
    | FromUpstream(id: Option<Id>, result: Option<string>)
    | Unparsable

  predicate IsSubscribeMethod(m: string) {
    m == "eth_subscribe" || m == "shh_subscribe" || m == "net_subscribe"
  }

  predicate IsUnsubscribeMethod(m: string) {
    m == "eth_unsubscribe" || m == "shh_unsubscribe" || m == "net_unsubscribe"
  }

  const SUBSCRIBE_METHODS: seq<string> := ["eth_subscribe", "shh_subscribe", "net_subscribe"]
  const UNSUBSCRIBE_METHODS: seq<string> := ["eth_unsubscribe", "shh_unsubscribe", "net_unsubscribe"]

  predicate Subscribes(m: Message, id: Id) {
    m.FromClient? && m.methodName.Some? && m.methodName.value in SUBSCRIBE_METHODS && m.id == Some(id)
  }

  predicate Unsubscribes(m: Message, subId: string) {
    m.FromClient? && m.methodName.Some? && m.methodName.value in UNSUBSCRIBE_METHODS && m.firstParam == Some(subId)
  }

  predicate Responds(m: Message, id: Id) {
    m.FromUpstream? && m.id == Some(id)
  }

  // ----- the map-updating code ------------------------------------------------------------------

  /** The two maps of one connection. */
  datatype Conn = Conn(subscriptions: set<string>, pending: set<Id>)

  const NEW_CONN := Conn({}, {})

  /** A connection and the shared set. */
  datatype Tracked = Tracked(conn: Conn, shared: set<string>)

  function Track(t: Tracked, m: Message): Tracked {
    match m
    case Unparsable => t
    case FromClient(methodName, id, firstParam) =>
      if methodName.None? then t
      else
        var pending' := if IsSubscribeMethod(methodName.value) && id.Some?
                        then t.conn.pending + {id.value} else t.conn.pending;
        if IsUnsubscribeMethod(methodName.value) && firstParam.Some? then
          Tracked(Conn(t.conn.subscriptions - {firstParam.value}, pending'), t.shared - {firstParam.value})
        else
          Tracked(Conn(t.conn.subscriptions, pending'), t.shared)
    case FromUpstream(id, result) =>
      if id.None? || id.value !in t.conn.pending then t
      else
        var pending' := t.conn.pending - {id.value};
        if result.Some? then
          Tracked(Conn(t.conn.subscriptions + {result.value}, pending'), t.shared + {result.value})
        else
          Tracked(Conn(t.conn.subscriptions, pending'), t.shared)
  }

  function TrackLog(log: seq<Message>): Conn {
    if log == [] then NEW_CONN
    else Track(Tracked(TrackLog(log[..|log| - 1]), {}), log[|log| - 1]).conn
  }

  /** What one message does to any id and any subscription: a subscribe request makes its id pending until it is
      answered, an answer to a pending request tracks its result on the connection and in the shared set, and an
      unsubscribe request removes its first parameter from both. */
  lemma TrackExact(t: Tracked, m: Message, id: Id, subId: string)
    ensures var t' := Track(t, m);
      var delivers := m.FromUpstream? && m.id.Some? && m.id.value in t.conn.pending && m.result == Some(subId);
      && (id in t'.conn.pending <==> Subscribes(m, id) || (id in t.conn.pending && !Responds(m, id)))
      && (subId in t'.conn.subscriptions <==> delivers || (subId in t.conn.subscriptions && !Unsubscribes(m, subId)))
      && (subId in t'.shared <==> delivers || (subId in t.shared && !Unsubscribes(m, subId)))
  {
    if m.FromClient? && m.methodName.Some? {
      MethodNames(m.methodName.value);
    }
  }

  lemma MethodNames(name: string)
    ensures IsSubscribeMethod(name) <==> name in SUBSCRIBE_METHODS
    ensures IsUnsubscribeMethod(name) <==> name in UNSUBSCRIBE_METHODS
    ensures !(IsSubscribeMethod(name) && IsUnsubscribeMethod(name))
  {
    assert "eth_subscribe"[4] == 's' && "shh_subscribe"[4] == 's' && "net_subscribe"[4] == 's';
    assert "eth_unsubscribe"[4] == 'u' && "shh_unsubscribe"[4] == 'u' && "net_unsubscribe"[4] == 'u';
  }

  lemma ConnIndependentOfShared(c: Conn, a: set<string>, b: set<string>, m: Message)
    ensures Track(Tracked(c, a), m).conn == Track(Tracked(c, b), m).conn
  {}

  // ----- the history it stands for --------------------------------------------------------------

  /** A subscribe request with this id has had no response with it since. */
  ghost predicate PendingIn(log: seq<Message>, id: Id) {
    exists i :: 0 <= i < |log| && Subscribes(log[i], id) && Unanswered(log, i, id)
  }

  ghost predicate Unanswered(log: seq<Message>, i: nat, id: Id) {
    forall j :: i < j < |log| ==> !Responds(log[j], id)
  }

  /** Message k delivered this subscription id as the answer to a request pending at that point. */
  ghost predicate DeliveredAt(log: seq<Message>, k: nat, subId: string)
    requires k < |log|
  {
    log[k].FromUpstream? && log[k].result == Some(subId) && log[k].id.Some? && PendingIn(log[..k], log[k].id.value)
  }

  ghost predicate NotUnsubscribed(log: seq<Message>, k: nat, subId: string) {
    forall j :: k < j < |log| ==> !Unsubscribes(log[j], subId)
  }

  ghost predicate TrackedIn(log: seq<Message>, subId: string) {
    exists k :: 0 <= k < |log| && DeliveredAt(log, k, subId) && NotUnsubscribed(log, k, subId)
  }

  lemma PendingStep(log: seq<Message>, m: Message, id: Id)
    ensures PendingIn(log + [m], id) <==> Subscribes(m, id) || (PendingIn(log, id) && !Responds(m, id))
  {
    var longer := log + [m];
    assert longer[|log|] == m;
    if PendingIn(longer, id) && !Subscribes(m, id) {
      var i :| 0 <= i < |longer| && Subscribes(longer[i], id) && Unanswered(longer, i, id);
      assert Subscribes(log[i], id);
      forall j | i < j < |log| ensures !Responds(log[j], id) {
        assert longer[j] == log[j];
      }
      assert Unanswered(log, i, id);
    }
    if Subscribes(m, id) {
      assert Unanswered(longer, |log|, id);
    }
    if PendingIn(log, id) && !Responds(m, id) {
      var i :| 0 <= i < |log| && Subscribes(log[i], id) && Unanswered(log, i, id);
      assert longer[i] == log[i];
      assert Unanswered(longer, i, id);
    }
  }

  lemma TrackedStep(log: seq<Message>, m: Message, subId: string)
    ensures TrackedIn(log + [m], subId) <==>
      || (m.FromUpstream? && m.result == Some(subId) && m.id.Some? && PendingIn(log, m.id.value))
      || (TrackedIn(log, subId) && !Unsubscribes(m, subId))
  {
    var longer := log + [m];
    assert longer[|log|] == m && longer[..|log|] == log;
    forall k: nat | k < |log|
      ensures DeliveredAt(longer, k, subId) == DeliveredAt(log, k, subId)
      ensures NotUnsubscribed(longer, k, subId) <==> NotUnsubscribed(log, k, subId) && !Unsubscribes(m, subId)
    {
      assert longer[..k] == log[..k] && longer[k] == log[k];
      forall j | k < j < |log| ensures longer[j] == log[j] {}
    }
    if TrackedIn(longer, subId) {
      var k :| 0 <= k < |longer| && DeliveredAt(longer, k, subId) && NotUnsubscribed(longer, k, subId);
      if k < |log| {
        assert DeliveredAt(log, k, subId) && NotUnsubscribed(log, k, subId);
      }
    }
    if DeliveredAt(longer, |log|, subId) {
      assert NotUnsubscribed(longer, |log|, subId);
    }
    if TrackedIn(log, subId) && !Unsubscribes(m, subId) {
      var k :| 0 <= k < |log| && DeliveredAt(log, k, subId) && NotUnsubscribed(log, k, subId);
      assert DeliveredAt(longer, k, subId) && NotUnsubscribed(longer, k, subId);
    }
  }

  /** For every message log the maps hold exactly what the history says. */
  lemma {:induction false} MapsMatchHistory(log: seq<Message>, id: Id, subId: string)
    ensures id in TrackLog(log).pending <==> PendingIn(log, id)
    ensures subId in TrackLog(log).subscriptions <==> TrackedIn(log, subId)
  {
    if log != [] {
      var front, m := log[..|log| - 1], log[|log| - 1];
      assert log == front + [m];
      MapsMatchHistory(front, id, subId);
      if m.FromUpstream? && m.id.Some? {
        MapsMatchHistory(front, m.id.value, subId);
      }
      TrackExact(Tracked(TrackLog(front), {}), m, id, subId);
      PendingStep(front, m, id);
      TrackedStep(front, m, subId);
    }
  }

  // ----- all connections and the shared set -----------------------------------------------------

  /** `snapshot` is the ids that a running UnsubscribeAll has copied, `sent` those for which the last completed
      call has written an unsubscribe message.  A mutex admits one UnsubscribeAll at a time. */
  datatype World = World(
    shared: set<string>, conns: map<nat, Conn>, snapshot: Option<set<string>>, sent: set<string>)

  datatype Event =
    | Open(c: nat)
    | Receive(c: nat, message: Message)
    | Close(c: nat)
    | Snapshot        // UnsubscribeAll copies the shared set, or returns if it is empty
    | NoConnection    // it gets no connection and gives up
    | ClearAndSend(failed: set<string>)  // it gets one, clears the shared set and writes the messages; a
                                         // write that fails is only logged

  /** A closed connection takes no further steps. */
  predicate Enabled(w: World, e: Event) {
    match e
    case Open(c) => c !in w.conns
    case Receive(c, _) => c in w.conns
    case Close(c) => c in w.conns
    case Snapshot => w.snapshot.None?
    case NoConnection => w.snapshot.Some?
    case ClearAndSend(_) => w.snapshot.Some?
  }

  function Next(w: World, e: Event): World
    requires Enabled(w, e)
  {
    match e
    case Open(c) => w.(conns := w.conns[c := NEW_CONN])
    case Receive(c, m) =>
      var t := Track(Tracked(w.conns[c], w.shared), m);
      w.(shared := t.shared, conns := w.conns[c := t.conn])
    case Close(c) => w.(shared := w.shared - w.conns[c].subscriptions, conns := w.conns - {c})
    case Snapshot => if w.shared == {} then w else w.(snapshot := Some(w.shared))
    case NoConnection => w.(snapshot := None)
    case ClearAndSend(failed) => w.(shared := {}, snapshot := None, sent := w.snapshot.value - failed)
  }

  const START := World({}, map[], None, {})

  ghost predicate Execution(events: seq<Event>, worlds: seq<World>) {
    && |worlds| == |events| + 1 && worlds[0] == START
    && forall i :: 0 <= i < |events| ==> StepAt(events, worlds, i)
  }

  ghost predicate StepAt(events: seq<Event>, worlds: seq<World>, i: nat)
    requires |worlds| == |events| + 1 && i < |events|
  {
    Enabled(worlds[i], events[i]) && worlds[i + 1] == Next(worlds[i], events[i])
  }

  ghost predicate Held(w: World, subId: string) {
    exists c :: c in w.conns && subId in w.conns[c].subscriptions
  }

  /** Nothing is in the shared set that no open connection holds. */
  ghost predicate NoLeak(w: World) {
    forall s :: s in w.shared ==> Held(w, s)
  }

  lemma NoLeakStep(w: World, e: Event)
    requires NoLeak(w) && Enabled(w, e)
    ensures NoLeak(Next(w, e))
  {
    var w' := Next(w, e);
    forall s | s in w'.shared ensures Held(w', s) {
      if s in w.shared {
        var c :| c in w.conns && s in w.conns[c].subscriptions;
        if e.Close? {
          assert c != e.c && c in w'.conns && s in w'.conns[c].subscriptions;
        } else {
          assert c in w'.conns && s in w'.conns[c].subscriptions;
        }
      } else {
        assert s in w'.conns[e.c].subscriptions;
      }
    }
  }

  /** In every reachable world nothing leaks; when all connections are closed the shared set is empty. */
  lemma {:induction false} NeverLeaks(events: seq<Event>, worlds: seq<World>, i: nat)
    requires Execution(events, worlds) && i <= |events|
    ensures NoLeak(worlds[i])
    ensures worlds[i].conns == map[] ==> worlds[i].shared == {}
  {
    if i > 0 {
      NeverLeaks(events, worlds, i - 1);
      assert StepAt(events, worlds, i - 1);
      NoLeakStep(worlds[i - 1], events[i - 1]);
    }
    if worlds[i].conns == map[] {
      forall s ensures s !in worlds[i].shared {
        assert !Held(worlds[i], s);
      }
    }
  }

  /** The shared set is the union of the open connections' sets. */
  ghost predicate SharedIsUnion(w: World) {
    forall s :: s in w.shared <==> Held(w, s)
  }

  ghost predicate HeldElsewhere(w: World, c: nat, subId: string) {
    exists d :: d in w.conns && d != c && subId in w.conns[d].subscriptions
  }

  /** The steps that keep the shared set exact: nobody unsubscribes or closes with an id that another
      connection holds too, and nobody clears the set while any id is held. */
  ghost predicate KeepsUnion(w: World, e: Event) {
    match e
    case Open(_) => true
    case Receive(c, m) => forall s :: Unsubscribes(m, s) ==> !HeldElsewhere(w, c, s)
    case Close(c) => c in w.conns ==> forall s :: s in w.conns[c].subscriptions ==> !HeldElsewhere(w, c, s)
    case ClearAndSend(_) => forall s :: !Held(w, s)
    case _ => true
  }

  lemma HeldAfter(w: World, e: Event, s: string)
    requires Enabled(w, e) && (e.Receive? || e.Close?)
    ensures Held(Next(w, e), s) <==>
      HeldElsewhere(w, e.c, s) || (e.Receive? && s in Next(w, e).conns[e.c].subscriptions)
  {
    var w' := Next(w, e);
    if Held(w', s) {
      var d :| d in w'.conns && s in w'.conns[d].subscriptions;
      if d != e.c {
        assert d in w.conns && s in w.conns[d].subscriptions;
      }
    }
    if HeldElsewhere(w, e.c, s) {
      var d :| d in w.conns && d != e.c && s in w.conns[d].subscriptions;
      assert d in w'.conns && s in w'.conns[d].subscriptions;
    }
  }

  lemma HeldSplits(w: World, c: nat, s: string)
    requires c in w.conns
    ensures Held(w, s) <==> HeldElsewhere(w, c, s) || s in w.conns[c].subscriptions
  {}

  lemma UnionStepReceive(w: World, c: nat, m: Message, s: string)
    requires SharedIsUnion(w) && c in w.conns
    ensures var w' := Next(w, Receive(c, m));
      (s in w'.shared <==> Held(w', s)) <==> (Unsubscribes(m, s) ==> !HeldElsewhere(w, c, s))
  {
    HeldAfter(w, Receive(c, m), s);
    HeldSplits(w, c, s);
    TrackExact(Tracked(w.conns[c], w.shared), m, NumberId(0.0), s);
  }

  lemma UnionStep(w: World, e: Event)
    requires SharedIsUnion(w) && Enabled(w, e)
    ensures SharedIsUnion(Next(w, e)) <==> KeepsUnion(w, e)
  {
    var w' := Next(w, e);
    match e
    case Open(c) =>
      forall s ensures Held(w', s) <==> Held(w, s) {
        if Held(w, s) {
          var d :| d in w.conns && s in w.conns[d].subscriptions;
          assert d in w'.conns && s in w'.conns[d].subscriptions;
        }
      }
    case Receive(c, m) =>
      forall s ensures (s in w'.shared <==> Held(w', s)) <==> (Unsubscribes(m, s) ==> !HeldElsewhere(w, c, s)) {
        UnionStepReceive(w, c, m, s);
      }
    case Close(c) =>
      forall s ensures (s in w'.shared <==> Held(w', s)) <==>
                       (s in w.conns[c].subscriptions ==> !HeldElsewhere(w, c, s)) {
        HeldAfter(w, e, s);
        HeldSplits(w, c, s);
      }
    case _ =>
      assert w'.conns == w.conns;
      forall s ensures Held(w', s) <==> Held(w, s) {}
  }

  /** The shared set is the union in every world of a run exactly when every step keeps it so. */
  lemma UnionExactIff(events: seq<Event>, worlds: seq<World>)
    requires Execution(events, worlds)
    ensures (forall i :: 0 <= i <= |events| ==> SharedIsUnion(worlds[i])) <==>
            (forall i :: 0 <= i < |events| ==> KeepsUnion(worlds[i], events[i]))
  {
    if forall i :: 0 <= i <= |events| ==> SharedIsUnion(worlds[i]) {
      forall i | 0 <= i < |events| ensures KeepsUnion(worlds[i], events[i]) {
        assert StepAt(events, worlds, i);
        UnionStep(worlds[i], events[i]);
      }
    }
    if forall i :: 0 <= i < |events| ==> KeepsUnion(worlds[i], events[i]) {
      forall i | 0 <= i <= |events| ensures SharedIsUnion(worlds[i]) {
        UnionUpTo(events, worlds, i);
      }
    }
  }

  lemma {:induction false} UnionUpTo(events: seq<Event>, worlds: seq<World>, i: nat)
    requires Execution(events, worlds) && i <= |events|
    requires forall j :: 0 <= j < i ==> KeepsUnion(worlds[j], events[j])
    ensures SharedIsUnion(worlds[i])
  {
    if i > 0 {
      UnionUpTo(events, worlds, i - 1);
      assert StepAt(events, worlds, i - 1);
      UnionStep(worlds[i - 1], events[i - 1]);
    }
  }

  /** The messages of connection c since it was last opened. */
  function LogOf(events: seq<Event>, c: nat): seq<Message> {
    if events == [] then []
    else
      var log, e := LogOf(events[..|events| - 1], c), events[|events| - 1];
      if e == Open(c) then []
      else if e.Receive? && e.c == c then log + [e.message]
      else log
  }

  lemma {:induction false} ConnFollowsItsLog(events: seq<Event>, worlds: seq<World>, i: nat, c: nat)
    requires Execution(events, worlds) && i <= |events| && c in worlds[i].conns
    ensures worlds[i].conns[c] == TrackLog(LogOf(events[..i], c))
  {
    assert i > 0;
    var e := events[i - 1];
    assert StepAt(events, worlds, i - 1);
    assert events[..i][..i - 1] == events[..i - 1];
    if e != Open(c) {
      ConnFollowsItsLog(events, worlds, i - 1, c);
      if e.Receive? && e.c == c {
        var log := LogOf(events[..i - 1], c);
        assert (log + [e.message])[..|log|] == log;
        ConnIndependentOfShared(TrackLog(log), {}, worlds[i - 1].shared, e.message);
      }
    }
  }

  /** Every id in the shared set was delivered to a connection that is still open, in answer to a subscribe
      request of that connection, and was not unsubscribed there since. */
  lemma SharedIdsAreExplained(events: seq<Event>, worlds: seq<World>, i: nat, subId: string)
    requires Execution(events, worlds) && i <= |events| && subId in worlds[i].shared
    ensures exists c :: c in worlds[i].conns && TrackedIn(LogOf(events[..i], c), subId)
  {
    NeverLeaks(events, worlds, i);
    var c :| c in worlds[i].conns && subId in worlds[i].conns[c].subscriptions;
    ConnFollowsItsLog(events, worlds, i, c);
    MapsMatchHistory(LogOf(events[..i], c), NumberId(0.0), subId);
  }

  // ----- what UnsubscribeAll forgets ------------------------------------------------------------

  /** Between a snapshot at i and the clear at j no other phase of UnsubscribeAll runs. */
  ghost predicate OneCall(events: seq<Event>, i: nat, j: nat) {
    && i < j < |events| && events[i].Snapshot? && events[j].ClearAndSend?
    && forall k :: i < k < j ==> !events[k].Snapshot? && !events[k].NoConnection? && !events[k].ClearAndSend?
  }

  lemma {:induction false} SnapshotKept(events: seq<Event>, worlds: seq<World>, i: nat, j: nat, k: nat)
    requires Execution(events, worlds) && OneCall(events, i, j) && i < k <= j
    ensures worlds[k].snapshot == if worlds[i].shared == {} then None else Some(worlds[i].shared)
  {
    if k == i + 1 {
      assert StepAt(events, worlds, i);
    } else {
      SnapshotKept(events, worlds, i, j, k - 1);
      assert StepAt(events, worlds, k - 1);
    }
  }

  /** Does step k put a new id into the shared set? */
  ghost predicate ArrivesAt(worlds: seq<World>, k: nat, subId: string) {
    k + 1 < |worlds| && subId !in worlds[k].shared && subId in worlds[k + 1].shared
  }

  /** An id that the clear drops gets an unsubscribe message exactly if it was in the snapshot and its write
      succeeds; every dropped id that was not in the snapshot arrived while the call was dialling. */
  lemma ClearForgetsLateIds(events: seq<Event>, worlds: seq<World>, i: nat, j: nat, subId: string)
    requires Execution(events, worlds) && OneCall(events, i, j) && subId in worlds[j].shared
    ensures subId !in worlds[j + 1].shared
    ensures subId in worlds[j + 1].sent <==> subId in worlds[i].shared && subId !in events[j].failed
    ensures subId !in worlds[i].shared ==> exists k :: i < k < j && ArrivesAt(worlds, k, subId)
  {
    SnapshotKept(events, worlds, i, j, j);
    assert StepAt(events, worlds, j);
    if subId !in worlds[i].shared {
      assert StepAt(events, worlds, i);
      assert worlds[i + 1].shared == worlds[i].shared;
      FindArrival(events, worlds, i + 1, j, subId);
    }
  }

  lemma {:induction false} FindArrival(events: seq<Event>, worlds: seq<World>, i: nat, j: nat, subId: string)
    requires Execution(events, worlds) && i <= j <= |events|
    requires subId !in worlds[i].shared && subId in worlds[j].shared
    ensures exists k :: i <= k < j && ArrivesAt(worlds, k, subId)
    decreases j - i
  {
    if subId in worlds[i + 1].shared {
      assert ArrivesAt(worlds, i, subId);
    } else {
      FindArrival(events, worlds, i + 1, j, subId);
    }
  }

  ghost predicate Reached(w: World) {
    exists events, worlds :: Execution(events, worlds) && worlds[|events|] == w
  }

  lemma ReachNext(w: World, e: Event)
    requires Reached(w) && Enabled(w, e)
    ensures Reached(Next(w, e))
  {
    var events, worlds :| Execution(events, worlds) && worlds[|events|] == w;
    var events', worlds' := events + [e], worlds + [Next(w, e)];
    forall i | 0 <= i < |events'| ensures StepAt(events', worlds', i) {
      if i < |events| {
        assert StepAt(events, worlds, i);
      }
    }
    assert Execution(events', worlds');
    assert worlds'[|events'|] == Next(w, e);
  }

  /** A subscription: the request and its answer. */
  lemma SubscribeAndAnswer(w: World, c: nat, id: Id, subId: string) returns (w': World)
    requires Reached(w) && c in w.conns && w.conns[c].pending == {}
    ensures Reached(w') && c in w'.conns && w'.conns[c] == Conn(w.conns[c].subscriptions + {subId}, {})
    ensures w'.shared == w.shared + {subId} && w'.snapshot == w.snapshot && w'.sent == w.sent
  {
    var ask, answer := FromClient(Some("eth_subscribe"), Some(id), None), FromUpstream(Some(id), Some(subId));
    ReachNext(w, Receive(c, ask));
    var asked := Next(w, Receive(c, ask));
    assert asked.conns[c].pending == {id};
    ReachNext(asked, Receive(c, answer));
    w' := Next(asked, Receive(c, answer));
    assert w'.conns[c].pending == {};
  }

  lemma OneSubscription() returns (w: World)
    ensures Reached(w) && w.shared == {"early"} && w.snapshot == Some({"early"})
    ensures 0 in w.conns && w.conns[0] == Conn({"early"}, {})
  {
    assert Reached(START) by {
      var none: seq<Event> := [];
      assert Execution(none, [START]) && [START][|none|] == START;
    }
    ReachNext(START, Open(0));
    w := SubscribeAndAnswer(Next(START, Open(0)), 0, NumberId(1.0), "early");
    assert w.shared == {"early"};
    ReachNext(w, Snapshot);
    w := Next(w, Snapshot);
  }

  /** Such an id can indeed be forgotten without a message: it is still held by its connection, but no later
      UnsubscribeAll will see it. */
  lemma LateIdIsForgotten()
    ensures exists w :: Reached(w) && Held(w, "late") && "late" !in w.shared && "late" !in w.sent
  {
    var w := OneSubscription();
    w := SubscribeAndAnswer(w, 0, NumberId(2.0), "late");
    ReachNext(w, ClearAndSend({}));
    var last := Next(w, ClearAndSend({}));
    assert "late" in last.conns[0].subscriptions && last.sent == {"early"};
    assert Held(last, "late");
  }

  /** So can an id of the snapshot whose message could not be written. */
  lemma UnsentIdIsForgotten()
    ensures exists w :: Reached(w) && Held(w, "early") && "early" !in w.shared && "early" !in w.sent
  {
    var w := OneSubscription();
    ReachNext(w, ClearAndSend({"early"}));
    var last := Next(w, ClearAndSend({"early"}));
    assert "early" in last.conns[0].subscriptions;
    assert Held(last, "early");
  }
}
