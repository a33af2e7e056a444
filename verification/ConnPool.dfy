/** The pool of upstream connections that UnsubscribeAll draws from. */
module ConnPool {
  import opened Wrappers

  const CAPACITY: nat := 5

  /** Connections are numbered in the order they are created.  `held` are those a caller has taken and not
      yet returned. */
  datatype Pool = Pool(pooled: seq<nat>, held: set<nat>, closed: set<nat>, created: nat)

  const EMPTY := Pool([], {}, {}, 0)

  datatype Step =
    | Get(alive: bool, dialOk: bool)   // does the pooled connection answer a ping; does dialling succeed
    | Return(conn: nat)

  function Dial(p: Pool, dialOk: bool): (Pool, Option<nat>) {
    if dialOk then (p.(held := p.held + {p.created}, created := p.created + 1), Some(p.created)) else (p, None)
  }

  function GetConnection(p: Pool, alive: bool, dialOk: bool): (Pool, Option<nat>) {
    if p.pooled == [] then Dial(p, dialOk)
    else
      var conn, rest := p.pooled[0], p.(pooled := p.pooled[1..]);
      if alive then (rest.(held := rest.held + {conn}), Some(conn))
      else Dial(rest.(closed := rest.closed + {conn}), dialOk)
  }

  /** Is the pool full when a connection comes back, so that it has to be closed? */
  predicate Overflows(p: Pool) {
    |p.pooled| >= CAPACITY
  }

  function ReturnConnection(p: Pool, conn: nat): Pool {
    var p' := p.(held := p.held - {conn});
    if Overflows(p) then p'.(closed := p'.closed + {conn}) else p'.(pooled := p'.pooled + [conn])
  }

  predicate Enabled(p: Pool, s: Step) {
    s.Return? ==> s.conn in p.held
  }

  function Apply(p: Pool, s: Step): Pool {
    match s
    case Get(alive, dialOk) => GetConnection(p, alive, dialOk).0
    case Return(conn) => ReturnConnection(p, conn)
  }

  ghost predicate Execution(steps: seq<Step>, pools: seq<Pool>) {
    && |pools| == |steps| + 1 && pools[0] == EMPTY
    && forall i :: 0 <= i < |steps| ==> StepAt(steps, pools, i)
  }

  ghost predicate StepAt(steps: seq<Step>, pools: seq<Pool>, i: nat)
    requires |pools| == |steps| + 1 && i < |steps|
  {
    Enabled(pools[i], steps[i]) && pools[i + 1] == Apply(pools[i], steps[i])
  }

  /** Every connection ever created is in exactly one place, and in the pool at most once. */
  ghost predicate Conserved(p: Pool) {
    && (forall c: nat :: c < p.created <==> c in p.pooled || c in p.held || c in p.closed)
    && (forall c :: c in p.pooled ==> c !in p.held && c !in p.closed)
    && p.held !! p.closed
    && (forall i, j :: 0 <= i < j < |p.pooled| ==> p.pooled[i] != p.pooled[j])
    && |p.pooled| <= CAPACITY
  }

  lemma ConservedStep(p: Pool, s: Step)
    requires Conserved(p) && Enabled(p, s)
    ensures Conserved(Apply(p, s))
  {
    if s.Get? && p.pooled != [] {
      assert p.pooled == [p.pooled[0]] + p.pooled[1..];
      forall c: nat ensures c in p.pooled <==> c == p.pooled[0] || c in p.pooled[1..] {}
    }
  }

  /** Which connection a caller gets: the first pooled one exactly if it answers its ping, otherwise a new one if
      dialling succeeds and none if it fails.  A pooled connection that does not answer is closed; nothing else
      moves. */
  lemma GetExact(p: Pool, alive: bool, dialOk: bool)
    requires Conserved(p)
    ensures var (q, conn) := GetConnection(p, alive, dialOk);
      var reuses := p.pooled != [] && alive;
      && conn == (if reuses then Some(p.pooled[0]) else if dialOk then Some(p.created) else None)
      && (conn.Some? ==> conn.value !in p.held && conn.value !in p.closed && conn.value !in q.pooled)
      && q.held == p.held + (if conn.Some? then {conn.value} else {})
      && q.closed == p.closed + (if p.pooled != [] && !alive then {p.pooled[0]} else {})
      && q.pooled == (if p.pooled == [] then [] else p.pooled[1..])
      && q.created == (if !reuses && dialOk then p.created + 1 else p.created)
  {}

  /** A held connection that comes back joins the end of the pool if fewer than five are there, and is closed
      otherwise. */
  lemma ReturnExact(p: Pool, conn: nat)
    requires Conserved(p) && conn in p.held
    ensures var q := ReturnConnection(p, conn);
      && q.held == p.held - {conn} && q.created == p.created
      && (if |p.pooled| < 5 then q.pooled == p.pooled + [conn] && q.closed == p.closed
          else q.pooled == p.pooled && q.closed == p.closed + {conn})
  {}

  /** Nobody ever gets a closed connection: in every run what is closed stays closed. */
  lemma {:induction false} ClosedStaysClosed(steps: seq<Step>, pools: seq<Pool>, i: nat, j: nat, conn: nat)
    requires Execution(steps, pools) && i <= j <= |steps| && conn in pools[i].closed
    ensures conn in pools[j].closed && conn !in pools[j].held && conn !in pools[j].pooled
  {
    PoolConserves(steps, pools, j);
    if j > i {
      ClosedStaysClosed(steps, pools, i, j - 1, conn);
      assert StepAt(steps, pools, j - 1);
    }
  }

  /** No connection is lost or duplicated in any run, however many callers hold connections at once. */
  lemma {:induction false} PoolConserves(steps: seq<Step>, pools: seq<Pool>, i: nat)
    requires Execution(steps, pools) && i <= |steps|
    ensures Conserved(pools[i])
  {
    if i > 0 {
      PoolConserves(steps, pools, i - 1);
      assert StepAt(steps, pools, i - 1);
      ConservedStep(pools[i - 1], steps[i - 1]);
    }
  }

  // ----- the only user of the pool --------------------------------------------------------------

  /** Where one call of UnsubscribeAll stands: outside the mutex, inside before it has a connection, holding
      one, or inside with nothing left to do but unlock. */
  datatype Phase = Outside | Entered | Holding(conn: nat) | Leaving

  datatype System = System(pool: Pool, lock: Option<nat>, phase: seq<Phase>)

  datatype Action =
    | Lock(u: nat)
    | NothingToDo(u: nat)
    | Take(u: nat, alive: bool, dialOk: bool)
    | GiveBack(u: nat)
    | Unlock(u: nat)

  predicate ActionEnabled(s: System, a: Action) {
    a.u < |s.phase| &&
    match a
    case Lock(u) => s.lock.None? && s.phase[u].Outside?
    case NothingToDo(u) => s.phase[u].Entered?
    case Take(u, _, _) => s.phase[u].Entered?
    case GiveBack(u) => s.phase[u].Holding?
    case Unlock(u) => s.phase[u].Leaving?
  }

  function Act(s: System, a: Action): System
    requires ActionEnabled(s, a)
  {
    match a
    case Lock(u) => s.(lock := Some(u), phase := s.phase[u := Entered])
    case NothingToDo(u) => s.(phase := s.phase[u := Leaving])
    case Take(u, alive, dialOk) =>
      var (pool, conn) := GetConnection(s.pool, alive, dialOk);
      s.(pool := pool, phase := s.phase[u := if conn.Some? then Holding(conn.value) else Leaving])
    case GiveBack(u) =>
      s.(pool := ReturnConnection(s.pool, s.phase[u].conn), phase := s.phase[u := Leaving])
    case Unlock(u) => s.(lock := None, phase := s.phase[u := Outside])
  }

  ghost predicate SystemExecution(callers: nat, actions: seq<Action>, systems: seq<System>) {
    && |systems| == |actions| + 1
    && systems[0] == System(EMPTY, None, seq(callers, _ => Outside))
    && forall i :: 0 <= i < |actions| ==> ActionAt(actions, systems, i)
  }

  ghost predicate ActionAt(actions: seq<Action>, systems: seq<System>, i: nat)
    requires |systems| == |actions| + 1 && i < |actions|
  {
    ActionEnabled(systems[i], actions[i]) && systems[i + 1] == Act(systems[i], actions[i])
  }

  /** Only the owner of the mutex is inside, what is held is what it holds, and there is at most one pooled or
      held connection. */
  ghost predicate OwnerInv(s: System) {
    && Conserved(s.pool)
    && (forall u :: 0 <= u < |s.phase| ==> (s.lock == Some(u) <==> !s.phase[u].Outside?))
    && (s.lock.Some? ==> s.lock.value < |s.phase|)
    && s.pool.held ==
       (if s.lock.Some? && s.phase[s.lock.value].Holding? then {s.phase[s.lock.value].conn} else {})
    && |s.pool.pooled| + |s.pool.held| <= 1
  }

  lemma TakeStep(s: System, u: nat, alive: bool, dialOk: bool)
    requires OwnerInv(s) && ActionEnabled(s, Take(u, alive, dialOk))
    ensures OwnerInv(Act(s, Take(u, alive, dialOk)))
  {
    assert s.lock == Some(u) && s.pool.held == {};
    ConservedStep(s.pool, Get(alive, dialOk));
    var (pool, conn) := GetConnection(s.pool, alive, dialOk);
    assert pool.held == if conn.Some? then {conn.value} else {};
  }

  lemma GiveBackStep(s: System, u: nat)
    requires OwnerInv(s) && ActionEnabled(s, GiveBack(u))
    ensures OwnerInv(Act(s, GiveBack(u)))
  {
    var conn := s.phase[u].conn;
    assert s.lock == Some(u) && s.pool.held == {conn};
    assert |s.pool.held| == 1 && s.pool.pooled == [];
    ConservedStep(s.pool, Return(conn));
    assert ReturnConnection(s.pool, conn).held == {};
  }

  lemma OwnerStep(s: System, a: Action)
    requires OwnerInv(s) && ActionEnabled(s, a)
    ensures OwnerInv(Act(s, a))
  {
    match a
    case Take(u, alive, dialOk) => TakeStep(s, u, alive, dialOk);
    case GiveBack(u) => GiveBackStep(s, u);
    case _ => assert s.phase[a.u].Outside? || s.lock == Some(a.u);
  }

  /** For any number of overlapping calls and every interleaving: the pool never holds more than one
      connection, never overflows, and no connection is lost. */
  lemma {:induction false} PoolHoldsAtMostOne(callers: nat, actions: seq<Action>, systems: seq<System>, i: nat)
    requires SystemExecution(callers, actions, systems) && i <= |actions|
    ensures OwnerInv(systems[i]) && !Overflows(systems[i].pool)
  {
    if i > 0 {
      PoolHoldsAtMostOne(callers, actions, systems, i - 1);
      assert ActionAt(actions, systems, i - 1);
      OwnerStep(systems[i - 1], actions[i - 1]);
    }
  }

  /** An undisturbed call takes a connection, gives it back if it got one, and leaves everything else as it was; a call with nothing to
      unsubscribe changes nothing. */
  lemma UndisturbedCall(s: System, u: nat, alive: bool, dialOk: bool)
    requires s.lock.None? && u < |s.phase| && s.phase[u].Outside?
    ensures var (pool, conn) := GetConnection(s.pool, alive, dialOk);
      && ActionEnabled(s, Lock(u))
      && var entered := Act(s, Lock(u));
      && ActionEnabled(entered, Take(u, alive, dialOk))
      && var taken := Act(entered, Take(u, alive, dialOk));
      if conn.Some? then
        && ActionEnabled(taken, GiveBack(u)) && ActionEnabled(Act(taken, GiveBack(u)), Unlock(u))
        && Act(Act(taken, GiveBack(u)), Unlock(u)) == s.(pool := ReturnConnection(pool, conn.value))
      else ActionEnabled(taken, Unlock(u)) && Act(taken, Unlock(u)) == s.(pool := pool)
    ensures var entered := Act(s, Lock(u));
      && ActionEnabled(entered, NothingToDo(u)) && ActionEnabled(Act(entered, NothingToDo(u)), Unlock(u))
      && Act(Act(entered, NothingToDo(u)), Unlock(u)) == s
  {}

  /** Without the mutex the bound fails: two overlapping calls leave two connections in the pool. */
  lemma OverlappingCallsPoolTwo()
    ensures exists steps: seq<Step>, pools: seq<Pool> :: Execution(steps, pools) && |pools[|steps|].pooled| == 2
  {
    var steps := [Get(true, true), Get(true, true), Return(0), Return(1)];
    var pools := [EMPTY, Pool([], {0}, {}, 1), Pool([], {0, 1}, {}, 2), Pool([0], {1}, {}, 2), Pool([0, 1], {}, {}, 2)];
    assert {0, 1} - {0} == {1} && {1} - {1} == {} && {0} + {1} == {0, 1};
    forall i | 0 <= i < |steps| ensures StepAt(steps, pools, i) {}
    assert Execution(steps, pools);
  }
}
