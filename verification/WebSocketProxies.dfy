/** The WebSocket proxy object with its shared set and connection pool, and the per-client maps. */
module WebSocketProxies {
  import opened Wrappers
  import S = Subscriptions
  import P = ConnPool

  /** The maps that ServeHTTP creates for one client connection. */
  class ClientConnection {
    var subscriptions: set<string>
    var pending: set<S.Id>

    constructor ()
      ensures Contents() == S.NEW_CONN
    {
      subscriptions, pending := {}, {};
    }

    ghost function Contents(): S.Conn
      reads this
    {
      S.Conn(subscriptions, pending)
    }
  }

  class WebSocketProxy {
    var subscriptions: set<string>
    // connections are numbered in the order they are created
    var connPool: seq<nat>
    var closed: set<nat>
    var created: nat
    ghost var held: set<nat>

    constructor ()
      ensures subscriptions == {} && Pool() == P.EMPTY
    {
      subscriptions, connPool, closed, created, held := {}, [], {}, 0, {};
    }

    ghost function Pool(): P.Pool
      reads this
    {
      P.Pool(connPool, held, closed, created)
    }

    ghost function Tracked(conn: ClientConnection): S.Tracked
      reads this, conn
    {
      S.Tracked(conn.Contents(), subscriptions)
    }

    method TrackSubscription(subId: string)
      modifies this`subscriptions
      ensures subscriptions == old(subscriptions) + {subId}
    {
      subscriptions := subscriptions + {subId};
    }

    method RemoveSubscription(subId: string)
      modifies this`subscriptions
      ensures subscriptions == old(subscriptions) - {subId}
    {
      subscriptions := subscriptions - {subId};
    }

    method TrackSubscriptionFromMessage(msg: S.Message, conn: ClientConnection)
      requires msg.FromClient? || msg.Unparsable?
      modifies this`subscriptions, conn
      ensures Tracked(conn) == S.Track(old(Tracked(conn)), msg)
      ensures forall subId :: S.Unsubscribes(msg, subId) ==> subId !in conn.subscriptions && subId !in subscriptions
      ensures forall id :: S.Subscribes(msg, id) ==> id in conn.pending
    {
      if msg.Unparsable? || msg.methodName.None? {
        return;
      }
      var m := msg.methodName.value;
      S.MethodNames(m);
      if m == "eth_subscribe" || m == "shh_subscribe" || m == "net_subscribe" {
        if msg.id.Some? {
          conn.pending := conn.pending + {msg.id.value};
        }
      }
      if m == "eth_unsubscribe" || m == "shh_unsubscribe" || m == "net_unsubscribe" {
        if msg.firstParam.Some? {
          conn.subscriptions := conn.subscriptions - {msg.firstParam.value};
          RemoveSubscription(msg.firstParam.value);
        }
      }
    }

    method TrackSubscriptionResponse(msg: S.Message, conn: ClientConnection)
      requires msg.FromUpstream?
      modifies this`subscriptions, conn
      ensures Tracked(conn) == S.Track(old(Tracked(conn)), msg)
    {
      if msg.id.None? || msg.id.value !in conn.pending {
        return;
      }
      conn.pending := conn.pending - {msg.id.value};
      if msg.result.Some? {
        conn.subscriptions := conn.subscriptions + {msg.result.value};
        TrackSubscription(msg.result.value);
      }
    }

    method CleanupConnectionSubscriptions(conn: ClientConnection)
      modifies this`subscriptions, conn`subscriptions
      ensures subscriptions == old(subscriptions) - old(conn.subscriptions)
      ensures conn.subscriptions == {}
    {
      if conn.subscriptions == {} {
        return;
      }
      var rest := conn.subscriptions;
      while rest != {}
        invariant rest <= conn.subscriptions == old(conn.subscriptions)
        invariant subscriptions == old(subscriptions) - (conn.subscriptions - rest)
        decreases rest
      {
        var subId :| subId in rest;
        subscriptions := subscriptions - {subId};
        rest := rest - {subId};
      }
      conn.subscriptions := {};
    }

    /** `dialOk` tells whether the upstream can be dialled. */
    method CreateNewConnection(dialOk: bool) returns (conn: Option<nat>)
      modifies this`created, this`held
      ensures (Pool(), conn) == P.Dial(old(Pool()), dialOk)
    {
      if !dialOk {
        return None;
      }
      conn := Some(created);
      held := held + {created};
      created := created + 1;
    }

    /** `alive` tells whether a pooled connection still answers a ping. */
    method GetConnection(alive: bool, dialOk: bool) returns (conn: Option<nat>)
      modifies this`connPool, this`closed, this`created, this`held
      ensures (Pool(), conn) == P.GetConnection(old(Pool()), alive, dialOk)
      ensures old(connPool) != [] && alive ==> conn == Some(old(connPool)[0]) && closed == old(closed)
      ensures old(connPool) != [] && !alive ==> closed == old(closed) + {old(connPool)[0]}
      ensures old(connPool) == [] || !alive ==> conn == if dialOk then Some(old(created)) else None
    {
      if connPool != [] {
        var pooled := connPool[0];
        connPool := connPool[1..];
        if !alive {
          closed := closed + {pooled};
          conn := CreateNewConnection(dialOk);
          return;
        }
        held := held + {pooled};
        return Some(pooled);
      }
      conn := CreateNewConnection(dialOk);
    }

    method ReturnConnection(conn: Option<nat>)
      modifies this`connPool, this`closed, this`held
      ensures Pool() == if conn.None? then old(Pool()) else P.ReturnConnection(old(Pool()), conn.value)
    {
      if conn.None? {
        return;
      }
      held := held - {conn.value};
      if |connPool| < P.CAPACITY {
        connPool := connPool + [conn.value];
      } else {
        closed := closed + {conn.value};
      }
    }

    /** An undisturbed call; `sent` is the ids for which an unsubscribe message is written, `failed` those for
        which writing it fails. */
    method UnsubscribeAll(alive: bool, dialOk: bool, failed: set<string>) returns (sent: seq<string>)
      modifies this
      ensures var (pool, conn) := old(P.GetConnection(Pool(), alive, dialOk));
        if old(subscriptions) == {} then sent == [] && subscriptions == {} && Pool() == old(Pool())
        else if conn.None? then sent == [] && subscriptions == old(subscriptions) && Pool() == pool
        else
          && subscriptions == {}
          && (forall subId :: subId in sent <==> subId in old(subscriptions) && subId !in failed)
          && (forall i, j :: 0 <= i < j < |sent| ==> sent[i] != sent[j])
          && Pool() == P.ReturnConnection(pool, conn.value)
    {
      sent := [];
      var subIds := subscriptions;
      if subIds == {} {
        return;
      }
      var conn := GetConnection(alive, dialOk);
      if conn.None? {
        return;
      }
      subscriptions := {};
      var rest := subIds;
      while rest != {}
        invariant rest <= subIds
        invariant forall subId :: subId in sent <==> subId in subIds && subId !in rest && subId !in failed
        invariant forall i, j :: 0 <= i < j < |sent| ==> sent[i] != sent[j]
        decreases rest
      {
        var subId :| subId in rest;
        if subId !in failed {
          sent := sent + [subId];
        }
        rest := rest - {subId};
      }
      ReturnConnection(conn);
    }
  }
}
