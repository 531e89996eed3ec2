/** The pool as an object: nested calls between streams and groups, held in check by the group's guard. */
module ConnectionPoolObject {
  import opened Prelude
  import opened ConnectionPool

  class PoolObject {
    const min: nat
    const max: nat
    var conns: seq<Conn>
    var requests: seq<Request>
    var connectingSockets: nat
    var retrySrcId: nat
    var recursed: bool

    // what the pool keeps elsewhere: in the main loop and in the streams
    var timers: set<nat>
    var nextTimer: nat
    var group: map<Conn, Group>
    var watched: set<Conn>
    var closed: set<Conn>

    ghost var loaned: set<Conn>
    ghost var issued: seq<Request>
    ghost var finished: seq<Handed>

    ghost function State(): Pool
      reads this
    {
      Pool(min, max, conns, requests, connectingSockets, retrySrcId, timers, nextTimer, group, watched, closed, loaned,
           issued, finished)
    }

    constructor (min: nat, max: nat)
      ensures !recursed && State() == CreateMin(Start(min, max))
    {
      this.min, this.max := min, max;
      conns, requests, connectingSockets, retrySrcId, recursed := [], [], 0, 0, false;
      timers, nextTimer, group, watched, closed := {}, 1, map[], {}, {};
      loaned, issued, finished := {}, [], [];
      new;
      CreateMinConns();
    }

    /** `evd_connection_pool_create_min_conns`. */
    method CreateMinConns()
      modifies this
      ensures State() == CreateMin(old(State())) && recursed == old(recursed)
    {
      retrySrcId := 0;
      while connectingSockets + |conns| < min
        invariant connectingSockets >= old(connectingSockets)
        invariant connectingSockets > old(connectingSockets) ==> connectingSockets + |conns| <= min
        invariant State() == old(State()).(retry := 0, connecting := connectingSockets) && recursed == old(recursed)
      {
        connectingSockets := connectingSockets + 1;
      }
    }

    // ---- streams and groups

    /** `evd_io_stream_set_group`: leaves the old group and joins the new one, which both call back. */
    method SetStreamGroup(c: Conn, g: Group) returns (changed: bool)
      modifies this
      ensures changed == (g != GroupOf(old(State()), c))
      ensures State() == SetGroup(old(State()), c, g) && recursed == old(recursed)
      decreases if recursed then 0 else 1, 3
    {
      var oldGroup := if c in group then group[c] else NoGroup;
      if g == oldGroup { return false; }
      if oldGroup != NoGroup {
        group := group[c := NoGroup];
        if oldGroup == ThisPool {
          var _ := GroupRemove(c);
        }
      }
      group := group[c := g];
      if g == ThisPool {
        var _ := GroupAdd(c);
      }
      return true;
    }

    /** `evd_io_stream_group_add` on this pool: nothing happens inside another add or remove. */
    method GroupAdd(c: Conn) returns (ok: bool)
      modifies this
      ensures recursed == old(recursed)
      ensures ok == (recursed || GroupOf(old(State()), c) != ThisPool)
      ensures State() == if recursed then old(State()) else Join(old(State()), c)
      decreases if recursed then 0 else 1, 2
    {
      ok := true;
      if !recursed {
        recursed := true;
        ok := GroupAddStream(c);
        recursed := false;
      }
    }

    method GroupRemove(c: Conn) returns (ok: bool)
      modifies this
      ensures recursed == old(recursed)
      ensures State() == if recursed then old(State()) else Leave(old(State()), c)
      decreases if recursed then 0 else 1, 2
    {
      ok := true;
      if !recursed {
        recursed := true;
        ok := GroupRemoveStream(c);
        recursed := false;
      }
    }

    /** `group_add_stream`. */
    method GroupAddStream(c: Conn) returns (ok: bool)
      requires recursed
      modifies this
      ensures recursed && ok == (GroupOf(old(State()), c) != ThisPool)
      ensures State() == Join(old(State()), c)
      decreases 0, 6
    {
      ok := SetStreamGroup(c, ThisPool);
      if ok { ConnectionAvailable(c); }
    }

    /** `group_remove_stream`. */
    method GroupRemoveStream(c: Conn) returns (ok: bool)
      requires recursed
      modifies this
      ensures recursed && ok == (GroupOf(old(State()), c) != NoGroup)
      ensures State() == Leave(old(State()), c)
      decreases 0, 6
    {
      ok := SetStreamGroup(c, NoGroup);
      if ok {
        watched := watched - {c};
        conns := Without(conns, c);
      }
    }

    /** `connection_available`, which runs only inside an add. */
    method ConnectionAvailable(c: Conn)
      requires recursed
      modifies this
      ensures recursed && State() == Available(old(State()), c)
      decreases 0, 5
    {
      if |requests| > 0 {
        var r := requests[0];
        requests := requests[1..];
        FinishRequest(c, r);
        CreateMinConns();
      } else {
        watched := watched + {c};
        conns := conns + [c];
      }
    }

    /** `evd_connection_pool_finish_request`: the removal works only when no add is in progress. */
    method FinishRequest(c: Conn, r: Request)
      modifies this
      ensures recursed == old(recursed)
      ensures State() == if recursed then Finish(old(State()), r, c) else Leave(Finish(old(State()), r, c), c)
      decreases if recursed then 0 else 1, 4
    {
      finished, loaned := finished + [Handed(r, c)], loaned + {c};
      var _ := GroupRemove(c);
    }

    // ---- what happens to the pool

    /** `evd_connection_pool_get_connection`. */
    method GetConnection(r: Request)
      requires !recursed
      modifies this
      ensures !recursed && State() == Get(old(State()), r)
    {
      issued := issued + [r];
      if |conns| > 0 {
        var c := conns[0];
        conns := conns[1..];
        FinishRequest(c, r);
        CreateMinConns();
      } else {
        requests := requests + [r];
        CreateMinConns();
      }
    }

    /** `evd_connection_pool_socket_on_connect`; a failed connect arms a timer. */
    method SocketOnConnect(stream: Option<Conn>)
      requires !recursed && connectingSockets > 0
      modifies this
      ensures !recursed
      ensures State() == if stream.Some? then Connected(old(State()), stream.value) else ConnectFailed(old(State()))
    {
      connectingSockets := connectingSockets - 1;
      match stream {
        case Some(c) =>
          if retrySrcId != 0 {
            timers := timers - {retrySrcId};
            retrySrcId := 0;
          }
          var _ := GroupAdd(c);
        case None =>
          timers := timers + {nextTimer};
          retrySrcId := nextTimer;
          nextTimer := nextTimer + 1;
      }
    }

    method OnTimer(t: nat)
      requires !recursed && t in timers
      modifies this
      ensures !recursed && State() == TimerFired(old(State()), t)
    {
      timers := timers - {t};
      CreateMinConns();
    }

    /** `io_stream_on_close` with `connection_on_close`. */
    method Close(c: Conn)
      requires !recursed && c !in closed
      modifies this
      ensures !recursed && State() == Closed(old(State()), c)
    {
      if c in watched {
        var _ := GroupRemove(c);
        CreateMinConns();
      }
      var _ := SetStreamGroup(c, NoGroup);
      closed := closed + {c};
    }

    /** `evd_connection_pool_recycle`: whether the pool took the connection, exactly. */
    method Recycle(c: Conn) returns (ok: bool)
      requires !recursed
      modifies this
      ensures !recursed && ok == Recyclable(old(State()), c)
      ensures State() == Recycled(old(State()), c)
    {
      if c in closed { return false; }
      if connectingSockets + |conns| >= max { return false; }
      if !(c in group && group[c] == ThisPool) {
        loaned := loaned - {c};
      }
      ok := GroupAdd(c);
    }
  }
}
