/**
  The connection pool (evd/evd-connection-pool.c) with the part of streams and stream groups it relies on
  (evd/evd-io-stream.c, evd/evd-io-stream-group.c), TLS off.
 */
module ConnectionPool {
  import opened Prelude

  type Conn = nat
  type Request = nat

  /** The group a stream belongs to. */
  datatype Group = NoGroup | ThisPool | OtherGroup(n: nat)

  /** A request that was given a connection. */
  datatype Handed = Handed(request: Request, conn: Conn)

  datatype Pool = Pool(
    min: nat,
    max: nat,
    conns: seq<Conn>,        // idle connections
    requests: seq<Request>,  // waiting requests
    connecting: nat,
    retry: nat,              // the retry timer the pool knows about, or 0
    timers: set<nat>,        // retry timers armed in the main loop
    nextTimer: nat,
    group: map<Conn, Group>, // each stream's own field
    watched: set<Conn>,      // streams whose close signal is handled
    closed: set<Conn>,
    loaned: set<Conn>,       // history: connections in the hands of clients
    issued: seq<Request>,    // history: requests in the order they were made
    finished: seq<Handed>)   // history: requests in the order they were given a connection

  function Start(min: nat, max: nat): Pool {
    Pool(min, max, [], [], 0, 0, {}, 1, map[], {}, {}, {}, [], [])
  }

  function GroupOf(p: Pool, c: Conn): Group {
    if c in p.group then p.group[c] else NoGroup
  }

  function Total(p: Pool): nat { p.connecting + |p.conns| }

  function SetGroup(p: Pool, c: Conn, g: Group): Pool {
    if g == GroupOf(p, c) then p else p.(group := p.group[c := g])
  }

  /** Connect until the idle and the connecting ones reach the minimum. */
  function CreateMin(p: Pool): Pool {
    p.(retry := 0, connecting := Max(p.connecting, p.min - |p.conns|))
  }

  function Finish(p: Pool, r: Request, c: Conn): Pool {
    p.(finished := p.finished + [Handed(r, c)], loaned := p.loaned + {c})
  }

  /** A connection has come free: the first waiting request gets it, or it becomes idle. */
  function Available(p: Pool, c: Conn): Pool {
    if p.requests != [] then CreateMin(Finish(p.(requests := p.requests[1..]), p.requests[0], c))
    else p.(conns := p.conns + [c], watched := p.watched + {c})
  }

  function Join(p: Pool, c: Conn): Pool {
    if GroupOf(p, c) == ThisPool then p else Available(p.(group := p.group[c := ThisPool]), c)
  }

  function Without(q: seq<Conn>, c: Conn): seq<Conn> {
    if q == [] then [] else if q[0] == c then q[1..] else [q[0]] + Without(q[1..], c)
  }

  function Leave(p: Pool, c: Conn): Pool {
    if GroupOf(p, c) == NoGroup then p
    else p.(group := p.group[c := NoGroup], watched := p.watched - {c}, conns := Without(p.conns, c))
  }

  // ---- what each event does

  function Get(p: Pool, r: Request): Pool {
    var q := p.(issued := p.issued + [r]);
    if p.conns != [] then
      CreateMin(Leave(Finish(q.(conns := p.conns[1..]), r, p.conns[0]), p.conns[0]))
    else CreateMin(q.(requests := p.requests + [r]))
  }

  /** A socket is no longer connecting, and the known timer is cancelled. */
  function Settled(p: Pool): Pool
    requires p.connecting > 0
  {
    p.(connecting := p.connecting - 1, timers := if p.retry != 0 then p.timers - {p.retry} else p.timers, retry := 0)
  }

  function Connected(p: Pool, c: Conn): Pool
    requires p.connecting > 0
  {
    Join(Settled(p), c)
  }

  function ConnectFailed(p: Pool): Pool
    requires p.connecting > 0
  {
    p.(connecting := p.connecting - 1,
       timers := p.timers + {p.nextTimer}, retry := p.nextTimer, nextTimer := p.nextTimer + 1)
  }

  function TimerFired(p: Pool, t: nat): Pool { CreateMin(p.(timers := p.timers - {t})) }

  function Closed(p: Pool, c: Conn): Pool {
    var q := if c in p.watched then CreateMin(Leave(p, c)) else p;
    SetGroup(q, c, NoGroup).(closed := p.closed + {c})
  }

  /** Whether the pool takes a connection back. */
  predicate Recyclable(p: Pool, c: Conn) {
    c !in p.closed && Total(p) < p.max && GroupOf(p, c) != ThisPool
  }

  function Recycled(p: Pool, c: Conn): Pool {
    if Recyclable(p, c) then Join(p.(loaned := p.loaned - {c}), c) else p
  }
}
