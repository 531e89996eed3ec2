/** What holds of the connection pool in every run. */
module ConnectionPoolRuns {
  import opened Prelude
  import opened ConnectionPool

  datatype Step =
    | Gets(r: Request)
    | Connects(c: Conn)
    | FailsToConnect
    | TimerFires(t: nat)
    | Closes(c: Conn)
    | Recycles(c: Conn)
    | Regroups(c: Conn, g: Group)

  /** What may happen. */
  predicate Enabled(p: Pool, step: Step) {
    match step {
      case Gets(_) => true
      case Connects(c) => p.connecting > 0 && c !in p.group && c !in p.closed
      case FailsToConnect => p.connecting > 0
      case TimerFires(t) => t in p.timers
      case Closes(c) => c !in p.closed
      case Recycles(_) => true
      case Regroups(_, _) => true
    }
  }

  function Apply(p: Pool, step: Step): Pool
    requires Enabled(p, step)
  {
    match step {
      case Gets(r) => Get(p, r)
      case Connects(c) => Connected(p, c)
      case FailsToConnect => ConnectFailed(p)
      case TimerFires(t) => TimerFired(p, t)
      case Closes(c) => Closed(p, c)
      case Recycles(c) => Recycled(p, c)
      case Regroups(c, g) => SetGroup(p, c, g)
    }
  }

  ghost predicate Run(p: Pool, steps: seq<Step>, z: Pool)
    decreases |steps|
  {
    if steps == [] then p == z else Enabled(p, steps[0]) && Run(Apply(p, steps[0]), steps[1..], z)
  }

  /** A client that does not put a stream out of the pool's group while the stream is idle there. */
  predicate Considerate(p: Pool, step: Step) {
    step.Regroups? ==> step.c !in p.conns || step.g == ThisPool
  }

  ghost predicate ConsiderateRun(p: Pool, steps: seq<Step>)
    decreases |steps|
  {
    steps == []
    || (Enabled(p, steps[0]) && Considerate(p, steps[0]) && ConsiderateRun(Apply(p, steps[0]), steps[1..]))
  }

  // ---- the invariant

  ghost predicate NoDuplicates(q: seq<Conn>) {
    forall i, j :: 0 <= i < j < |q| ==> q[i] != q[j]
  }

  function Served(h: seq<Handed>): seq<Request> {
    if h == [] then [] else Served(h[..|h| - 1]) + [h[|h| - 1].request]
  }

  /** Idle connections are listed once, are nobody's, are open, and are watched members of the pool. */
  ghost predicate IdleOk(p: Pool) {
    && NoDuplicates(p.conns)
    && (forall c :: c in p.conns ==> c !in p.loaned && c !in p.closed && c in p.watched && GroupOf(p, c) == ThisPool)
    && (forall c :: c in p.watched ==> c in p.conns)
    && (forall c :: c in p.loaned ==> c in p.group)
  }

  /** Nothing waits while something is idle, and what waits will be woken. */
  ghost predicate QueuesOk(p: Pool) {
    && (p.conns == [] || p.requests == [])
    && (p.requests != [] ==> p.connecting > 0 || p.timers != {})
    && Total(p) <= p.max
    && 1 <= p.min <= p.max
    && (p.retry != 0 ==> p.retry in p.timers)
    && p.nextTimer > 0 && (forall t :: t in p.timers ==> 0 < t < p.nextTimer)
  }

  /** Requests are served in the order in which they were made. */
  ghost predicate OrderOk(p: Pool) { Served(p.finished) + p.requests == p.issued }

  /** What holds whatever clients do with the groups of streams. */
  ghost predicate Flow(p: Pool) { QueuesOk(p) && OrderOk(p) }

  ghost predicate Inv(p: Pool) { IdleOk(p) && Flow(p) }

  // ---- parts of the operations

  lemma ServedMore(h: seq<Handed>, x: Handed)
    ensures Served(h + [x]) == Served(h) + [x.request]
  {
    assert (h + [x])[..|h + [x]| - 1] == h;
  }

  lemma FirstServed(p: Pool, c: Conn)
    requires OrderOk(p) && p.requests != []
    ensures OrderOk(Finish(p.(requests := p.requests[1..]), p.requests[0], c))
  {
    var r := p.requests[0];
    ServedMore(p.finished, Handed(r, c));
    Assoc(Served(p.finished), [r], p.requests[1..]);
    assert p.requests == [r] + p.requests[1..];
  }

  /** All of Flow but the wake-up, which is broken while a connection changes hands. */
  ghost predicate Refillable(p: Pool) {
    && OrderOk(p) && 1 <= p.min <= p.max && Total(p) <= p.max && (p.conns == [] || p.requests == [])
    && p.nextTimer > 0 && (forall t :: t in p.timers ==> 0 < t < p.nextTimer)
  }

  lemma CreateMinFlows(p: Pool)
    requires Refillable(p)
    ensures Flow(CreateMin(p))
  {
  }

  lemma JoinFlows(p: Pool, c: Conn)
    requires Refillable(p) && Total(p) < p.max && (p.retry != 0 ==> p.retry in p.timers)
    requires GroupOf(p, c) != ThisPool
    ensures Flow(Join(p, c))
  {
    var q := p.(group := p.group[c := ThisPool]);
    if q.requests != [] {
      FirstServed(q, c);
      CreateMinFlows(Finish(q.(requests := q.requests[1..]), q.requests[0], c));
    }
  }

  lemma JoinIsIdle(p: Pool, c: Conn)
    requires IdleOk(p) && c !in p.loaned && c !in p.closed && GroupOf(p, c) != ThisPool
    ensures IdleOk(Join(p, c))
  {
  }

  lemma {:induction false} WithoutShorter(q: seq<Conn>, c: Conn)
    ensures |Without(q, c)| <= |q|
  {
    if q != [] {
      WithoutShorter(q[1..], c);
    }
  }

  lemma LeaveRefills(p: Pool, c: Conn)
    requires Refillable(p)
    ensures Refillable(Leave(p, c))
  {
    WithoutShorter(p.conns, c);
  }

  lemma {:induction false} WithoutAbsent(q: seq<Conn>, c: Conn)
    requires c !in q
    ensures Without(q, c) == q
  {
    if q != [] {
      WithoutAbsent(q[1..], c);
    }
  }

  lemma ConsNoDuplicates(x: Conn, q: seq<Conn>)
    requires NoDuplicates(q) && x !in q
    ensures NoDuplicates([x] + q)
  {
  }

  lemma TailNoDuplicates(q: seq<Conn>)
    requires NoDuplicates(q) && q != []
    ensures NoDuplicates(q[1..]) && q[0] !in q[1..] && q == [q[0]] + q[1..]
  {
  }

  /** Taking a listed connection out of a list without duplicates. */
  lemma {:induction false} WithoutListed(q: seq<Conn>, c: Conn)
    requires NoDuplicates(q)
    ensures NoDuplicates(Without(q, c)) && |Without(q, c)| <= |q|
    ensures forall d :: d in Without(q, c) <==> d in q && d != c
  {
    if q != [] {
      TailNoDuplicates(q);
      WithoutListed(q[1..], c);
      if q[0] != c {
        ConsNoDuplicates(q[0], Without(q[1..], c));
      }
    }
  }

  // ---- order, wake-ups and limits: every step

  lemma GetFlows(p: Pool, r: Request)
    requires Flow(p)
    ensures Flow(Get(p, r))
  {
    var q := p.(issued := p.issued + [r]);
    if p.conns != [] {
      var c := p.conns[0];
      var given := Finish(q.(conns := p.conns[1..]), r, c);
      NoneWaiting(p);
      ServedNow(q.(conns := p.conns[1..]), r, c);
      LeaveRefills(given, c);
      CreateMinFlows(Leave(given, c));
    } else {
      Assoc(Served(p.finished), p.requests, [r]);
      CreateMinFlows(q.(requests := p.requests + [r]));
    }
  }

  lemma NoneWaiting(p: Pool)
    requires OrderOk(p) && p.requests == []
    ensures p.issued == Served(p.finished)
  {
    assert Served(p.finished) + [] == Served(p.finished);
  }

  lemma ServedNow(q: Pool, r: Request, c: Conn)
    requires q.requests == [] && q.issued == Served(q.finished) + [r]
    ensures OrderOk(Finish(q, r, c))
  {
    ServedMore(q.finished, Handed(r, c));
  }

  lemma ConnectedFlows(p: Pool, c: Conn)
    requires Flow(p) && p.connecting > 0 && c !in p.group
    ensures Flow(Connected(p, c))
  {
    JoinFlows(Settled(p), c);
  }

  lemma ConnectFailedFlows(p: Pool)
    requires Flow(p) && p.connecting > 0
    ensures Flow(ConnectFailed(p))
  {
    assert p.nextTimer in ConnectFailed(p).timers;
  }

  lemma ClosedFlows(p: Pool, c: Conn)
    requires Flow(p)
    ensures Flow(Closed(p, c))
  {
    if c in p.watched {
      LeaveRefills(p, c);
      CreateMinFlows(Leave(p, c));
    }
  }

  lemma StepFlows(p: Pool, step: Step)
    requires Flow(p) && Enabled(p, step)
    ensures Flow(Apply(p, step))
  {
    match step {
      case Gets(r) => GetFlows(p, r);
      case Connects(c) => ConnectedFlows(p, c);
      case FailsToConnect => ConnectFailedFlows(p);
      case TimerFires(t) => CreateMinFlows(p.(timers := p.timers - {t}));
      case Closes(c) => ClosedFlows(p, c);
      case Recycles(c) => if Recyclable(p, c) { JoinFlows(p.(loaned := p.loaned - {c}), c); }
      case Regroups(c, g) => assert Apply(p, step) == SetGroup(p, c, g);
    }
  }

  // ---- the idle queue: every considerate step

  lemma GetIsIdle(p: Pool, r: Request)
    requires IdleOk(p)
    ensures IdleOk(Get(p, r))
  {
    if p.conns != [] {
      var q := p.(issued := p.issued + [r], conns := p.conns[1..]);
      IdleGiven(p, p.conns[0], Finish(q, r, p.conns[0]));
    }
  }

  /** Giving away the first idle connection. */
  lemma IdleGiven(p: Pool, c: Conn, q: Pool)
    requires IdleOk(p) && p.conns != [] && c == p.conns[0]
    requires q.conns == p.conns[1..] && q.loaned == p.loaned + {c}
    requires q.closed == p.closed && q.watched == p.watched && q.group == p.group
    ensures IdleOk(Leave(q, c))
  {
    TailNoDuplicates(p.conns);
    WithoutAbsent(p.conns[1..], c);
  }

  lemma ClosedIsIdle(p: Pool, c: Conn)
    requires IdleOk(p)
    ensures IdleOk(Closed(p, c))
  {
    if c in p.watched {
      WithoutListed(p.conns, c);
    }
  }

  lemma StepIsIdle(p: Pool, step: Step)
    requires IdleOk(p) && Enabled(p, step) && Considerate(p, step)
    ensures IdleOk(Apply(p, step))
  {
    match step {
      case Gets(r) => GetIsIdle(p, r);
      case Connects(c) => JoinIsIdle(Settled(p), c);
      case FailsToConnect => assert IdleOk(ConnectFailed(p));
      case TimerFires(t) => assert IdleOk(TimerFired(p, t));
      case Closes(c) => ClosedIsIdle(p, c);
      case Recycles(c) => if Recyclable(p, c) { JoinIsIdle(p.(loaned := p.loaned - {c}), c); }
      case Regroups(c, g) => assert Apply(p, step) == SetGroup(p, c, g);
    }
  }

  lemma StepKeeps(p: Pool, step: Step)
    requires Inv(p) && Enabled(p, step) && Considerate(p, step)
    ensures Inv(Apply(p, step))
  {
    StepFlows(p, step);
    StepIsIdle(p, step);
  }

  // ---- the results

  lemma StartsWell(min: nat, max: nat)
    requires 1 <= min <= max
    ensures Inv(CreateMin(Start(min, max)))
  {
    CreateMinFlows(Start(min, max));
  }

  lemma {:induction false} RunFlows(p: Pool, steps: seq<Step>, z: Pool)
    requires Flow(p) && Run(p, steps, z)
    ensures Flow(z) && z.min == p.min && z.max == p.max
    decreases |steps|
  {
    if steps != [] {
      StepFlows(p, steps[0]);
      SameLimits(p, steps[0]);
      RunFlows(Apply(p, steps[0]), steps[1..], z);
    }
  }

  lemma SameLimits(p: Pool, step: Step)
    requires Enabled(p, step)
    ensures Apply(p, step).min == p.min && Apply(p, step).max == p.max
  {
  }

  lemma {:induction false} RunIsIdle(p: Pool, steps: seq<Step>, z: Pool)
    requires IdleOk(p) && Run(p, steps, z) && ConsiderateRun(p, steps)
    ensures IdleOk(z)
    decreases |steps|
  {
    if steps != [] {
      StepIsIdle(p, steps[0]);
      RunIsIdle(Apply(p, steps[0]), steps[1..], z);
    }
  }

  /** Every run: first come first served, never idle and waiting at once, a wake-up pending, the maximum respected. */
  lemma EveryRun(min: nat, max: nat, steps: seq<Step>, z: Pool)
    requires 1 <= min <= max && Run(CreateMin(Start(min, max)), steps, z)
    ensures Served(z.finished) + z.requests == z.issued
    ensures z.conns == [] || z.requests == []
    ensures z.requests != [] ==> z.connecting > 0 || z.timers != {}
    ensures z.connecting + |z.conns| <= max
  {
    StartsWell(min, max);
    RunFlows(CreateMin(Start(min, max)), steps, z);
  }

  /** Every considerate run: an idle connection is listed once, open, in the pool's group and on loan to nobody. */
  lemma EveryConsiderateRun(min: nat, max: nat, steps: seq<Step>, z: Pool)
    requires 1 <= min <= max && Run(CreateMin(Start(min, max)), steps, z)
    requires ConsiderateRun(CreateMin(Start(min, max)), steps)
    ensures NoDuplicates(z.conns)
    ensures forall c :: c in z.conns ==> c !in z.loaned && c !in z.closed && GroupOf(z, c) == ThisPool
  {
    StartsWell(min, max);
    RunIsIdle(CreateMin(Start(min, max)), steps, z);
  }

  /** A connection is given only when nobody holds it, or by the recycling that hands it over. */
  lemma GivenOnce(p: Pool, step: Step, h: Handed)
    requires Inv(p) && Enabled(p, step) && Apply(p, step).finished == p.finished + [h]
    ensures h.conn !in p.loaned || step == Recycles(h.conn)
    ensures h.conn in Apply(p, step).loaned && h.conn !in Apply(p, step).conns
  {
    var f := Apply(p, step).finished;
    assert f[|p.finished|] == h;
    if Considerate(p, step) { StepKeeps(p, step); }
  }

  /**
    A connection that was idle leaves the pool when it is given to a request; one that was given to a waiting
    request stays in the pool's group, and the pool will not take it back.
   */
  lemma GroupAfterGiving(p: Pool, step: Step, h: Handed)
    requires Inv(p) && Enabled(p, step) && Apply(p, step).finished == p.finished + [h]
    ensures GroupOf(Apply(p, step), h.conn) == if step.Gets? then NoGroup else ThisPool
    ensures !step.Gets? ==> !Recyclable(Apply(p, step), h.conn)
  {
    var f := Apply(p, step).finished;
    assert f[|p.finished|] == h;
  }

  // ---- what each event brings about, said without the operations

  /** The first waiting request gets the connection, or the connection becomes the last idle one. */
  ghost predicate Placed(p: Pool, c: Conn, z: Pool) {
    if p.requests != [] then
      z.finished == p.finished + [Handed(p.requests[0], c)] && z.requests == p.requests[1..] && z.conns == p.conns
    else z.finished == p.finished && z.requests == [] && z.conns == p.conns + [c]
  }

  ghost predicate SameQueues(p: Pool, z: Pool) {
    z.finished == p.finished && z.requests == p.requests && z.conns == p.conns
  }

  ghost predicate Happens(p: Pool, step: Step, z: Pool) {
    match step {
      // the connection that was idle longest, or the end of the queue
      case Gets(r) =>
        && z.issued == p.issued + [r]
        && (if p.conns != [] then
              z.finished == p.finished + [Handed(r, p.conns[0])] && z.requests == p.requests && z.conns == p.conns[1..]
            else z.finished == p.finished && z.requests == p.requests + [r] && z.conns == [])
      case Connects(c) => Placed(p, c, z) && z.timers == p.timers - {p.retry}
      case FailsToConnect =>
        SameQueues(p, z) && z.connecting == p.connecting - 1 && exists t :: t !in p.timers && z.timers == p.timers + {t}
      case TimerFires(t) => SameQueues(p, z) && z.timers == p.timers - {t}
      case Closes(c) =>
        && z.finished == p.finished && z.requests == p.requests && z.closed == p.closed + {c}
        && GroupOf(z, c) == NoGroup
        && (forall d :: d in z.conns <==> d in p.conns && d != c)
      // taken back exactly when it is open, below the maximum and not in the pool's group
      case Recycles(c) =>
        if c !in p.closed && p.connecting + |p.conns| < p.max && GroupOf(p, c) != ThisPool then Placed(p, c, z)
        else z == p
      case Regroups(c, g) => SameQueues(p, z) && GroupOf(z, c) == g
    }
  }

  lemma StepHappens(p: Pool, step: Step)
    requires Inv(p) && Enabled(p, step)
    ensures Happens(p, step, Apply(p, step))
  {
    match step {
      case Gets(r) =>
        if p.conns != [] {
          TailNoDuplicates(p.conns);
          WithoutAbsent(p.conns[1..], p.conns[0]);
        }
      case Closes(c) => if c in p.watched { WithoutListed(p.conns, c); }
      case FailsToConnect => assert p.nextTimer !in p.timers;
      case _ =>
    }
  }

  /**
    The pool connects until it has its minimum: on every get, when a timer fires, when an idle connection closes and
    whenever a request is served; and never beyond.  In between it may have less: a socket that connects cancels the
    timer that another one's failure armed.
   */
  lemma Refills(p: Pool, step: Step)
    requires Flow(p) && Enabled(p, step)
    ensures var z := Apply(p, step);
            && (step.Gets? || step.TimerFires? || (step.Closes? && step.c in p.watched) || z.finished != p.finished ==>
                  z.connecting + |z.conns| >= p.min)
            && z.connecting <= Max(p.connecting, p.min)
  {
    match step {
      case Gets(r) => GetRefills(p, r);
      case Closes(c) => WithoutShorter(p.conns, c);
      case _ =>
    }
  }

  lemma GetRefills(p: Pool, r: Request)
    ensures var z := Get(p, r); z.connecting + |z.conns| >= p.min && z.connecting <= Max(p.connecting, p.min)
  {
    if p.conns != [] { WithoutShorter(p.conns[1..], p.conns[0]); }
  }

  /** The minimum is there, or a timer will see to it. */
  ghost predicate Provided(p: Pool) { p.connecting + |p.conns| >= p.min || p.timers != {} }

  /** That is lost exactly when a socket connects, nobody waits, and the timer it cancels was all there was. */
  lemma ProvidedIff(p: Pool, step: Step)
    requires Flow(p) && Provided(p) && Enabled(p, step)
    ensures Provided(Apply(p, step)) <==>
              !(step.Connects? && p.requests == [] && p.connecting + |p.conns| < p.min && p.timers == {p.retry})
  {
    Refills(p, step);
    var z := Apply(p, step);
    match step {
      case Connects(c) => StaysConnected(p, c);
      case FailsToConnect => assert p.nextTimer in z.timers;
      case _ =>
    }
  }

  lemma StaysConnected(p: Pool, c: Conn)
    requires Flow(p) && p.connecting > 0 && c !in p.group
    ensures var z := Connected(p, c);
            && z.timers == p.timers - {p.retry}
            && (p.requests == [] ==> z.connecting + |z.conns| == p.connecting + |p.conns|)
            && (p.timers != {p.retry} && p.connecting + |p.conns| < p.min ==> z.timers != {} || p.timers == {})
  {
    var t := p.timers - {p.retry};
    if p.timers != {} && t == {} {
      assert p.timers == {p.retry};
    }
  }

  /** Such a run of a pool that wants two connections: one socket fails, the other one connects. */
  lemma LeftShort() returns (z: Pool)
    ensures Run(CreateMin(Start(2, 5)), [FailsToConnect, Connects(7)], z)
    ensures z.connecting == 0 && z.conns == [7] && z.timers == {}
  {
    var s := CreateMin(Start(2, 5));
    var p := Apply(s, FailsToConnect);
    z := Apply(p, Connects(7));
    OneStep(p, Connects(7), [], z);
    OneStep(s, FailsToConnect, [Connects(7)], z);
  }

  // ---- what inconsiderate clients bring about

  /** Regrouping keeps the idle queue in order exactly when the stream is not idle or stays with the pool. */
  lemma RegroupingIff(p: Pool, c: Conn, g: Group)
    requires Inv(p)
    ensures Inv(SetGroup(p, c, g)) <==> Considerate(p, Regroups(c, g))
  {
    if Considerate(p, Regroups(c, g)) {
      StepKeeps(p, Regroups(c, g));
      assert Apply(p, Regroups(c, g)) == SetGroup(p, c, g);
    } else {
      assert c in SetGroup(p, c, g).conns && GroupOf(SetGroup(p, c, g), c) == g;
    }
  }

  /** A stream that is regrouped and then taken back is listed twice exactly when it was idle. */
  lemma RecyclingTwiceIff(p: Pool, c: Conn, g: Group)
    requires Inv(p) && Recyclable(SetGroup(p, c, g), c)
    ensures NoDuplicates(Recycled(SetGroup(p, c, g), c).conns) <==> c !in p.conns
  {
    var z := Recycled(SetGroup(p, c, g), c);
    if c in p.conns {
      assert z.conns == p.conns + [c];
      var i :| 0 <= i < |p.conns| && p.conns[i] == c;
      assert z.conns[i] == z.conns[|p.conns|];
    }
  }

  /** Such runs exist. */
  lemma RegroupingAnIdleConnection() returns (p: Pool, z: Pool)
    ensures Run(CreateMin(Start(1, 5)), [Connects(7)], p) && Inv(p) && p.conns == [7]
    ensures Run(CreateMin(Start(1, 5)), [Connects(7), Regroups(7, NoGroup), Recycles(7)], z) && z.conns == [7, 7]
  {
    var s := CreateMin(Start(1, 5));
    StartsWell(1, 5);
    p := Apply(s, Connects(7));
    StepKeeps(s, Connects(7));
    OneStep(s, Connects(7), [], p);
    var q := Apply(p, Regroups(7, NoGroup));
    z := Apply(q, Recycles(7));
    OneStep(q, Recycles(7), [], z);
    OneStep(p, Regroups(7, NoGroup), [Recycles(7)], z);
    OneStep(s, Connects(7), [Regroups(7, NoGroup), Recycles(7)], z);
  }

  lemma OneStep(p: Pool, step: Step, steps: seq<Step>, z: Pool)
    requires Enabled(p, step) && Run(Apply(p, step), steps, z)
    ensures Run(p, [step] + steps, z)
  {
    assert ([step] + steps)[1..] == steps;
  }
}
