/** Safety of the poll protocol in every interleaving, and why nobody waits for ever. */
module PollSafety {
  import opened Prelude
  import opened Poll

  // ---- the invariant

  predicate MainHoldsEpoll(m: MainAt) {
    m.AddRef? || m.DelTry? || m.DelWrite? || m.DelWait? || m.DelScan? || m.DelDrop? || m.DelUnlock?
  }

  predicate MainHoldsInterrupt(m: MainAt) { m.DelScan? || m.DelDrop? || m.DelUnlock? }

  predicate PollerHoldsInterrupt(p: PollerAt) { p.InEpollWait? || p.Returned? }

  /** Who holds which lock, and that a deleter waiting for the poll thread has rung it. */
  ghost predicate Locks(s: State) {
    && (s.epoll == ByMain <==> MainHoldsEpoll(s.main))
    && (s.epoll == ByPoller <==> s.poller.Looping?)
    && (s.interrupt == ByMain <==> MainHoldsInterrupt(s.main))
    && (s.interrupt == ByPoller <==> PollerHoldsInterrupt(s.poller))
    && (s.main.DelWrite? || s.main.DelWait? ==> PollerHoldsInterrupt(s.poller) || s.poller.WantEpoll?)
    && (s.main.DelWait? && s.poller.InEpollWait? ==> s.edge && s.pipe > 0)
  }

  /** The reference count of a live session: one for epoll, one for the client, one for a scheduled callback. */
  ghost predicate Counted(s: State, id: Id)
    requires id in s.sessions
  {
    var x := s.sessions[id];
    && x.refCount == (if s.main == AddRef(id) then 1 else 2) + (if x.source then 1 else 0)
    && (x.condOut != {} ==> x.source)
    && (s.main == AddRef(id) ==> !x.source)
  }

  ghost predicate Refs(s: State) {
    forall id :: id in s.sessions ==> Counted(s, id)
  }

  /** The operations in progress act on sessions that exist. */
  ghost predicate Targets(s: State) {
    match s.main {
      case AtClient => true
      case AddLock => true
      case AddRef(id) => id in s.sessions
      case WrapperLock(id) => id in s.sessions && s.sessions[id].source
      case Calling(id, _) => id in s.sessions
      case DelLock(id) => id in s.sessions
      case DelTry(id) => id in s.sessions
      case DelWrite(id) => id in s.sessions
      case DelWait(id) => id in s.sessions
      case DelScan(id) => id in s.sessions
      case DelDrop(id) => id in s.sessions
      case DelUnlock(id) => id !in s.sessions && Freed(id) in s.log && DelReturned(id) !in s.log
    }
  }

  /** The first element of the event array that dispatch has not processed. */
  function From(p: PollerAt): nat {
    if p.Looping? then p.i else 0
  }

  /** Neither the kernel nor the unprocessed events point at freed sessions; a scanned session is not pointed at. */
  ghost predicate Pointers(s: State) {
    && s.watched <= s.sessions.Keys
    && (s.poller.WantInterrupt? || s.poller.InEpollWait? ==> s.events == [])
    && From(s.poller) <= |s.events|
    && (forall i: nat {:trigger s.events[i]} :: From(s.poller) <= i < |s.events| && s.events[i].Ready? ==>
          s.events[i].id in s.sessions && s.main != DelDrop(s.events[i].id))
  }

  /** The log and the state tell the same story: about the sessions and their conditions, */
  ghost predicate Tally(sessions: map<Id, Session>, log: seq<Event>) {
    && sessions.Keys == Live(log)
    && (forall id :: id in sessions ==> Means(sessions[id].condOut, Outstanding(log, id)))
  }

  /** about the delivery being made, */
  ghost predicate Flight(main: MainAt, log: seq<Event>) {
    InFlight(log) == if main.Calling? then Some(Called(main.id, main.conds)) else None
  }

  /** and about which sessions are gone. */
  ghost predicate Gone(sessions: map<Id, Session>, next: Id, main: MainAt, log: seq<Event>) {
    && (forall e :: e in log ==> e.id < next)
    && (forall id :: id in sessions ==> id < next && Freed(id) !in log && DelReturned(id) !in log)
    && (forall e :: e in log && e.Added? && e.id !in sessions ==> DelReturned(e.id) in log || main == DelUnlock(e.id))
  }

  /** A wake-up event yet to be processed finds the pipe as full as it was reported: reading it does not block. */
  ghost predicate Ringing(s: State) {
    && OneWake(s.events)
    && (forall i: nat {:trigger s.events[i]} :: From(s.poller) <= i < |s.events| && s.events[i].Wake? ==> s.pipe > 0)
  }

  ghost predicate Inv(s: State) {
    && Locks(s) && Refs(s) && Targets(s) && Pointers(s)
    && Told(s)
  }

  ghost predicate Told(s: State) {
    Tally(s.sessions, s.log) && Flight(s.main, s.log) && Gone(s.sessions, s.next, s.main, s.log) && LogLawful(s.log)
  }

  // ---- one event more in the log

  lemma Last(log: seq<Event>, e: Event)
    ensures (log + [e])[..|log + [e]| - 1] == log
    ensures Live(log + [e]) ==
              if e.Added? then Live(log) + {e.id} else if e.Freed? then Live(log) - {e.id} else Live(log)
    ensures forall id :: Outstanding(log + [e], id) ==
              if e.Taken? && e.id == id then {}
              else if e.Noted? && e.id == id then Outstanding(log, id) + e.flags
              else Outstanding(log, id)
    ensures InFlight(log + [e]) ==
              if e.Taken? then Some(Called(e.id, e.conds)) else if e.Called? then None else InFlight(log)
  {
    assert (log + [e])[..|log + [e]| - 1] == log;
  }

  // ---- every step keeps the invariant

  /** Steps of the poll thread that only move its program counter, lock, or fill and empty the event array. */
  predicate PlainPoller(step: Step) {
    step.PollerTakesInterrupt? || step.EpollReturns? || step.PollerReleasesInterrupt? || step.PollerTakesEpoll?
    || step.PollerFinishes?
  }

  /** Steps of the main-loop thread that only move its program counter, lock, or ring the pipe. */
  predicate PlainMain(step: Step) {
    step.CallAdd? || step.SourceFires? || step.CallDel? || DelLocks(step)
  }

  predicate DelLocks(step: Step) {
    step.DelTakesEpoll? || step.DelTries? || step.DelWakes? || step.DelTakesInterrupt?
  }

  lemma PlainPollerKeeps(s: State, step: Step)
    requires Inv(s) && Enabled(s, step) && PlainPoller(step)
    ensures Inv(Apply(s, step))
  {
  }

  lemma DelLocksKeeps(s: State, step: Step)
    requires Inv(s) && Enabled(s, step) && DelLocks(step)
    ensures Inv(Apply(s, step))
  {
  }

  lemma PlainMainKeeps(s: State, step: Step)
    requires Inv(s) && Enabled(s, step) && PlainMain(step)
    ensures Inv(Apply(s, step))
  {
    if DelLocks(step) { DelLocksKeeps(s, step); }
  }

  lemma ScanKeeps(s: State)
    requires Inv(s) && Enabled(s, DelScans)
    ensures Inv(Apply(s, DelScans))
  {
  }

  lemma {:induction false} NothingBefore(log: seq<Event>, id: Id)
    requires forall e :: e in log ==> e.id != id
    ensures Outstanding(log, id) == {}
  {
    if log != [] {
      assert log[|log| - 1] in log;
      NothingBefore(log[..|log| - 1], id);
    }
  }

  lemma AddGone(s: State, log: seq<Event>)
    requires Told(s) && s.main == AddLock && log == s.log + [Added(s.next)]
    ensures Gone(Create(s).sessions, s.next + 1, AddRef(s.next), log)
  {
  }

  lemma AddTally(s: State, log: seq<Event>)
    requires Told(s) && log == s.log + [Added(s.next)]
    ensures Tally(Create(s).sessions, log)
  {
    Last(s.log, Added(s.next));
    NothingBefore(s.log, s.next);
  }

  lemma AddTold(s: State)
    requires Told(s) && s.main == AddLock
    ensures Told(Create(s))
  {
    var log := s.log + [Added(s.next)];
    Append(Lawful, s.log, Added(s.next));
    Last(s.log, Added(s.next));
    AddGone(s, log);
    AddTally(s, log);
  }

  lemma AddRest(s: State)
    requires Inv(s) && s.main == AddLock && s.epoll == Free
    ensures var t := Create(s); Locks(t) && Refs(t) && Targets(t) && Pointers(t)
  {
    var t := Create(s);
    forall id | id in t.sessions
      ensures Counted(t, id)
    {
      if id != s.next { assert Counted(s, id); }
    }
  }

  lemma AddKeeps(s: State)
    requires Inv(s) && s.main == AddLock && s.epoll == Free
    ensures Inv(Create(s))
  {
    AddTold(s);
    AddRest(s);
  }

  lemma AddFinishesKeeps(s: State)
    requires Inv(s) && s.main.AddRef?
    ensures Inv(Ref(s, s.main.id).(epoll := Free, main := AtClient))
  {
  }

  // ---- the callback wrapper

  /** The wrapper drops the reference of the source and takes all that is outstanding. */
  lemma Wrapped(s: State, id: Id)
    requires Refs(s) && s.main == WrapperLock(id) && id in s.sessions && s.sessions[id].source
    ensures var x := s.sessions[id];
            Wrap(s, id) == s.(sessions := s.sessions[id := Session(2, false, {})], main := Calling(id, x.condOut),
                              log := s.log + [Taken(id, x.condOut)])
  {
    assert Counted(s, id);
  }

  lemma WrapTold(s: State, id: Id)
    requires Told(s) && s.main == WrapperLock(id) && id in s.sessions
    ensures var x := s.sessions[id];
            Told(s.(sessions := s.sessions[id := Session(2, false, {})], main := Calling(id, x.condOut),
                    log := s.log + [Taken(id, x.condOut)]))
  {
    var e := Taken(id, s.sessions[id].condOut);
    Append(Lawful, s.log, e);
    Last(s.log, e);
  }

  lemma WrapRest(s: State, id: Id, log: seq<Event>)
    requires Inv(s) && s.main == WrapperLock(id) && s.epoll == Free
    ensures id in s.sessions
    ensures var t := s.(sessions := s.sessions[id := Session(2, false, {})],
                        main := Calling(id, s.sessions[id].condOut), log := log);
            Locks(t) && Refs(t) && Targets(t) && Pointers(t)
  {
  }

  lemma WrapKeeps(s: State, id: Id)
    requires Inv(s) && s.main == WrapperLock(id) && s.epoll == Free
    ensures id in s.sessions && Inv(Wrap(s, id))
  {
    WrapTold(s, id);
    Wrapped(s, id);
    WrapRest(s, id, s.log + [Taken(id, s.sessions[id].condOut)]);
  }

  lemma CallTold(s: State)
    requires Told(s) && s.main.Calling? && s.main.id in s.sessions
    ensures Told(Log(s.(main := AtClient), Called(s.main.id, s.main.conds)))
  {
    var e := Called(s.main.id, s.main.conds);
    Append(Lawful, s.log, e);
    Last(s.log, e);
  }

  lemma CallKeeps(s: State)
    requires Inv(s) && s.main.Calling?
    ensures Inv(Log(s.(main := AtClient), Called(s.main.id, s.main.conds)))
  {
    CallTold(s);
  }

  // ---- the end of del

  /** Removing the source and leaving epoll takes the count down to the reference that frees the session. */
  lemma Dropped(s: State, id: Id)
    requires Refs(s) && s.main == DelDrop(id) && id in s.sessions
    ensures Drop(s, id) == s.(sessions := s.sessions - {id}, watched := s.watched - {id}, log := s.log + [Freed(id)])
  {
    assert Counted(s, id);
  }

  lemma DropGone(s: State, id: Id, log: seq<Event>)
    requires Told(s) && s.main == DelDrop(id) && id in s.sessions && log == s.log + [Freed(id)]
    ensures Gone(s.sessions - {id}, s.next, DelUnlock(id), log)
  {
  }

  lemma DropTold(s: State, id: Id)
    requires Told(s) && s.main == DelDrop(id) && id in s.sessions
    ensures Told(s.(sessions := s.sessions - {id}, log := s.log + [Freed(id)], main := DelUnlock(id)))
  {
    var log := s.log + [Freed(id)];
    DropGone(s, id, log);
    Append(Lawful, s.log, Freed(id));
    Last(s.log, Freed(id));
    assert Tally(s.sessions - {id}, log);
  }

  /** No pointer to the dropped session is left, by the scan and by leaving epoll. */
  lemma DropRest(s: State, id: Id, log: seq<Event>)
    requires Inv(s) && s.main == DelDrop(id) && Freed(id) in log && DelReturned(id) !in log
    ensures var t := s.(sessions := s.sessions - {id}, watched := s.watched - {id}, log := log, main := DelUnlock(id));
            Locks(t) && Refs(t) && Targets(t) && Pointers(t)
  {
    var t := s.(sessions := s.sessions - {id}, watched := s.watched - {id}, log := log, main := DelUnlock(id));
    forall k | k in t.sessions
      ensures Counted(t, k)
    {
      assert Counted(s, k);
    }
  }

  lemma DropKeeps(s: State, id: Id)
    requires Inv(s) && s.main == DelDrop(id)
    ensures Inv(Drop(s, id).(main := DelUnlock(id)))
  {
    Dropped(s, id);
    DropTold(s, id);
    DropRest(s, id, s.log + [Freed(id)]);
  }

  lemma ReturnTold(s: State, id: Id)
    requires Told(s) && s.main == DelUnlock(id) && Targets(s)
    ensures Told(Log(s.(main := AtClient), DelReturned(id)))
  {
    var e := DelReturned(id);
    Append(Lawful, s.log, e);
    Last(s.log, e);
  }

  lemma ReturnKeeps(s: State, id: Id)
    requires Inv(s) && s.main == DelUnlock(id)
    ensures Inv(Log(s.(interrupt := Free, epoll := Free, main := AtClient), DelReturned(id)))
  {
    ReturnTold(s, id);
  }

  // ---- dispatch

  lemma ConditionsMean(flags: set<Flag>)
    ensures Means(Conditions(flags), flags)
  {
  }

  lemma MeansBoth(c: set<Cond>, f: set<Flag>, d: set<Cond>, g: set<Flag>)
    requires Means(c, f) && Means(d, g)
    ensures Means(c + d, f + g)
  {
  }

  /** The session found through an event survives: what is reported joins its conditions and it is scheduled. */
  lemma Processed(s: State, e: Entry) returns (conds: set<Cond>)
    requires Refs(s) && e.Ready? && e.id in s.sessions && !s.main.AddRef? && !LooksLikeWake(s, e)
    ensures Means(conds, e.flags)
    ensures Process(s, e) ==
              s.(sessions := s.sessions[e.id := Session(3, true, s.sessions[e.id].condOut + conds)],
                 log := s.log + [Dereferenced(e.id)] + [Noted(e.id, e.flags)])
  {
    conds := Conditions(e.flags);
    ConditionsMean(e.flags);
    assert Counted(s, e.id);
  }

  lemma NoteTold(s: State, id: Id, flags: set<Flag>, x: Session)
    requires Told(s) && id in s.sessions && Means(x.condOut, Outstanding(s.log, id) + flags)
    ensures Told(s.(sessions := s.sessions[id := x], log := s.log + [Dereferenced(id)] + [Noted(id, flags)]))
  {
    DereferenceTold(s, id);
    Last(s.log, Dereferenced(id));
    var d := Log(s, Dereferenced(id));
    Append(Lawful, d.log, Noted(id, flags));
    Last(d.log, Noted(id, flags));
  }

  lemma DereferenceTold(s: State, id: Id)
    requires Told(s) && id in s.sessions
    ensures Told(Log(s, Dereferenced(id)))
  {
    Append(Lawful, s.log, Dereferenced(id));
    Last(s.log, Dereferenced(id));
  }

  /** Passing over a null pointer, or reading the pipe empty. */
  lemma SkipKeeps(s: State)
    requires Inv(s) && Enabled(s, PollerProcesses) && !s.events[s.poller.i].Ready?
    ensures Inv(Process(s, s.events[s.poller.i]).(poller := Looping(s.poller.i + 1)))
  {
  }

  /** A session mistaken for the wake-up event is left as it is; its report is lost. */
  lemma MistakeKeeps(s: State)
    requires Inv(s) && Enabled(s, PollerProcesses)
    requires s.events[s.poller.i].Ready? && LooksLikeWake(s, s.events[s.poller.i])
    ensures Inv(Process(s, s.events[s.poller.i]).(poller := Looping(s.poller.i + 1)))
  {
    DereferenceTold(s, s.events[s.poller.i].id);
  }

  lemma RecordKeeps(s: State, id: Id, x: Session, log: seq<Event>)
    requires Inv(s) && s.poller.Looping? && s.poller.i < |s.events|
    requires id in s.sessions && x.refCount == 3 && x.source
    requires var t := s.(sessions := s.sessions[id := x], log := log); Told(t)
    ensures Inv(s.(sessions := s.sessions[id := x], log := log, poller := Looping(s.poller.i + 1)))
  {
  }

  lemma ProcessKeeps(s: State)
    requires Inv(s) && Enabled(s, PollerProcesses)
    ensures Inv(Process(s, s.events[s.poller.i]).(poller := Looping(s.poller.i + 1)))
  {
    var e := s.events[s.poller.i];
    if e.Ready? && LooksLikeWake(s, e) {
      MistakeKeeps(s);
    } else if e.Ready? {
      var id := e.id;
      var conds := Processed(s, e);
      var x := Session(3, true, s.sessions[id].condOut + conds);
      MeansBoth(s.sessions[id].condOut, Outstanding(s.log, id), conds, e.flags);
      NoteTold(s, id, e.flags, x);
      RecordKeeps(s, id, x, s.log + [Dereferenced(id)] + [Noted(id, e.flags)]);
    } else {
      SkipKeeps(s);
    }
  }

  // ---- whole runs

  predicate PollerMoves(step: Step) { PlainPoller(step) || step.PollerProcesses? }

  lemma PollerStepKeeps(s: State, step: Step)
    requires Inv(s) && Enabled(s, step) && PollerMoves(step)
    ensures Inv(Apply(s, step))
  {
    if PlainPoller(step) { PlainPollerKeeps(s, step); } else { ProcessKeeps(s); }
  }

  lemma MainStepKeeps(s: State, step: Step)
    requires Inv(s) && Enabled(s, step) && !PollerMoves(step) && !PlainMain(step)
    ensures Inv(Apply(s, step))
  {
    match step {
      case AddUnderLock => AddKeeps(s);
      case AddFinishes => AddFinishesKeeps(s);
      case WrapperUnderLock => WrapKeeps(s, s.main.id);
      case WrapperCalls => CallKeeps(s);
      case DelScans => ScanKeeps(s);
      case DelDrops => DropKeeps(s, s.main.id);
      case DelReturns => ReturnKeeps(s, s.main.id);
    }
  }

  lemma SameDescriptor(s: State, step: Step)
    requires Enabled(s, step)
    ensures Apply(s, step).wakeFd == s.wakeFd
  {
  }

  /** Every step of every thread keeps the invariant. */
  lemma StepKeeps(s: State, step: Step)
    requires Inv(s) && Enabled(s, step)
    ensures Inv(Apply(s, step)) && Apply(s, step).wakeFd == s.wakeFd
  {
    SameDescriptor(s, step);
    if PollerMoves(step) { PollerStepKeeps(s, step); }
    else if PlainMain(step) { PlainMainKeeps(s, step); }
    else { MainStepKeeps(s, step); }
  }

  lemma {:induction false} RunKeeps(s: State, steps: seq<Step>)
    requires Inv(s) && Run(s, steps).Some?
    ensures Inv(Run(s, steps).value) && Run(s, steps).value.wakeFd == s.wakeFd
    decreases |steps|
  {
    if steps != [] {
      StepKeeps(s, steps[0]);
      RunKeeps(Apply(s, steps[0]), steps[1..]);
    }
  }

  ghost predicate Reachable(wakeFd: int, s: State) {
    exists steps :: Run(Init(wakeFd), steps) == Some(s)
  }

  /**
    In every interleaving: dispatch follows no pointer to a freed session, each session is freed once, no callback
    runs after del returns, and each callback gets exactly what was recorded since the one before.
   */
  lemma Safety(wakeFd: int, s: State)
    requires Reachable(wakeFd, s)
    ensures LogLawful(s.log) && Inv(s)
  {
    var steps :| Run(Init(wakeFd), steps) == Some(s);
    RunKeeps(Init(wakeFd), steps);
  }

  /** Outside add, a live session is referenced by epoll, by the client and by its scheduled callback, if any. */
  lemma ReferenceCount(wakeFd: int, s: State, id: Id)
    requires Reachable(wakeFd, s)
    requires id in s.sessions && s.main != AddRef(id)
    ensures s.sessions[id].refCount == 2 + (if s.sessions[id].source then 1 else 0)
    ensures Means(s.sessions[id].condOut, Outstanding(s.log, id))
    ensures Outstanding(s.log, id) != {} ==> s.sessions[id].source
  {
    Safety(wakeFd, s);
    assert Counted(s, id);
    if Outstanding(s.log, id) != {} { SomethingMeant(s.sessions[id].condOut, Outstanding(s.log, id)); }
  }

  lemma SomethingMeant(conds: set<Cond>, flags: set<Flag>)
    requires Means(conds, flags) && flags != {}
    ensures conds != {}
  {
    var f :| f in flags;
    match f {
      case EpollIn => assert In in conds;
      case EpollPri => assert In in conds;
      case EpollOut => assert Out in conds;
      case EpollHup => assert Hup in conds;
      case EpollRdHup => assert Hup in conds;
      case EpollErr => assert Err in conds;
    }
  }

  lemma LawfulAt(wakeFd: int, s: State, j: nat)
    requires Reachable(wakeFd, s) && j < |s.log|
    ensures Lawful(s.log[..j], s.log[j])
  {
    Safety(wakeFd, s);
  }

  /** No callback runs after del has returned. */
  lemma NoCallbackAfterDel(wakeFd: int, s: State, i: nat, j: nat, id: Id, conds: set<Cond>)
    requires Reachable(wakeFd, s) && i < |s.log| && j < |s.log|
    requires s.log[i] == DelReturned(id) && s.log[j] == Called(id, conds)
    ensures j < i
  {
    LawfulAt(wakeFd, s, j);
    Past(s.log, j);
  }

  /** A session is freed once. */
  lemma FreedOnce(wakeFd: int, s: State, i: nat, j: nat, id: Id)
    requires Reachable(wakeFd, s) && i < |s.log| && j < |s.log|
    requires s.log[i] == Freed(id) && s.log[j] == Freed(id)
    ensures i == j
  {
    var a, b := Min(i, j), Max(i, j);
    LawfulAt(wakeFd, s, b);
    Past(s.log, b);
    assert s.log[a] == s.log[b] == Freed(id);
  }

  // ---- nobody waits for ever

  /** What progress needs on top: reads of the pipe that do not block, and no session mistaken for the wake-up event. */
  ghost predicate Alive(s: State) { Inv(s) && Ringing(s) && s.wakeFd != 2 && s.wakeFd != 3 }

  lemma RingingStays(s: State, step: Step)
    requires Alive(s) && Enabled(s, step) && !step.PollerProcesses?
    ensures Ringing(Apply(s, step))
  {
  }

  lemma ProcessingRings(s: State)
    requires Alive(s) && Enabled(s, PollerProcesses)
    ensures Ringing(Apply(s, PollerProcesses))
  {
    var e := s.events[s.poller.i];
    if e.Ready? {
      NotMistaken(s, e);
      var _ := Processed(s, e);
    }
  }

  lemma NotMistaken(s: State, e: Entry)
    requires Alive(s) && s.poller.Looping? && e.Ready? && e.id in s.sessions
    ensures !LooksLikeWake(s, e)
  {
    assert Counted(s, e.id);
  }

  lemma StaysAlive(s: State, step: Step)
    requires Alive(s) && Enabled(s, step)
    ensures Alive(Apply(s, step))
  {
    StepKeeps(s, step);
    if step.PollerProcesses? { ProcessingRings(s); } else { RingingStays(s, step); }
  }

  lemma {:induction false} RunStaysAlive(s: State, steps: seq<Step>)
    requires Alive(s) && Run(s, steps).Some?
    ensures Alive(Run(s, steps).value)
    decreases |steps|
  {
    if steps != [] {
      StaysAlive(s, steps[0]);
      RunStaysAlive(Apply(s, steps[0]), steps[1..]);
    }
  }

  /** The main-loop thread is back with the client and the poll thread sleeps in epoll. */
  predicate Quiet(s: State) { s.main == AtClient && s.poller == InEpollWait }

  /** A step towards the end of what is in progress. */
  function Urgent(s: State): Step {
    match s.main {
      case AtClient => PollerStep(s)
      case AddLock => if s.epoll == Free then AddUnderLock else PollerStep(s)
      case AddRef(_) => AddFinishes
      case WrapperLock(_) => if s.epoll == Free then WrapperUnderLock else PollerStep(s)
      case Calling(_, _) => WrapperCalls
      case DelLock(_) => if s.epoll == Free then DelTakesEpoll else PollerStep(s)
      case DelTry(_) => DelTries
      case DelWrite(_) => DelWakes
      case DelWait(_) => if s.interrupt == Free then DelTakesInterrupt else PollerStep(s)
      case DelScan(_) => DelScans
      case DelDrop(_) => DelDrops
      case DelUnlock(_) => DelReturns
    }
  }

  /** The next step of the poll thread; in epoll it is the wake-up that ends the wait. */
  function PollerStep(s: State): Step {
    match s.poller {
      case WantInterrupt => PollerTakesInterrupt
      case InEpollWait => EpollReturns([Wake])
      case Returned => PollerReleasesInterrupt
      case WantEpoll => PollerTakesEpoll
      case Looping(i) => if i < |s.events| then PollerProcesses else PollerFinishes
    }
  }

  function MainRank(m: MainAt): nat {
    match m {
      case AtClient => 0
      case AddLock => 2
      case AddRef(_) => 1
      case WrapperLock(_) => 2
      case Calling(_, _) => 1
      case DelLock(_) => 7
      case DelTry(_) => 6
      case DelWrite(_) => 5
      case DelWait(_) => 4
      case DelScan(_) => 3
      case DelDrop(_) => 2
      case DelUnlock(_) => 1
    }
  }

  function PollerRank(s: State): int {
    match s.poller {
      case WantInterrupt => 1
      case InEpollWait => if s.main.DelWait? then |s.events| + 6 else 0
      case Returned => |s.events| + 4
      case WantEpoll => |s.events| + 3
      case Looping(i) => |s.events| - i + 2
    }
  }

  ghost predicate Nearer(s: State, t: State) {
    MainRank(t.main) < MainRank(s.main) || (MainRank(t.main) == MainRank(s.main) && PollerRank(t) < PollerRank(s))
  }

  predicate InDel(m: MainAt) {
    m.DelLock? || m.DelTry? || m.DelWrite? || m.DelWait? || MainHoldsInterrupt(m)
  }

  lemma HolderHelps(s: State)
    requires Inv(s) && MainHoldsInterrupt(s.main)
    ensures Enabled(s, Urgent(s)) && Nearer(s, Apply(s, Urgent(s)))
  {
  }

  lemma DelHelps(s: State)
    requires Inv(s) && InDel(s.main) && Urgent(s) != PollerStep(s)
    ensures Enabled(s, Urgent(s)) && Nearer(s, Apply(s, Urgent(s)))
  {
    if MainHoldsInterrupt(s.main) { HolderHelps(s); }
  }

  /** When the main-loop thread is not kept waiting, its own step helps. */
  lemma MainHelps(s: State)
    requires Inv(s) && s.main != AtClient && Urgent(s) != PollerStep(s)
    ensures Enabled(s, Urgent(s)) && Nearer(s, Apply(s, Urgent(s)))
  {
    if InDel(s.main) { DelHelps(s); }
  }

  /** When it is, the thread it waits for can step. */
  lemma PollerHelps(s: State)
    requires Alive(s) && !Quiet(s) && Urgent(s) == PollerStep(s)
    ensures Enabled(s, PollerStep(s)) && Nearer(s, Apply(s, PollerStep(s)))
  {
    if s.poller.Looping? && s.poller.i < |s.events| {
      LoopingEnabled(s);
    }
  }

  /** Short of quiet, some thread can always step, and that step brings quiet nearer. */
  lemma UrgentHelps(s: State)
    requires Alive(s) && !Quiet(s)
    ensures Enabled(s, Urgent(s)) && PollerRank(s) >= 0 && Nearer(s, Apply(s, Urgent(s)))
  {
    if Urgent(s) == PollerStep(s) { PollerHelps(s); } else { MainHelps(s); }
  }

  lemma LoopingEnabled(s: State)
    requires Alive(s) && s.poller.Looping? && s.poller.i < |s.events|
    ensures Enabled(s, PollerProcesses)
    ensures var t := Process(s, s.events[s.poller.i]); t.main == s.main && t.events == s.events
  {
    var e := s.events[s.poller.i];
    if e.Ready? {
      NotMistaken(s, e);
      var _ := Processed(s, e);
    }
  }

  /** No deadlock: from every reachable state some run ends every operation in progress. */
  lemma {:induction false} AlwaysQuiet(s: State) returns (steps: seq<Step>)
    requires Alive(s)
    ensures Run(s, steps).Some? && Quiet(Run(s, steps).value)
    decreases MainRank(s.main), PollerRank(s)
  {
    steps := [];
    if !Quiet(s) {
      UrgentHelps(s);
      StaysAlive(s, Urgent(s));
      var rest := AlwaysQuiet(Apply(s, Urgent(s)));
      steps := [Urgent(s)] + rest;
      assert steps[1..] == rest;
    }
  }

  /** Some run leads to a state in which neither thread can ever end what it is doing. */
  ghost predicate CanHang(wakeFd: int) {
    exists s :: Reachable(wakeFd, s) && forall steps :: Run(s, steps).Some? ==> !Quiet(Run(s, steps).value)
  }

  lemma NeverHangs(wakeFd: int)
    requires wakeFd != 2 && wakeFd != 3
    ensures !CanHang(wakeFd)
  {
    forall s | Reachable(wakeFd, s)
      ensures exists steps :: Run(s, steps).Some? && Quiet(Run(s, steps).value)
    {
      var steps :| Run(Init(wakeFd), steps) == Some(s);
      RunStaysAlive(Init(wakeFd), steps);
      var more := AlwaysQuiet(s);
    }
  }

  // ---- the two descriptors that are mistaken for reference counts

  lemma {:induction false} RunSnoc(s: State, steps: seq<Step>, step: Step)
    requires Run(s, steps).Some? && Enabled(Run(s, steps).value, step)
    ensures Run(s, steps + [step]) == Some(Apply(Run(s, steps).value, step))
    decreases |steps|
  {
    if steps == [] {
      assert [step][1..] == [];
    } else {
      assert (steps + [step])[1..] == steps[1..] + [step];
      RunSnoc(Apply(s, steps[0]), steps[1..], step);
    }
  }

  lemma Reach(wakeFd: int, s: State, step: Step)
    requires Reachable(wakeFd, s) && Enabled(s, step)
    ensures Reachable(wakeFd, Apply(s, step))
  {
    var steps :| Run(Init(wakeFd), steps) == Some(s);
    RunSnoc(Init(wakeFd), steps, step);
  }

  /** Dispatch took a session for the wake-up event and reads an empty pipe, holding the lock that del would need. */
  ghost predicate Hung(s: State) {
    && s.poller.Looping? && s.poller.i < |s.events| && s.epoll == ByPoller && s.pipe == 0
    && LooksLikeWake(s, s.events[s.poller.i])
    && (s.main.AtClient? || s.main.AddLock? || s.main.WrapperLock? || s.main.DelLock? || s.main.Calling?)
  }

  lemma {:induction false} HungForEver(s: State, steps: seq<Step>)
    requires Hung(s) && Run(s, steps).Some?
    ensures Hung(Run(s, steps).value)
    decreases |steps|
  {
    if steps != [] {
      StillHung(s, steps[0]);
      HungForEver(Apply(s, steps[0]), steps[1..]);
    }
  }

  lemma StillHung(s: State, step: Step)
    requires Hung(s) && Enabled(s, step)
    ensures Hung(Apply(s, step))
  {
  }

  /** One session that epoll watches, and nothing going on. */
  ghost predicate OneSession(s: State, refCount: int) {
    && 0 in s.sessions && s.sessions[0].refCount == refCount && s.sessions[0].source == (refCount == 3)
    && s.main == AtClient && s.interrupt == Free && s.pipe == 0 && 0 in s.watched
  }

  ghost predicate Idle(s: State, refCount: int) {
    OneSession(s, refCount) && s.poller == WantInterrupt && s.epoll == Free
  }

  /** The poll thread is about to process a report about the session. */
  ghost predicate Reported(s: State, refCount: int) {
    OneSession(s, refCount) && s.poller == Looping(0) && s.epoll == ByPoller && s.events == [Ready(0, {EpollIn})]
  }

  lemma AddOne(wakeFd: int) returns (s: State)
    ensures Reachable(wakeFd, s) && Idle(s, 2) && s.wakeFd == wakeFd
  {
    s := Init(wakeFd);
    assert Run(s, []) == Some(s);
    Reach(wakeFd, s, CallAdd);
    s := Apply(s, CallAdd);
    Reach(wakeFd, s, AddUnderLock);
    s := Apply(s, AddUnderLock);
    Reach(wakeFd, s, AddFinishes);
    s := Apply(s, AddFinishes);
  }

  lemma ReportOne(wakeFd: int, s: State, refCount: int) returns (t: State)
    requires Reachable(wakeFd, s) && Idle(s, refCount)
    ensures Reachable(wakeFd, t) && Reported(t, refCount) && t.wakeFd == s.wakeFd
  {
    Reach(wakeFd, s, PollerTakesInterrupt);
    t := Apply(s, PollerTakesInterrupt);
    Reach(wakeFd, t, EpollReturns([Ready(0, {EpollIn})]));
    t := Apply(t, EpollReturns([Ready(0, {EpollIn})]));
    Reach(wakeFd, t, PollerReleasesInterrupt);
    t := Apply(t, PollerReleasesInterrupt);
    Reach(wakeFd, t, PollerTakesEpoll);
    t := Apply(t, PollerTakesEpoll);
  }

  lemma ProcessOne(wakeFd: int, s: State) returns (t: State)
    requires Reachable(wakeFd, s) && Reported(s, 2) && s.wakeFd != 2
    ensures Reachable(wakeFd, t) && Idle(t, 3) && t.wakeFd == s.wakeFd
  {
    Reach(wakeFd, s, PollerProcesses);
    t := Apply(s, PollerProcesses);
    Reach(wakeFd, t, PollerFinishes);
    t := Apply(t, PollerFinishes);
  }

  /** The protocol is free of deadlock exactly when the pipe's descriptor is neither of the two reference counts. */
  lemma HangsIff(wakeFd: int)
    ensures CanHang(wakeFd) <==> wakeFd == 2 || wakeFd == 3
  {
    if wakeFd == 2 || wakeFd == 3 {
      var s := AddOne(wakeFd);
      var t := ReportOne(wakeFd, s, 2);
      if wakeFd == 3 {
        s := ProcessOne(wakeFd, t);
        t := ReportOne(wakeFd, s, 3);
      }
      assert Hung(t);
      forall steps | Run(t, steps).Some?
        ensures !Quiet(Run(t, steps).value)
      {
        HungForEver(t, steps);
      }
    } else {
      NeverHangs(wakeFd);
    }
  }
}
