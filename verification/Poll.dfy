/**
  The edge-triggered poll thread (evd/evd-poll.c) as interleaved steps of two threads: the poll thread P, which
  waits in epoll and records what it reports, and the main-loop thread M, which adds and deletes sessions and runs
  callbacks.  The kernel, the main loop and the client choose freely among the enabled steps.
 */
module Poll {
  import opened Prelude

  type Id = nat

  datatype Flag = EpollIn | EpollPri | EpollOut | EpollHup | EpollRdHup | EpollErr
  datatype Cond = In | Out | Hup | Err

  /** The translation of epoll flags that dispatch does. */
  function Conditions(flags: set<Flag>): set<Cond> {
    (if EpollIn in flags || EpollPri in flags then {In} else {})
    + (if EpollOut in flags then {Out} else {})
    + (if EpollHup in flags || EpollRdHup in flags then {Hup} else {})
    + (if EpollErr in flags then {Err} else {})
  }

  /** A session; source says whether its timeout source is in the main loop (src_id is not 0). */
  datatype Session = Session(refCount: int, source: bool, condOut: set<Cond>)

  /** An element of the shared event array; del overwrites pointers with null. */
  datatype Entry = Null | Wake | Ready(id: Id, flags: set<Flag>)

  datatype Holder = Free | ByPoller | ByMain

  /** Where the poll thread is in dispatch. */
  datatype PollerAt = WantInterrupt | InEpollWait | Returned | WantEpoll | Looping(i: nat)

  /** Where the main-loop thread is; AtClient is anywhere outside this file, callbacks included. */
  datatype MainAt =
    | AtClient
    | AddLock
    | AddRef(id: Id)
    | WrapperLock(id: Id)
    | Calling(id: Id, conds: set<Cond>)
    | DelLock(id: Id)
    | DelTry(id: Id)
    | DelWrite(id: Id)
    | DelWait(id: Id)
    | DelScan(id: Id)
    | DelDrop(id: Id)
    | DelUnlock(id: Id)

  /** What is observable, in the order it happened. */
  datatype Event =
    | Added(id: Id)
    | Dereferenced(id: Id)
    | Noted(id: Id, flags: set<Flag>) // dispatch took up a report of epoll
    | Taken(id: Id, conds: set<Cond>)
    | Called(id: Id, conds: set<Cond>)
    | Freed(id: Id)
    | DelReturned(id: Id)

  datatype State = State(
    wakeFd: int,                // interrupt_fds[0]
    sessions: map<Id, Session>, // sessions not yet freed
    next: Id,                   // the address of the next session
    watched: set<Id>,           // the kernel's interest list
    pipe: nat,                  // bytes in the interrupt pipe
    edge: bool,                 // the pipe was written since epoll last reported it
    epoll: Holder,              // epoll_mutex
    interrupt: Holder,          // interrupt_mutex
    events: seq<Entry>,         // events[0..nr_events]
    poller: PollerAt,
    main: MainAt,
    log: seq<Event>)

  function Init(wakeFd: int): State {
    State(wakeFd, map[], 0, {}, 0, false, Free, Free, [], WantInterrupt, AtClient, [])
  }

  datatype Step =
    | PollerTakesInterrupt
    | EpollReturns(reported: seq<Entry>)
    | PollerReleasesInterrupt
    | PollerTakesEpoll
    | PollerProcesses
    | PollerFinishes
    | CallAdd
    | AddUnderLock
    | AddFinishes
    | SourceFires(id: Id)
    | WrapperUnderLock
    | WrapperCalls
    | CallDel(id: Id)
    | DelTakesEpoll
    | DelTries
    | DelWakes
    | DelTakesInterrupt
    | DelScans
    | DelDrops
    | DelReturns

  /** What epoll_wait may report: watched sessions, and the pipe when it was written and still holds something. */
  predicate Reportable(s: State, reported: seq<Entry>) {
    && |reported| <= 1000
    && (forall e :: e in reported ==> e != Null)
    && (forall e :: e in reported && e.Ready? ==> e.id in s.watched)
    && (Wake in reported ==> s.edge && s.pipe > 0)
    && OneWake(reported)
  }

  /** The kernel reports a descriptor once per call. */
  predicate OneWake(events: seq<Entry>) {
    forall i, j :: 0 <= i < j < |events| ==> !(events[i].Wake? && events[j].Wake?)
  }

  /** The value read through an event's pointer equals the descriptor of the pipe: taken for the wake-up event. */
  predicate LooksLikeWake(s: State, e: Entry) {
    e.Wake? || (e.Ready? && e.id in s.sessions && s.sessions[e.id].refCount == s.wakeFd)
  }

  predicate Enabled(s: State, step: Step) {
    match step {
      case PollerTakesInterrupt => s.poller == WantInterrupt && s.interrupt == Free
      case EpollReturns(reported) => s.poller == InEpollWait && Reportable(s, reported)
      case PollerReleasesInterrupt => s.poller == Returned
      case PollerTakesEpoll => s.poller == WantEpoll && s.epoll == Free
      // the pipe is read in blocking mode
      case PollerProcesses =>
        s.poller.Looping? && s.poller.i < |s.events| && (LooksLikeWake(s, s.events[s.poller.i]) ==> s.pipe > 0)
      case PollerFinishes => s.poller.Looping? && s.poller.i == |s.events|
      case CallAdd => s.main == AtClient
      case AddUnderLock => s.main == AddLock && s.epoll == Free
      case AddFinishes => s.main.AddRef?
      case SourceFires(id) => s.main == AtClient && id in s.sessions && s.sessions[id].source
      case WrapperUnderLock => s.main.WrapperLock? && s.epoll == Free
      case WrapperCalls => s.main.Calling?
      // the client deletes a session it added and has not deleted
      case CallDel(id) => s.main == AtClient && Added(id) in s.log && DelReturned(id) !in s.log
      case DelTakesEpoll => s.main.DelLock? && s.epoll == Free
      case DelTries => s.main.DelTry?
      case DelWakes => s.main.DelWrite?
      case DelTakesInterrupt => s.main.DelWait? && s.interrupt == Free
      case DelScans => s.main.DelScan?
      case DelDrops => s.main.DelDrop?
      case DelReturns => s.main.DelUnlock?
    }
  }

  // ---- operations on a session

  function Ref(s: State, id: Id): State {
    if id in s.sessions then
      s.(sessions := s.sessions[id := s.sessions[id].(refCount := s.sessions[id].refCount + 1)])
    else s
  }

  /** `evd_poll_session_unref`: the last reference removes the source and frees the session. */
  function Unref(s: State, id: Id): State {
    if id !in s.sessions then s
    else if s.sessions[id].refCount > 1 then
      s.(sessions := s.sessions[id := s.sessions[id].(refCount := s.sessions[id].refCount - 1)])
    else s.(sessions := s.sessions - {id}, log := s.log + [Freed(id)])
  }

  /** Whether `evd_poll_session_unref` says that the session is still there. */
  predicate Survives(s: State, id: Id) {
    id in s.sessions && s.sessions[id].refCount > 1
  }

  function Log(s: State, e: Event): State { s.(log := s.log + [e]) }

  /** What dispatch does with a session it found alive: gather its conditions and schedule its callback. */
  function Record(s: State, id: Id, flags: set<Flag>): State
    requires id in s.sessions
  {
    var x := s.sessions[id];
    var y := Session(if x.source then x.refCount else x.refCount + 1, true, x.condOut + Conditions(flags));
    Log(s.(sessions := s.sessions[id := y]), Noted(id, flags))
  }

  /** One turn of the loop of dispatch. */
  function Process(s: State, e: Entry): State {
    match e {
      case Null => s
      case Wake => Drain(s)
      case Ready(id, flags) =>
        var d := Log(s, Dereferenced(id));
        if LooksLikeWake(s, e) then Drain(d)
        else if !Survives(d, id) then Unref(d, id)
        else Record(Ref(Unref(d, id), id), id, flags)
    }
  }

  /** The wake-up event is consumed by reading the pipe. */
  function Drain(s: State): State { s.(pipe := s.pipe - Min(s.pipe, 1024)) }

  /** `evd_poll_add` up to the registration with epoll; the second reference follows. */
  function Create(s: State): State {
    var id := s.next;
    Log(s.(epoll := ByMain, sessions := s.sessions[id := Session(1, false, {})], next := id + 1,
           watched := s.watched + {id}, main := AddRef(id)),
        Added(id))
  }

  /** `evd_poll_callback_wrapper` under the lock; a session that does not survive is not called. */
  function Wrap(s: State, id: Id): State
    requires id in s.sessions
  {
    var u := Unref(s.(sessions := s.sessions[id := s.sessions[id].(source := false)]), id);
    if id !in u.sessions then u.(main := AtClient)
    else
      var x := u.sessions[id];
      Log(u.(sessions := u.sessions[id := x.(condOut := {})], main := Calling(id, x.condOut)), Taken(id, x.condOut))
  }

  function Scrub(events: seq<Entry>, id: Id): (r: seq<Entry>)
    ensures |r| == |events|
    ensures forall i :: 0 <= i < |r| ==> r[i] == if events[i].Ready? && events[i].id == id then Null else events[i]
  {
    if events == [] then []
    else [if events[0].Ready? && events[0].id == id then Null else events[0]] + Scrub(events[1..], id)
  }

  /** The end of `evd_poll_del`: remove the source with its reference, leave epoll, drop both references. */
  function Drop(s: State, id: Id): State {
    var a := if id in s.sessions && s.sessions[id].source
             then Unref(s.(sessions := s.sessions[id := s.sessions[id].(source := false)]), id) else s;
    var b := Unref(a.(watched := a.watched - {id}), id);
    Unref(b, id)
  }

  function Apply(s: State, step: Step): State
    requires Enabled(s, step)
  {
    match step {
      case PollerTakesInterrupt => s.(interrupt := ByPoller, poller := InEpollWait)
      case EpollReturns(reported) =>
        s.(events := reported, edge := s.edge && Wake !in reported, poller := Returned)
      case PollerReleasesInterrupt => s.(interrupt := Free, poller := WantEpoll)
      case PollerTakesEpoll => s.(epoll := ByPoller, poller := Looping(0))
      case PollerProcesses => Process(s, s.events[s.poller.i]).(poller := Looping(s.poller.i + 1))
      case PollerFinishes => s.(events := [], epoll := Free, poller := WantInterrupt)
      case CallAdd => s.(main := AddLock)
      case AddUnderLock => Create(s)
      case AddFinishes => Ref(s, s.main.id).(epoll := Free, main := AtClient)
      case SourceFires(id) => s.(main := WrapperLock(id))
      case WrapperUnderLock => if s.main.id in s.sessions then Wrap(s, s.main.id) else s.(main := AtClient)
      case WrapperCalls => Log(s.(main := AtClient), Called(s.main.id, s.main.conds))
      case CallDel(id) => s.(main := DelLock(id))
      case DelTakesEpoll => s.(epoll := ByMain, main := DelTry(s.main.id))
      case DelTries =>
        if s.interrupt == Free then s.(interrupt := ByMain, main := DelScan(s.main.id))
        else s.(main := DelWrite(s.main.id))
      case DelWakes => s.(pipe := s.pipe + 1, edge := true, main := DelWait(s.main.id))
      case DelTakesInterrupt => s.(interrupt := ByMain, main := DelScan(s.main.id))
      case DelScans => s.(events := Scrub(s.events, s.main.id), main := DelDrop(s.main.id))
      case DelDrops => Drop(s, s.main.id).(main := DelUnlock(s.main.id))
      case DelReturns => Log(s.(interrupt := Free, epoll := Free, main := AtClient), DelReturned(s.main.id))
    }
  }

  /** The state after a run, if every step of it is enabled. */
  function Run(s: State, steps: seq<Step>): Option<State>
    decreases |steps|
  {
    if steps == [] then Some(s)
    else if Enabled(s, steps[0]) then Run(Apply(s, steps[0]), steps[1..])
    else None
  }

  // ---- what the log promises, said without the state

  function Live(log: seq<Event>): set<Id> {
    if log == [] then {}
    else
      var rest, e := Live(log[..|log| - 1]), log[|log| - 1];
      if e.Added? then rest + {e.id} else if e.Freed? then rest - {e.id} else rest
  }

  /** What epoll reported of a session and dispatch took up since a callback last took it. */
  function Outstanding(log: seq<Event>, id: Id): set<Flag> {
    if log == [] then {}
    else
      var rest, e := Outstanding(log[..|log| - 1], id), log[|log| - 1];
      if e.Taken? && e.id == id then {}
      else if e.Noted? && e.id == id then rest + e.flags
      else rest
  }

  /** The delivery that was taken from a session and has not been made yet. */
  function InFlight(log: seq<Event>): Option<Event> {
    if log == [] then None
    else
      var e := log[|log| - 1];
      if e.Taken? then Some(Called(e.id, e.conds)) else if e.Called? then None else InFlight(log[..|log| - 1])
  }

  /** What conditions tell of reported flags. */
  predicate Means(conds: set<Cond>, flags: set<Flag>) {
    && (In in conds <==> EpollIn in flags || EpollPri in flags)
    && (Out in conds <==> EpollOut in flags)
    && (Hup in conds <==> EpollHup in flags || EpollRdHup in flags)
    && (Err in conds <==> EpollErr in flags)
  }

  /** What each event may follow. */
  ghost predicate Lawful(past: seq<Event>, e: Event) {
    match e {
      case Added(id) => Added(id) !in past
      // dispatch never follows a pointer to a freed session
      case Dereferenced(id) => id in Live(past)
      case Noted(id, _) => id in Live(past)
      // a callback gets what was reported since the last one, no more and no less
      case Taken(id, conds) => id in Live(past) && Means(conds, Outstanding(past, id)) && InFlight(past) == None
      // no callback after del
      case Called(id, conds) => id in Live(past) && InFlight(past) == Some(e) && DelReturned(id) !in past
      // freed once
      case Freed(id) => id in Live(past) && Freed(id) !in past
      case DelReturned(id) => Freed(id) in past && DelReturned(id) !in past
    }
  }

  ghost predicate LogLawful(log: seq<Event>) { Lawfully(Lawful, log) }
}
