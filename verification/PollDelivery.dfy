/** What epoll reports reaches the session: dispatch drops no report. */
module PollDelivery {
  import opened Prelude
  import opened Poll
  import opened PollSafety

  ghost predicate Carries(e: Entry, id: Id, f: Flag) { e.Ready? && e.id == id && f in e.flags }

  /** epoll reports this flag of this session. */
  ghost predicate Reports(step: Step, id: Id, f: Flag) {
    step.EpollReturns? && exists e :: e in step.reported && Carries(e, id, f)
  }

  function New(before: seq<Event>, after: seq<Event>): seq<Event> {
    if |before| <= |after| then after[|before|..] else []
  }

  /** Dispatch takes it up. */
  ghost predicate Notes(events: seq<Event>, id: Id, f: Flag) {
    exists e :: e in events && e.Noted? && e.id == id && f in e.flags
  }

  /** Whether a flag has been reported and not been taken up since, after one step more. */
  ghost predicate OwedThen(s: State, step: Step, id: Id, f: Flag, owed: bool)
    requires Enabled(s, step)
  {
    (owed || Reports(step, id, f)) && !Notes(New(s.log, Apply(s, step).log), id, f)
  }

  /** The same at the end of a run. */
  ghost predicate Owed(s: State, steps: seq<Step>, id: Id, f: Flag, owed: bool)
    requires Run(s, steps).Some?
    decreases |steps|
  {
    if steps == [] then owed
    else Owed(Apply(s, steps[0]), steps[1..], id, f, OwedThen(s, steps[0], id, f, owed))
  }

  /** An element of the event array that dispatch has not reached carries it. */
  ghost predicate InArray(s: State, id: Id, f: Flag) {
    exists i: nat :: From(s.poller) <= i < |s.events| && Carries(s.events[i], id, f)
  }

  /** What is owed to a session that is not being deleted is still in the array. */
  ghost predicate Kept(s: State, id: Id, f: Flag, owed: bool) {
    owed ==> id < s.next && (id in s.sessions && s.main != DelDrop(id) ==> InArray(s, id, f))
  }

  lemma ReturnsKeep(s: State, step: Step, id: Id, f: Flag, owed: bool)
    requires Inv(s) && Enabled(s, step) && step.EpollReturns? && Kept(s, id, f, owed)
    ensures Kept(Apply(s, step), id, f, owed || Reports(step, id, f))
  {
    if Reports(step, id, f) {
      var e :| e in step.reported && Carries(e, id, f);
      var i: nat :| i < |step.reported| && step.reported[i] == e;
      assert e.id in s.watched;
      assert Carries(Apply(s, step).events[i], id, f);
    }
  }

  lemma ProcessKeepsOwed(s: State, id: Id, f: Flag, owed: bool)
    requires Alive(s) && Enabled(s, PollerProcesses) && Kept(s, id, f, owed)
    ensures Kept(Apply(s, PollerProcesses), id, f, OwedThen(s, PollerProcesses, id, f, owed))
  {
    var e, t := s.events[s.poller.i], Apply(s, PollerProcesses);
    if e.Ready? {
      NotMistaken(s, e);
      var _ := Processed(s, e);
      assert New(s.log, t.log) == [Dereferenced(e.id), Noted(e.id, e.flags)];
      assert Noted(e.id, e.flags) in New(s.log, t.log);
    }
    if OwedThen(s, PollerProcesses, id, f, owed) && id in t.sessions && t.main != DelDrop(id) {
      var i: nat :| From(s.poller) <= i < |s.events| && Carries(s.events[i], id, f);
      assert i != s.poller.i;
      assert Carries(t.events[i], id, f);
    }
  }

  lemma ScanKeepsOwed(s: State, id: Id, f: Flag, owed: bool)
    requires Inv(s) && Enabled(s, DelScans) && Kept(s, id, f, owed)
    ensures Kept(Apply(s, DelScans), id, f, owed)
  {
    var t := Apply(s, DelScans);
    if owed && id in t.sessions && t.main != DelDrop(id) {
      var i: nat :| From(s.poller) <= i < |s.events| && Carries(s.events[i], id, f);
      assert Carries(t.events[i], id, f);
    }
  }

  /** Steps that leave the unprocessed events and the living sessions as they are, or add a session. */
  lemma OthersKeepOwed(s: State, step: Step, id: Id, f: Flag, owed: bool)
    requires Inv(s) && Enabled(s, step) && Kept(s, id, f, owed)
    requires !step.EpollReturns? && !step.PollerProcesses? && !step.DelScans?
    ensures Kept(Apply(s, step), id, f, owed)
  {
    var t := Apply(s, step);
    match step {
      case WrapperUnderLock => Wrapped(s, s.main.id);
      case DelDrops => Dropped(s, s.main.id);
      case _ =>
    }
    if owed && id in t.sessions && t.main != DelDrop(id) {
      var i: nat :| From(s.poller) <= i < |s.events| && Carries(s.events[i], id, f);
      assert Carries(t.events[i], id, f);
    }
  }

  lemma StepKeepsOwed(s: State, step: Step, id: Id, f: Flag, owed: bool)
    requires Alive(s) && Enabled(s, step) && Kept(s, id, f, owed)
    ensures Kept(Apply(s, step), id, f, OwedThen(s, step, id, f, owed))
  {
    match step {
      case EpollReturns(_) => ReturnsKeep(s, step, id, f, owed);
      case PollerProcesses => ProcessKeepsOwed(s, id, f, owed);
      case DelScans => ScanKeepsOwed(s, id, f, owed);
      case _ => OthersKeepOwed(s, step, id, f, owed);
    }
  }

  /** Taking something for the wake-up event reads the pipe, and empties it unless it was rung over 1024 times. */
  lemma PipeIsRead(s: State)
    requires Inv(s) && Enabled(s, PollerProcesses)
    ensures var t := Apply(s, PollerProcesses);
            if LooksLikeWake(s, s.events[s.poller.i]) then t.pipe < s.pipe && (s.pipe <= 1024 ==> t.pipe == 0)
            else t.pipe == s.pipe
  {
    var e := s.events[s.poller.i];
    if e.Ready? && !LooksLikeWake(s, e) { var _ := Processed(s, e); }
  }

  lemma {:induction false} RunKeepsOwed(s: State, steps: seq<Step>, id: Id, f: Flag, owed: bool)
    requires Alive(s) && Run(s, steps).Some? && Kept(s, id, f, owed)
    ensures Kept(Run(s, steps).value, id, f, Owed(s, steps, id, f, owed))
    decreases |steps|
  {
    if steps != [] {
      StepKeepsOwed(s, steps[0], id, f, owed);
      StaysAlive(s, steps[0]);
      RunKeepsOwed(Apply(s, steps[0]), steps[1..], id, f, OwedThen(s, steps[0], id, f, owed));
    }
  }

  /**
    Whenever the poll thread is not between epoll and the end of dispatch, every flag that epoll has reported of a
    session which is neither gone nor going was taken up; what no callback has been given yet will be, since one is
    scheduled.
   */
  lemma NothingDropped(wakeFd: int, steps: seq<Step>, z: State, id: Id, f: Flag)
    requires wakeFd != 2 && wakeFd != 3 && Run(Init(wakeFd), steps) == Some(z)
    requires z.poller.WantInterrupt? || z.poller.InEpollWait?
    requires id in Live(z.log) && z.main != DelDrop(id)
    ensures !Owed(Init(wakeFd), steps, id, f, false)
    ensures id in z.sessions && (Outstanding(z.log, id) != {} && z.main != AddRef(id) ==> z.sessions[id].source)
  {
    RunStaysAlive(Init(wakeFd), steps);
    RunKeepsOwed(Init(wakeFd), steps, id, f, false);
    assert Reachable(wakeFd, z);
    if z.main != AddRef(id) { ReferenceCount(wakeFd, z, id); }
  }
}
