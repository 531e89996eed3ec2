/**
  What must happen in the two-endpoint world, not only what may: every call is sent or refused, every request that
  arrives is handed on, every answer is sent, and every response or error that arrives for an open call ends it.
 */
module JsonRpcProgress {
  import opened Prelude
  import opened JsonRpc
  import opened JsonRpcPair

  /** The entry of every open call is still in the table. */
  ghost predicate Waiting(t: Table, side: Side, log: seq<Event>) {
    forall e :: e in log && e.side == side && e.effect.Requested? && Open(log, e.effect.call) ==>
      e.effect.id in t.entries
  }

  ghost predicate Kept(w: World) {
    Inv(w) && Waiting(w.left, Left, w.log) && Waiting(w.right, Right, w.log)
  }

  lemma OpenBefore(log: seq<Event>, more: seq<Event>, call: Call)
    requires Open(log + more, call)
    ensures Open(log, call)
  {
  }

  /** Nothing that an endpoint does but issuing a call gives its peer or itself more to wait for. */
  lemma WaitingStays(t: Table, side: Side, log: seq<Event>, more: seq<Event>)
    requires Waiting(t, side, log) && forall e :: e in more && e.side == side ==> !e.effect.Requested?
    ensures Waiting(t, side, log + more)
  {
    forall e | e in log + more && e.side == side && e.effect.Requested? && Open(log + more, e.effect.call)
      ensures e.effect.id in t.entries
    {
      OpenBefore(log, more, e.effect.call);
    }
  }

  lemma WaitingGrows(t: Table, u: Table, side: Side, log: seq<Event>, e: Invocation, x: Effect)
    requires Holds(t, u, side, log) && Waiting(t, side, log) && t.counter + 1 < TWO32 && Takes(x)
    requires x.id == Register(t, e).counter
    ensures Waiting(Register(t, e), side, log + [Event(side, x)])
  {
    forall d | d in log + [Event(side, x)] && d.side == side && d.effect.Requested?
               && Open(log + [Event(side, x)], d.effect.call)
      ensures d.effect.id in Register(t, e).entries
    {
      OpenBefore(log, [Event(side, x)], d.effect.call);
    }
  }

  /** Removing the entry k is right when no open call has it. */
  lemma WaitingShrinks(t: Table, side: Side, log: seq<Event>, k: nat)
    requires Waiting(t, side, log)
    requires forall e :: e in log && e.side == side && e.effect.Requested? && e.effect.id == k ==>
               !Open(log, e.effect.call)
    ensures Waiting(t.(entries := t.entries - {k}), side, log)
  {
  }

  /** An entry is for one invocation. */
  lemma OneInvocation(t: Table, u: Table, side: Side, log: seq<Event>, k: nat, e: Event)
    requires Holds(t, u, side, log) && k in t.entries
    requires e in log && e.side == side && e.effect.Requested? && e.effect.id == k
    ensures t.entries[k].Outgoing? && t.entries[k].call == e.effect.call && Open(log, e.effect.call)
  {
    var x := t.entries[k];
    assert EntryOk(log, side, k, x);
    if x.Outgoing? {
      assert SameId(e, Event(side, Requested(x.call, k)));
    } else {
      assert SameId(e, Event(side, Invoked(x.call, k)));
    }
  }

  lemma CompleteWaits(t: Table, u: Table, side: Side, log: seq<Event>, k: nat, o: Outcome)
    requires Holds(t, u, side, log) && Waiting(t, side, log) && k in t.entries && t.entries[k].Outgoing?
    ensures Waiting(t.(entries := t.entries - {k}), side, log + [Event(side, Completed(t.entries[k].call, o))])
  {
    var done := Event(side, Completed(t.entries[k].call, o));
    var more := log + [done];
    WaitingStays(t, side, log, [done]);
    assert done in more;
    forall e | e in more && e.side == side && e.effect.Requested? && e.effect.id == k
      ensures !Open(more, e.effect.call)
    {
      OneInvocation(t, u, side, log, k, e);
    }
    WaitingShrinks(t, side, more, k);
  }

  lemma NotRequested(t: Table, u: Table, side: Side, log: seq<Event>, k: nat)
    requires Holds(t, u, side, log) && k in t.entries && t.entries[k].Incoming?
    ensures forall e :: e in log && e.side == side && e.effect.Requested? ==> e.effect.id != k
  {
    var own := Event(side, Invoked(t.entries[k].call, k));
    assert EntryOk(log, side, k, t.entries[k]);
    forall e | e in log && e.side == side && e.effect.Requested?
      ensures e.effect.id != k
    {
      assert SameId(own, e) ==> own == e;
    }
  }

  lemma IncomingWaits(t: Table, u: Table, side: Side, log: seq<Event>, k: nat, more: seq<Event>)
    requires Holds(t, u, side, log) && Waiting(t, side, log) && k in t.entries && t.entries[k].Incoming?
    requires forall e :: e in more && e.side == side ==> !e.effect.Requested?
    ensures Waiting(t.(entries := t.entries - {k}), side, log + more)
  {
    NotRequested(t, u, side, log, k);
    WaitingShrinks(t, side, log, k);
    WaitingStays(t.(entries := t.entries - {k}), side, log, more);
  }

  // ---- what each operation must do

  /** The call, if any, that an error report for this id ends. */
  ghost predicate OpenUnder(log: seq<Event>, side: Side, id: nat, call: Call) {
    Event(side, Requested(call, id)) in log && Open(log, call)
  }

  lemma OpenIsEntered(t: Table, u: Table, side: Side, log: seq<Event>, id: nat, call: Call)
    requires Holds(t, u, side, log) && Waiting(t, side, log) && OpenUnder(log, side, id, call)
    ensures id in t.entries && t.entries[id].Outgoing? && t.entries[id].call == call
  {
    OneInvocation(t, u, side, log, id, Event(side, Requested(call, id)));
  }

  lemma ErrorEnds(t: Table, u: Table, side: Side, log: seq<Event>, id: nat)
    requires Holds(t, u, side, log) && Waiting(t, side, log)
    ensures var r := TransportError(t, id);
            && Waiting(r.0, side, log + Tagged(side, r.1))
            && (forall call :: OpenUnder(log, side, id, call) ==> r.1 == [Completed(call, TransportFailed)])
            && ((forall call :: !OpenUnder(log, side, id, call)) ==> r.1 == [])
  {
    var r := TransportError(t, id);
    if id in t.entries {
      if t.entries[id].Outgoing? {
        assert EntryOk(log, side, id, t.entries[id]);
        assert OpenUnder(log, side, id, t.entries[id].call);
        CompleteWaits(t, u, side, log, id, TransportFailed);
        TaggedOne(side, r.1[0]);
      } else {
        IncomingWaits(t, u, side, log, id, Tagged(side, r.1));
      }
    } else {
      assert log + Tagged(side, r.1) == log;
    }
    forall call | OpenUnder(log, side, id, call)
      ensures r.1 == [Completed(call, TransportFailed)]
    {
      OpenIsEntered(t, u, side, log, id, call);
    }
  }

  lemma ResponseEnds(t: Table, u: Table, side: Side, log: seq<Event>, id: nat, call: Call, p: Payload)
    requires Holds(t, u, side, log) && Waiting(t, side, log) && Event(Other(side), Answered(call, id, p)) in log
    ensures var r := Receive(t, Response(id, call, p), true);
            && Waiting(r.0, side, log + Tagged(side, r.1))
            && (if Open(log, call) then exists o :: Tells(o, p) && r.1 == [Completed(call, o)] else r.1 == [])
  {
    var r := Receive(t, Response(id, call, p), true);
    var asked := Event(side, Requested(call, id));
    assert asked in log;
    if id in t.entries {
      ResponseFinds(t, u, side, log, id, call, p);
      assert EntryOk(log, side, id, t.entries[id]);
      OutcomeTells(p);
      CompleteWaits(t, u, side, log, id, OutcomeOf(p));
      TaggedOne(side, r.1[0]);
    } else {
      assert log + Tagged(side, r.1) == log;
    }
  }

  lemma RespondSends(t: Table, u: Table, side: Side, log: seq<Event>, id: nat, p: Payload, fails: bool, call: Call)
    requires Holds(t, u, side, log) && Waiting(t, side, log) && Event(side, Invoked(call, id)) in log
    ensures var r := Respond(t, id, p, fails);
            && Waiting(r.0, side, log + Tagged(side, r.1))
            && (if id in t.entries && t.entries[id].context
                then exists x :: Event(Other(side), Requested(call, x)) in log && r.1 == [Answered(call, x, p)]
                else r.1 == [])
  {
    var r := Respond(t, id, p, fails);
    if id in t.entries && t.entries[id].context {
      HandedIsIncoming(t, u, side, log, id, call);
      assert EntryOk(log, side, id, t.entries[id]);
      assert SameId(Event(side, Invoked(call, id)), Event(side, Invoked(t.entries[id].call, id)));
      TaggedOne(side, Answer(t.entries[id], p));
      assert r.1 == [Answer(t.entries[id], p)];
      IncomingWaits(t, u, side, log, id, Tagged(side, r.1));
    } else {
      assert log + Tagged(side, r.1) == log;
    }
  }

  /** A request is written; a failure to write it ends the call. */
  function Sent(call: Call, id: nat, fails: bool): seq<Effect> {
    if fails then [Requested(call, id), Completed(call, TransportFailed)] else [Requested(call, id)]
  }

  lemma IssueSends(t: Table, u: Table, side: Side, log: seq<Event>, transport: bool, context: bool, fails: bool)
    requires Holds(t, u, side, log) && Waiting(t, side, log) && t.counter + 1 < TWO32
    ensures var r := Issue(t, |log|, transport, context, fails);
            && Waiting(r.0, side, log + Tagged(side, r.1))
            && (if !transport then r.1 == [Refused(|log|)]
                else exists id :: r.1 == Sent(|log|, id, fails))
  {
    var r := Issue(t, |log|, transport, context, fails);
    if !transport {
      TaggedOne(side, Refused(|log|));
      WaitingStays(t, side, log, Tagged(side, r.1));
    } else {
      var n := Register(t, Outgoing(context, |log|));
      var e := Requested(|log|, n.counter);
      WaitingGrows(t, u, side, log, Outgoing(context, |log|), e);
      Issued(t, |log|, context, fails);
      assert r.1 == Sent(|log|, n.counter, fails);
      IssueKeeps(t, u, side, log, context);
      if fails {
        CompleteWaits(n, u, side, log + [Event(side, e)], n.counter, TransportFailed);
        assert log + Tagged(side, r.1) == log + [Event(side, e)] + [Event(side, r.1[1])];
      } else {
        TaggedOne(side, e);
      }
    }
  }

  // ---- whole runs

  lemma StepWaits(w: World, step: Step)
    requires Kept(w) && Enabled(w, step)
    ensures Kept(Apply(w, step))
  {
    StepKeeps(w, step);
    var side := step.side;
    var t, u := At(w, side), At(w, Other(side));
    assert Holds(t, u, side, w.log);
    var r := Effects(w, step);
    OwnWaits(w, step, t, u);
    WaitingStays(u, Other(side), w.log, Tagged(side, r.1));
  }

  lemma OwnWaits(w: World, step: Step, t: Table, u: Table)
    requires Kept(w) && Enabled(w, step) && t == At(w, step.side) && u == At(w, Other(step.side))
    requires Holds(t, u, step.side, w.log)
    ensures var r := Effects(w, step); Waiting(r.0, step.side, w.log + Tagged(step.side, r.1))
  {
    var side := step.side;
    match step {
      case Calls(_, transport, context, fails) => IssueSends(t, u, side, w.log, transport, context, fails);
      case Receives(_, Request(id, call), context) =>
        var e := Invoked(call, t.counter + 1);
        WaitingGrows(t, u, side, w.log, Incoming(id, context, call), e);
        TaggedOne(side, e);
      case Receives(_, Response(id, call, payload), _) => ResponseEnds(t, u, side, w.log, id, call, payload);
      case Responds(_, id, payload, fails) =>
        var call :| Event(side, Invoked(call, id)) in w.log;
        RespondSends(t, u, side, w.log, id, payload, fails, call);
      case ReportsError(_, id) => ErrorEnds(t, u, side, w.log, id);
    }
  }

  lemma {:induction false} RunWaits(w: World, steps: seq<Step>, z: World)
    requires Kept(w) && Run(w, steps, z)
    ensures Kept(z)
    decreases |steps|
  {
    if steps != [] {
      StepWaits(w, steps[0]);
      RunWaits(Apply(w, steps[0]), steps[1..], z);
    }
  }

  /** What a step must do, said without the operations. */
  ghost predicate Does(w: World, step: Step, done: seq<Effect>) {
    var side, c := step.side, |w.log|;
    match step {
      // a call is refused for want of a transport, or its request is written
      case Calls(_, transport, _, fails) =>
        if !transport then done == [Refused(c)] else exists id :: done == Sent(c, id, fails)
      // a request that arrives is handed on
      case Receives(_, Request(_, call), _) => exists id :: done == [Invoked(call, id)]
      // a response that arrives for an open call ends it with what it says, and for another call does nothing
      case Receives(_, Response(_, call, p), _) =>
        if Open(w.log, call) then exists o :: Tells(o, p) && done == [Completed(call, o)] else done == []
      // an answer is sent as given, under the caller's id, while the invocation is there and has a context
      case Responds(_, id, p, _) =>
        if id in At(w, side).entries && At(w, side).entries[id].context
        then exists call, x :: Answers(w.log, side, id, call, x) && done == [Answered(call, x, p)]
        else done == []
      // an error report ends the open call with that id
      case ReportsError(_, id) =>
        && (forall call :: OpenUnder(w.log, side, id, call) ==> done == [Completed(call, TransportFailed)])
        && ((forall call :: !OpenUnder(w.log, side, id, call)) ==> done == [])
    }
  }

  /** The invocation handed out as id is the peer's call, which the peer knows as x. */
  ghost predicate Answers(log: seq<Event>, side: Side, id: nat, call: Call, x: nat) {
    Event(side, Invoked(call, id)) in log && Event(Other(side), Requested(call, x)) in log
  }

  lemma StepDoes(w: World, step: Step)
    requires Kept(w) && Enabled(w, step)
    ensures Does(w, step, Effects(w, step).1)
    ensures Apply(w, step).log == w.log + Tagged(step.side, Effects(w, step).1)
  {
    var side := step.side;
    var t, u := At(w, side), At(w, Other(side));
    assert Holds(t, u, side, w.log);
    match step {
      case Calls(_, transport, context, fails) => IssueSends(t, u, side, w.log, transport, context, fails);
      case Receives(_, Request(id, call), context) =>
        assert Effects(w, step).1 == [Invoked(call, Register(t, Incoming(id, context, call)).counter)];
      case Receives(_, Response(id, call, payload), _) => ResponseEnds(t, u, side, w.log, id, call, payload);
      case Responds(_, id, payload, fails) =>
        var call :| Event(side, Invoked(call, id)) in w.log;
        RespondSends(t, u, side, w.log, id, payload, fails, call);
        if id in t.entries && t.entries[id].context {
          var x :| Event(Other(side), Requested(call, x)) in w.log
                   && Effects(w, step).1 == [Answered(call, x, payload)];
          assert Answers(w.log, side, id, call, x);
        }
      case ReportsError(_, id) => ErrorEnds(t, u, side, w.log, id);
    }
  }

  /** In every run every step does what it must: nothing that arrives, is answered or fails is dropped. */
  lemma EveryStepDoes(steps: seq<Step>, z: World, step: Step)
    requires Run(START, steps, z) && Enabled(z, step)
    ensures exists done :: Does(z, step, done) && Apply(z, step).log == z.log + Tagged(step.side, done)
  {
    RunWaits(START, steps, z);
    StepDoes(z, step);
  }

  // ---- an invocation is answered once

  /** The id was taken, and its invocation is over. */
  ghost predicate Ended(w: World, side: Side, id: nat) {
    id !in At(w, side).entries && id <= At(w, side).counter
  }

  lemma EndedStays(w: World, step: Step, side: Side, id: nat)
    requires Kept(w) && Enabled(w, step) && Ended(w, side, id)
    ensures Ended(Apply(w, step), side, id)
  {
    assert Holds(At(w, side), At(w, Other(side)), side, w.log);
    if step.side == side { EndedIn(w, step, id); }
  }

  lemma EndedIn(w: World, step: Step, id: nat)
    requires Enabled(w, step) && Ended(w, step.side, id) && At(w, step.side).counter == Taken(w.log, step.side)
    ensures var t := Effects(w, step).0; id !in t.entries && id <= t.counter
  {
  }

  lemma {:induction false} RunEnded(w: World, steps: seq<Step>, z: World, side: Side, id: nat)
    requires Kept(w) && Run(w, steps, z) && Ended(w, side, id)
    ensures Kept(z) && Ended(z, side, id)
    decreases |steps|
  {
    if steps != [] {
      StepWaits(w, steps[0]);
      EndedStays(w, steps[0], side, id);
      RunEnded(Apply(w, steps[0]), steps[1..], z, side, id);
    }
  }

  /** It sends the answer to the invocation handed out as id, or reports that this failed. */
  ghost predicate Finishes(w: World, step: Step, side: Side, id: nat) {
    match step {
      case Responds(_, i, _, _) =>
        step.side == side && i == id && Effects(w, step).1 != []
      case ReportsError(_, i) => step.side == side && i == id
      case _ => false
    }
  }

  lemma FinishEnds(w: World, step: Step, side: Side, id: nat, call: Call)
    requires Kept(w) && Enabled(w, step) && Finishes(w, step, side, id) && Event(side, Invoked(call, id)) in w.log
    ensures Ended(Apply(w, step), side, id)
  {
    assert Holds(At(w, side), At(w, Other(side)), side, w.log);
    assert Takes(Event(side, Invoked(call, id)).effect);
  }

  /** An invocation that was answered, or failed, is never answered again. */
  lemma AnsweredOnce(steps: seq<Step>, w: World, step: Step, more: seq<Step>, z: World, side: Side, id: nat, call: Call,
                     p: Payload, fails: bool)
    requires Run(START, steps, w) && Enabled(w, step) && Run(Apply(w, step), more, z)
    requires Event(side, Invoked(call, id)) in w.log && Finishes(w, step, side, id)
    ensures Effects(z, Responds(side, id, p, fails)).1 == []
  {
    RunWaits(START, steps, w);
    FinishEnds(w, step, side, id, call);
    StepWaits(w, step);
    RunEnded(Apply(w, step), more, z, side, id);
  }
}
