/**
  Two JSON-RPC endpoints calling each other over transports that lose, delay, repeat and reorder messages and
  report failures at any time: every response ends the call whose request brought it about, and once.
 */
module JsonRpcPair {
  import opened Prelude
  import opened JsonRpc

  datatype Side = Left | Right

  function Other(side: Side): Side { if side == Left then Right else Left }

  datatype Event = Event(side: Side, effect: Effect)

  datatype World = World(left: Table, right: Table, log: seq<Event>)

  const START := World(Table(0, map[]), Table(0, map[]), [])

  function At(w: World, side: Side): Table { if side == Left then w.left else w.right }

  function Tagged(side: Side, effects: seq<Effect>): (r: seq<Event>)
    ensures |r| == |effects| && forall i :: 0 <= i < |r| ==> r[i] == Event(side, effects[i])
  {
    seq(|effects|, i requires 0 <= i < |effects| => Event(side, effects[i]))
  }

  function After(w: World, side: Side, r: (Table, seq<Effect>)): World {
    var log := w.log + Tagged(side, r.1);
    if side == Left then World(r.0, w.right, log) else World(w.left, r.0, log)
  }

  /** A message can arrive at any time after the peer wrote it, any number of times. */
  predicate Deliverable(log: seq<Event>, side: Side, m: Message) {
    match m {
      case Request(id, call) => Event(Other(side), Requested(call, id)) in log
      case Response(id, call, payload) => Event(Other(side), Answered(call, id, payload)) in log
    }
  }

  /** Writing a request or accepting one takes an id. */
  predicate Takes(e: Effect) { e.Requested? || e.Invoked? }

  function Taken(log: seq<Event>, side: Side): nat {
    if log == [] then 0
    else
      var e := log[|log| - 1];
      Taken(log[..|log| - 1], side) + (if e.side == side && Takes(e.effect) then 1 else 0)
  }

  datatype Step =
    | Calls(side: Side, transport: bool, context: bool, fails: bool)
    | Receives(side: Side, m: Message, context: bool)
    | Responds(side: Side, id: nat, payload: Payload, fails: bool)
    | ReportsError(side: Side, id: nat)

  ghost predicate Enabled(w: World, step: Step) {
    match step {
      // fewer than 2^32 invocations at each endpoint
      case Calls(side, _, _, _) => Taken(w.log, side) + 1 < TWO32
      case Receives(side, m, _) => Deliverable(w.log, side, m) && (m.Request? ==> Taken(w.log, side) + 1 < TWO32)
      // an application answers only invocations it was handed, as often as it likes
      case Responds(side, id, _, _) => exists call :: Event(side, Invoked(call, id)) in w.log
      case ReportsError(side, id) => true
    }
  }

  /** What a step does to its endpoint's table and surroundings; a new call is identified by when it is made. */
  function Effects(w: World, step: Step): (Table, seq<Effect>) {
    var t := At(w, step.side);
    match step {
      case Calls(_, transport, context, fails) => Issue(t, |w.log|, transport, context, fails)
      case Receives(_, m, context) => Receive(t, m, context)
      case Responds(_, id, payload, fails) => Respond(t, id, payload, fails)
      case ReportsError(_, id) => TransportError(t, id)
    }
  }

  function Apply(w: World, step: Step): World { After(w, step.side, Effects(w, step)) }

  ghost predicate Run(w: World, steps: seq<Step>, z: World)
    decreases |steps|
  {
    if steps == [] then w == z else Enabled(w, steps[0]) && Run(Apply(w, steps[0]), steps[1..], z)
  }

  // ---- what may happen, said without the tables

  ghost predicate Unused(log: seq<Event>, side: Side, id: nat) {
    forall e :: e in log && e.side == side && Takes(e.effect) ==> e.effect.id != id
  }

  /** The call has not ended. */
  ghost predicate Open(log: seq<Event>, call: Call) {
    forall e :: e in log && (e.effect.Completed? || e.effect.Refused?) ==> e.effect.call != call
  }

  ghost predicate NewCall(log: seq<Event>, call: Call) {
    forall e :: e in log && (Takes(e.effect) || e.effect.Refused? || e.effect.Completed?) ==> e.effect.call != call
  }

  /** What an outcome tells of the two members of a response. */
  predicate Tells(o: Outcome, p: Payload) {
    match o {
      case TransportFailed => false
      case ProtocolError => p.result != None && p.error != None
      case Returned(v) => p.result == Some(v) && p.error == None
      case Raised(e) => p.result == None && p.error == e
    }
  }

  /** The peer answered this very call, and the answer is what the caller gets. */
  ghost predicate AnsweredWith(log: seq<Event>, side: Side, call: Call, outcome: Outcome) {
    exists e :: e in log && e.side == Other(side) && e.effect.Answered? && e.effect.call == call
                && Tells(outcome, e.effect.payload)
  }

  ghost predicate Lawful(past: seq<Event>, e: Event) {
    match e.effect {
      case Requested(call, id) => NewCall(past, call) && 1 <= id < TWO32 && Unused(past, e.side, id)
      case Refused(call) => NewCall(past, call)
      // a handler runs for a call the peer made, under an id of its own
      case Invoked(call, id) =>
        && (exists r :: Event(Other(e.side), Requested(call, r)) in past)
        && 1 <= id < TWO32 && Unused(past, e.side, id)
      // a response carries the id that the caller gave to the call being answered
      case Answered(call, id, _) =>
        && Event(Other(e.side), Requested(call, id)) in past
        && (exists i :: Event(e.side, Invoked(call, i)) in past)
      // a call ends once, at the endpoint that made it, and by a response only to itself
      case Completed(call, outcome) =>
        && Open(past, call)
        && (exists id :: Event(e.side, Requested(call, id)) in past)
        && (outcome == TransportFailed || AnsweredWith(past, e.side, call, outcome))
      case Misanswered => false
      case Crashed => false
    }
  }

  ghost predicate LogLawful(log: seq<Event>) { Lawfully(Lawful, log) }

  // ---- the invariant

  ghost predicate EntryOk(log: seq<Event>, side: Side, k: nat, e: Invocation) {
    match e {
      case Outgoing(_, call) => Event(side, Requested(call, k)) in log && Open(log, call)
      case Incoming(r, _, call) =>
        Event(side, Invoked(call, k)) in log && Event(Other(side), Requested(call, r)) in log
    }
  }

  ghost predicate TableOk(t: Table, side: Side, log: seq<Event>) {
    && t.counter == Taken(log, side)
    && (forall k :: k in t.entries ==> EntryOk(log, side, k, t.entries[k]))
    && (forall e :: e in log && e.side == side && Takes(e.effect) ==> 1 <= e.effect.id <= t.counter)
  }

  predicate SameId(d: Event, e: Event) {
    d.side == e.side && Takes(d.effect) && Takes(e.effect) && d.effect.id == e.effect.id
  }

  predicate SameCall(d: Event, e: Event) {
    d.effect.Requested? && e.effect.Requested? && d.effect.call == e.effect.call
  }

  /** An id belongs to one invocation, a call to one request, and a response to the request of its call. */
  ghost predicate LogOk(log: seq<Event>) {
    && (forall d, e :: d in log && e in log && SameId(d, e) ==> d == e)
    && (forall d, e :: d in log && e in log && SameCall(d, e) ==> d == e)
    && (forall e :: e in log && e.effect.Answered? ==>
          Event(Other(e.side), Requested(e.effect.call, e.effect.id)) in log)
    && (forall e :: e in log && (Takes(e.effect) || e.effect.Refused? || e.effect.Completed?) ==>
          e.effect.call < |log|)
  }

  /** One endpoint's table t, its peer's table u, and what happened so far. */
  ghost predicate Holds(t: Table, u: Table, side: Side, log: seq<Event>) {
    TableOk(t, side, log) && TableOk(u, Other(side), log) && LogOk(log) && LogLawful(log)
  }

  ghost predicate Inv(w: World) { Holds(w.left, w.right, Left, w.log) }

  lemma TakenMore(log: seq<Event>, e: Event, side: Side)
    ensures Taken(log + [e], side) == Taken(log, side) + if e.side == side && Takes(e.effect) then 1 else 0
  {
    assert (log + [e])[..|log + [e]| - 1] == log;
  }

  /** A table stays right when the log grows by something that ends none of its calls and takes none of its ids. */
  lemma TableStays(t: Table, side: Side, log: seq<Event>, e: Event)
    requires TableOk(t, side, log)
    requires e.side == side ==> !Takes(e.effect)
    requires e.effect.Completed? || e.effect.Refused? ==>
               forall k :: k in t.entries && t.entries[k].Outgoing? ==> t.entries[k].call != e.effect.call
    ensures TableOk(t, side, log + [e])
  {
    TakenMore(log, e, side);
    forall k | k in t.entries
      ensures EntryOk(log + [e], side, k, t.entries[k])
    {
      assert EntryOk(log, side, k, t.entries[k]);
    }
  }

  lemma TableShrinks(t: Table, side: Side, log: seq<Event>, id: nat)
    requires TableOk(t, side, log)
    ensures TableOk(t.(entries := t.entries - {id}), side, log)
  {
  }

  lemma TableGrows(t: Table, side: Side, log: seq<Event>, e: Invocation, effect: Effect)
    requires TableOk(t, side, log) && Takes(effect) && effect.id == t.counter + 1
    requires EntryOk(log + [Event(side, effect)], side, t.counter + 1, e)
    ensures TableOk(Table(t.counter + 1, t.entries[t.counter + 1 := e]), side, log + [Event(side, effect)])
  {
    TakenMore(log, Event(side, effect), side);
    var more := log + [Event(side, effect)];
    forall k | k in t.entries
      ensures EntryOk(more, side, k, t.entries[k])
    {
      assert EntryOk(log, side, k, t.entries[k]);
    }
  }

  lemma UnusedNext(t: Table, side: Side, log: seq<Event>)
    requires TableOk(t, side, log)
    ensures Unused(log, side, t.counter + 1)
  {
  }

  lemma LogGrows(log: seq<Event>, e: Event)
    requires LogOk(log) && Takes(e.effect) && Unused(log, e.side, e.effect.id) && e.effect.call <= |log|
    requires e.effect.Requested? ==> NewCall(log, e.effect.call)
    ensures LogOk(log + [e])
  {
  }

  lemma NewestCall(log: seq<Event>)
    requires LogOk(log)
    ensures NewCall(log, |log|)
  {
  }

  // ---- the operations keep it

  lemma IssueKeeps(t: Table, u: Table, side: Side, log: seq<Event>, context: bool)
    requires Holds(t, u, side, log) && t.counter + 1 < TWO32
    ensures var r := Register(t, Outgoing(context, |log|));
            r.counter == t.counter + 1 && Holds(r, u, side, log + [Event(side, Requested(|log|, r.counter))])
  {
    var e := Event(side, Requested(|log|, t.counter + 1));
    UnusedNext(t, side, log);
    NewestCall(log);
    LogGrows(log, e);
    Append(Lawful, log, e);
    TableStays(u, Other(side), log, e);
    TableGrows(t, side, log, Outgoing(context, |log|), e.effect);
  }

  lemma RefuseKeeps(t: Table, u: Table, side: Side, log: seq<Event>)
    requires Holds(t, u, side, log)
    ensures Holds(t, u, side, log + [Event(side, Refused(|log|))])
  {
    var e := Event(side, Refused(|log|));
    Append(Lawful, log, e);
    CallsAreOld(t, side, log);
    CallsAreOld(u, Other(side), log);
    TableStays(t, side, log, e);
    TableStays(u, Other(side), log, e);
  }

  lemma CallsAreOld(t: Table, side: Side, log: seq<Event>)
    requires TableOk(t, side, log) && LogOk(log)
    ensures forall k :: k in t.entries && t.entries[k].Outgoing? ==> t.entries[k].call < |log|
  {
    forall k | k in t.entries && t.entries[k].Outgoing?
      ensures t.entries[k].call < |log|
    {
      assert EntryOk(log, side, k, t.entries[k]);
    }
  }

  lemma AcceptKeeps(t: Table, u: Table, side: Side, log: seq<Event>, id: nat, call: Call, context: bool)
    requires Holds(t, u, side, log) && t.counter + 1 < TWO32 && Event(Other(side), Requested(call, id)) in log
    ensures var r := Register(t, Incoming(id, context, call));
            r.counter == t.counter + 1 && Holds(r, u, side, log + [Event(side, Invoked(call, r.counter))])
  {
    var e := Event(side, Invoked(call, t.counter + 1));
    UnusedNext(t, side, log);
    LogGrows(log, e);
    Append(Lawful, log, e);
    TableStays(u, Other(side), log, e);
    TableGrows(t, side, log, Incoming(id, context, call), e.effect);
  }

  /** Ending a call: no other entry of either table is for it. */
  lemma CompleteKeeps(t: Table, u: Table, side: Side, log: seq<Event>, k: nat, outcome: Outcome)
    requires Holds(t, u, side, log) && k in t.entries && t.entries[k].Outgoing?
    requires outcome == TransportFailed || AnsweredWith(log, side, t.entries[k].call, outcome)
    ensures Holds(t.(entries := t.entries - {k}), u, side, log + [Event(side, Completed(t.entries[k].call, outcome))])
  {
    var call := t.entries[k].call;
    var e := Event(side, Completed(call, outcome));
    assert EntryOk(log, side, k, t.entries[k]);
    Append(Lawful, log, e);
    TableShrinks(t, side, log, k);
    OnlyEntry(t, side, log, side, k, call);
    OnlyEntry(u, Other(side), log, side, k, call);
    TableStays(t.(entries := t.entries - {k}), side, log, e);
    TableStays(u, Other(side), log, e);
  }

  lemma OnlyEntry(t: Table, at: Side, log: seq<Event>, side: Side, k: nat, call: Call)
    requires TableOk(t, at, log) && LogOk(log) && Event(side, Requested(call, k)) in log
    ensures forall j :: j in t.entries && t.entries[j].Outgoing? && t.entries[j].call == call ==> at == side && j == k
  {
    forall j | j in t.entries && t.entries[j].Outgoing? && t.entries[j].call == call
      ensures at == side && j == k
    {
      assert EntryOk(log, at, j, t.entries[j]);
      assert SameCall(Event(side, Requested(call, k)), Event(at, Requested(call, j)));
    }
  }

  lemma TransportErrorKeeps(t: Table, u: Table, side: Side, log: seq<Event>, id: nat)
    requires Holds(t, u, side, log)
    ensures var r := TransportError(t, id); Holds(r.0, u, side, log + Tagged(side, r.1))
  {
    var r := TransportError(t, id);
    if id in t.entries && t.entries[id].Outgoing? {
      CompleteKeeps(t, u, side, log, id, TransportFailed);
      assert Tagged(side, r.1) == [Event(side, r.1[0])];
    } else {
      TableShrinks(t, side, log, id);
      assert log + Tagged(side, r.1) == log;
    }
  }

  /** A response finds the call whose request it answers, or nothing: never an incoming call's entry. */
  lemma ResponseFinds(t: Table, u: Table, side: Side, log: seq<Event>, id: nat, call: Call, payload: Payload)
    requires Holds(t, u, side, log) && Event(Other(side), Answered(call, id, payload)) in log && id in t.entries
    ensures t.entries[id].Outgoing? && t.entries[id].call == call
  {
    var asked := Event(side, Requested(call, id));
    assert asked in log;
    assert EntryOk(log, side, id, t.entries[id]);
    if t.entries[id].Outgoing? {
      assert SameId(asked, Event(side, Requested(t.entries[id].call, id)));
    } else {
      assert SameId(asked, Event(side, Invoked(t.entries[id].call, id)));
    }
  }

  lemma OutcomeTells(p: Payload)
    ensures Tells(OutcomeOf(p), p)
  {
  }

  lemma ResultKeeps(t: Table, u: Table, side: Side, log: seq<Event>, id: nat, call: Call, payload: Payload)
    requires Holds(t, u, side, log) && Event(Other(side), Answered(call, id, payload)) in log
    ensures var r := Receive(t, Response(id, call, payload), true); Holds(r.0, u, side, log + Tagged(side, r.1))
  {
    var r := Receive(t, Response(id, call, payload), true);
    if id in t.entries {
      ResponseFinds(t, u, side, log, id, call, payload);
      OutcomeTells(payload);
      assert AnsweredWith(log, side, call, OutcomeOf(payload));
      CompleteKeeps(t, u, side, log, id, OutcomeOf(payload));
      assert Tagged(side, r.1) == [Event(side, r.1[0])];
    } else {
      assert log + Tagged(side, r.1) == log;
    }
  }

  lemma AnswerKeeps(t: Table, u: Table, side: Side, log: seq<Event>, id: nat, payload: Payload)
    requires Holds(t, u, side, log) && id in t.entries && t.entries[id].Incoming?
    ensures Holds(t.(entries := t.entries - {id}), u, side, log + [Event(side, Answer(t.entries[id], payload))])
  {
    var x := t.entries[id];
    var e := Event(side, Answered(x.call, x.remoteId, payload));
    assert EntryOk(log, side, id, x);
    Append(Lawful, log, e);
    TableShrinks(t, side, log, id);
    TableStays(t.(entries := t.entries - {id}), side, log, e);
    TableStays(u, Other(side), log, e);
  }

  /** An id that was handed to a callback never names an outgoing call. */
  lemma HandedIsIncoming(t: Table, u: Table, side: Side, log: seq<Event>, id: nat, call: Call)
    requires Holds(t, u, side, log) && Event(side, Invoked(call, id)) in log && id in t.entries
    ensures t.entries[id].Incoming?
  {
    assert EntryOk(log, side, id, t.entries[id]);
    if t.entries[id].Outgoing? {
      assert SameId(Event(side, Invoked(call, id)), Event(side, Requested(t.entries[id].call, id)));
    }
  }

  lemma RespondKeeps(t: Table, u: Table, side: Side, log: seq<Event>, id: nat, payload: Payload, fails: bool,
                     call: Call)
    requires Holds(t, u, side, log) && Event(side, Invoked(call, id)) in log
    ensures var r := Respond(t, id, payload, fails); Holds(r.0, u, side, log + Tagged(side, r.1))
  {
    var r := Respond(t, id, payload, fails);
    if id == 0 || id !in t.entries || !t.entries[id].context {
      assert log + Tagged(side, r.1) == log;
    } else {
      HandedIsIncoming(t, u, side, log, id, call);
      AnswerKeeps(t, u, side, log, id, payload);
      assert Tagged(side, r.1) == [Event(side, Answer(t.entries[id], payload))];
    }
  }

  lemma TaggedOne(side: Side, e: Effect)
    ensures Tagged(side, [e]) == [Event(side, e)]
  {
  }

  /** What a call over a transport does, with and without a failure at once. */
  lemma Issued(t: Table, call: Call, context: bool, fails: bool)
    ensures var n := Register(t, Outgoing(context, call));
            var e := Requested(call, n.counter);
            Issue(t, call, true, context, fails) ==
              if fails then (TransportError(n, n.counter).0, [e] + TransportError(n, n.counter).1) else (n, [e])
  {
    var n := Register(t, Outgoing(context, call));
    assert [Requested(call, n.counter)] + [] == [Requested(call, n.counter)];
  }

  lemma CallKeeps(t: Table, u: Table, side: Side, log: seq<Event>, transport: bool, context: bool, fails: bool)
    requires Holds(t, u, side, log) && t.counter + 1 < TWO32
    ensures var r := Issue(t, |log|, transport, context, fails); Holds(r.0, u, side, log + Tagged(side, r.1))
  {
    if !transport {
      RefuseKeeps(t, u, side, log);
      TaggedOne(side, Refused(|log|));
    } else {
      SentKeeps(t, u, side, log, context, fails);
    }
  }

  lemma SentKeeps(t: Table, u: Table, side: Side, log: seq<Event>, context: bool, fails: bool)
    requires Holds(t, u, side, log) && t.counter + 1 < TWO32
    ensures var r := Issue(t, |log|, true, context, fails); Holds(r.0, u, side, log + Tagged(side, r.1))
  {
    var n := Register(t, Outgoing(context, |log|));
    var e := Event(side, Requested(|log|, n.counter));
    IssueKeeps(t, u, side, log, context);
    Issued(t, |log|, context, fails);
    if fails {
      FailKeeps(n, u, side, log, e, n.counter);
    } else {
      TaggedOne(side, e.effect);
    }
  }

  /** A request whose writing fails at once: the two effects one after the other. */
  lemma FailKeeps(t: Table, u: Table, side: Side, log: seq<Event>, e: Event, id: nat)
    requires Holds(t, u, side, log + [e]) && e.side == side
    ensures var r := TransportError(t, id); Holds(r.0, u, side, log + Tagged(side, [e.effect] + r.1))
  {
    var r := TransportError(t, id);
    TransportErrorKeeps(t, u, side, log + [e], id);
    assert log + Tagged(side, [e.effect] + r.1) == log + [e] + Tagged(side, r.1);
  }

  // ---- whole runs

  lemma StepKeeps(w: World, step: Step)
    requires Inv(w) && Enabled(w, step)
    ensures Inv(Apply(w, step))
  {
    var side := step.side;
    var t, u := At(w, side), At(w, Other(side));
    assert Holds(t, u, side, w.log);
    match step {
      case Calls(_, transport, context, fails) => CallKeeps(t, u, side, w.log, transport, context, fails);
      case Receives(_, Request(id, call), context) =>
        AcceptKeeps(t, u, side, w.log, id, call, context);
        var r := Receive(t, step.m, context);
        assert Tagged(side, r.1) == [Event(side, r.1[0])];
      case Receives(_, Response(id, call, payload), _) => ResultKeeps(t, u, side, w.log, id, call, payload);
      case Responds(_, id, payload, fails) =>
        var call :| Event(side, Invoked(call, id)) in w.log;
        RespondKeeps(t, u, side, w.log, id, payload, fails, call);
      case ReportsError(_, id) => TransportErrorKeeps(t, u, side, w.log, id);
    }
  }

  lemma {:induction false} RunKeeps(w: World, steps: seq<Step>, z: World)
    requires Inv(w) && Run(w, steps, z)
    ensures Inv(z)
    decreases |steps|
  {
    if steps != [] {
      StepKeeps(w, steps[0]);
      RunKeeps(Apply(w, steps[0]), steps[1..], z);
    }
  }

  /** In every run, whatever happens is lawful. */
  lemma Correlation(steps: seq<Step>, z: World)
    requires Run(START, steps, z)
    ensures LogLawful(z.log)
  {
    RunKeeps(START, steps, z);
  }

  /** In particular a call completes at most once. */
  lemma CompletesOnce(steps: seq<Step>, z: World, i: nat, j: nat)
    requires Run(START, steps, z) && i < |z.log| && j < |z.log|
    requires z.log[i].effect.Completed? && z.log[j].effect.Completed? && z.log[i].effect.call == z.log[j].effect.call
    ensures i == j
  {
    Correlation(steps, z);
    var a, b := Min(i, j), Max(i, j);
    assert Lawful(z.log[..b], z.log[b]);
    Past(z.log, b);
    assert z.log[a].effect.Completed?;
  }
}
