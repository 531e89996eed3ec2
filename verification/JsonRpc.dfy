/** The invocations of a JSON-RPC 1.0 endpoint (evd/evd-jsonrpc.c): one table and one counter for both directions. */
module JsonRpc {
  import opened Prelude

  /** Identifies an outgoing call to its caller (the asynchronous result). */
  type Call = nat

  /** The members "result" and "error" of a response; None is the JSON null. */
  datatype Payload = Payload(result: Option<string>, error: Option<string>)

  /** What is written to a peer.  An endpoint looks only at the id; the rest of a request is the call's business. */
  datatype Message = Request(id: nat, call: Call) | Response(id: nat, call: Call, payload: Payload)

  /** How an outgoing call ends. */
  datatype Outcome = TransportFailed | ProtocolError | Returned(value: string) | Raised(error: Option<string>)

  /** An entry of the table: a call waiting for its response, or a peer's call waiting for ours. */
  datatype Invocation = Outgoing(context: bool, call: Call) | Incoming(remoteId: nat, context: bool, call: Call)

  datatype Table = Table(counter: nat, entries: map<nat, Invocation>)

  /** What an endpoint does to its surroundings. */
  datatype Effect =
    | Requested(call: Call, id: nat)                  // a request is written
    | Refused(call: Call)                             // a call fails for want of a transport
    | Invoked(call: Call, id: nat)                    // the method-call callback runs
    | Answered(call: Call, id: nat, payload: Payload) // a response is written
    | Completed(call: Call, outcome: Outcome)         // an outgoing call ends
    | Misanswered                                     // a response without an id is written
    | Crashed                                         // a null asynchronous result is dereferenced

  function OutcomeOf(p: Payload): Outcome {
    if p.result.Some? && p.error.Some? then ProtocolError
    else if p.result.Some? then Returned(p.result.value)
    else Raised(p.error)
  }

  /** A new entry under the next value of a 32-bit counter. */
  function Register(t: Table, e: Invocation): Table {
    var id := (t.counter + 1) % TWO32;
    Table(id, t.entries[id := e])
  }

  /** What a report that a message could not be written does to the invocation it was written for. */
  function TransportError(t: Table, id: nat): (Table, seq<Effect>) {
    if id !in t.entries then (t, [])
    else
      (t.(entries := t.entries - {id}),
       if t.entries[id].Outgoing? then [Completed(t.entries[id].call, TransportFailed)] else [])
  }

  function Issue(t: Table, call: Call, transport: bool, context: bool, fails: bool): (Table, seq<Effect>) {
    if !transport then (t, [Refused(call)])
    else
      var r := Register(t, Outgoing(context, call));
      var (u, effects) := if fails then TransportError(r, r.counter) else (r, []);
      (u, [Requested(call, r.counter)] + effects)
  }

  function Receive(t: Table, m: Message, context: bool): (Table, seq<Effect>) {
    match m {
      case Request(id, call) =>
        var r := Register(t, Incoming(id, context, call));
        (r, [Invoked(call, r.counter)])
      case Response(id, call, payload) =>
        if id !in t.entries then (t, [])
        else
          (t.(entries := t.entries - {id}),
           if t.entries[id].Outgoing? then [Completed(t.entries[id].call, OutcomeOf(payload))] else [Crashed])
    }
  }

  /** Answering an invocation; the entry of an outgoing call has no remote id to answer with. */
  function Respond(t: Table, id: nat, payload: Payload, fails: bool): (Table, seq<Effect>) {
    if id == 0 || id !in t.entries || !t.entries[id].context then (t, [])
    else
      var e := t.entries[id];
      var u := t.(entries := t.entries - {id});
      var (v, effects) := if fails then TransportError(u, id) else (u, []);
      (v, [Answer(e, payload)] + effects)
  }

  function Answer(e: Invocation, payload: Payload): Effect {
    if e.Incoming? then Answered(e.call, e.remoteId, payload) else Misanswered
  }

  /** An endpoint; what it does to its surroundings is handed back to the caller of each method. */
  class Endpoint {
    var counter: nat
    var invocations: map<nat, Invocation>

    function State(): Table
      reads this
    {
      Table(counter, invocations)
    }

    constructor ()
      ensures State() == Table(0, map[])
    {
      counter, invocations := 0, map[];
    }

    method Insert(e: Invocation) returns (id: nat)
      modifies this
      ensures State() == Register(old(State()), e) && id == counter
    {
      counter := (counter + 1) % TWO32;
      id := counter;
      invocations := invocations[id := e];
    }

    /** `evd_jsonrpc_transport_error`. */
    method OnTransportError(id: nat) returns (effects: seq<Effect>)
      modifies this
      ensures (State(), effects) == TransportError(old(State()), id)
    {
      effects := [];
      if id !in invocations { return; }
      var data := invocations[id];
      if data.Outgoing? {
        effects := [Completed(data.call, TransportFailed)];
      }
      invocations := invocations - {id};
    }

    /** `evd_jsonrpc_call_method` over a transport that may be missing and may fail at once. */
    method CallMethod(call: Call, transport: bool, context: bool, fails: bool) returns (effects: seq<Effect>)
      modifies this
      ensures (State(), effects) == Issue(old(State()), call, transport, context, fails)
    {
      if !transport { return [Refused(call)]; }
      var id := Insert(Outgoing(context, call));
      effects := [Requested(call, id)];
      if fails {
        var more := OnTransportError(id);
        effects := effects + more;
      } else {
        assert effects + [] == effects;
      }
    }

    /** `evd_jsonrpc_on_method_called` and `evd_jsonrpc_on_method_result`. */
    method OnMessage(m: Message, context: bool) returns (effects: seq<Effect>)
      modifies this
      ensures (State(), effects) == Receive(old(State()), m, context)
    {
      match m {
        case Request(remoteId, call) =>
          var id := Insert(Incoming(remoteId, context, call));
          effects := [Invoked(call, id)];
        case Response(id, call, payload) =>
          if id !in invocations { return []; }
          var data := invocations[id];
          invocations := invocations - {id};
          effects := if data.Outgoing? then [Completed(data.call, OutcomeOf(payload))] else [Crashed];
      }
    }

    /** `evd_jsonrpc_respond_full`. */
    method RespondFull(id: nat, payload: Payload, fails: bool) returns (effects: seq<Effect>)
      modifies this
      ensures (State(), effects) == Respond(old(State()), id, payload, fails)
    {
      effects := [];
      if id == 0 || id !in invocations || !invocations[id].context { return; }
      var data := invocations[id];
      invocations := invocations - {id};
      effects := [Answer(data, payload)];
      if fails {
        var more := OnTransportError(id);
        effects := effects + more;
      } else {
        assert effects + [] == effects;
      }
    }
  }
}
