/** An output stream with a buffer (evd/evd-buffered-output-stream.c) over a base stream that writes what it likes. */
module BufferedOutput {
  import opened Prelude

  /** The asynchronous operation in progress; a flush remembers how much had been accepted when it was asked for. */
  datatype Pending = Nothing | Writing | Flushing(mark: nat)

  /** What the base stream makes of a write: it takes a part, or fails. */
  datatype BaseResult = Wrote(n: nat) | WouldBlock | Failed

  /** How an asynchronous flush ended. */
  datatype Ended = NotYet | Succeeded(mark: nat) | Broken | Aborted

  /** How much of so many bytes a buffer with this room takes. */
  function Fits(grow: bool, room: int, n: nat): int { if grow then n else Min(n, room) }

  /**
    What a write tells its caller, given what the base stream answered, if it was asked, and took: an error exactly
    when it failed, and else what it took and all of the rest that the room allows.
   */
  ghost predicate WriteTells(direct: bool, grow: bool, room: int, data: seq<Byte>, answers: seq<BaseResult>,
                             down: seq<Byte>, r: int)
  {
    if !direct then answers == [] && down == [] && r == Fits(grow, room, |data|)
    else
      && |answers| == 1
      && match answers[0] {
           case Failed => down == [] && r == -1
           case WouldBlock => down == [] && r == Fits(grow, room, |data|)
           case Wrote(n) => n <= |data| && down == data[..n] && r == n + Fits(grow, room, |data| - n)
         }
  }

  /** What a flush does: what the base stream takes of the buffer leaves it, and all else stays. */
  ghost predicate FlushTells(buffer: seq<Byte>, answers: seq<BaseResult>, down: seq<Byte>, left: seq<Byte>, ok: bool) {
    if buffer == [] then ok && answers == [] && down == [] && left == []
    else
      && |answers| == 1
      && match answers[0] {
           case Wrote(n) => ok && n <= |buffer| && down == buffer[..n] && left == buffer[n..]
           case _ => !ok && down == [] && left == buffer
         }
  }

  /** The buffer is flushed exactly on this condition. */
  ghost predicate Tried(on: bool, buffer: seq<Byte>, answers: seq<BaseResult>, down: seq<Byte>, left: seq<Byte>) {
    if on then exists ok :: FlushTells(buffer, answers, down, left, ok)
    else answers == [] && down == [] && left == buffer
  }

  class Stream {
    const autoGrow: bool
    var buffer: seq<Byte>
    var bufferSize: nat
    var autoFlush: bool
    var flushing: bool
    var pending: Pending

    // the base stream: a flush that it performs, and requests it turns down because one is going on
    var baseFlushing: bool
    var baseRefusals: nat

    // history: what callers were told is taken, and what the base stream took
    var accepted: seq<Byte>
    var handed: seq<Byte>
    ghost var answers: seq<BaseResult> // history: what the base stream made of each write

    /** Nothing is lost, repeated or reordered, and a flush in progress is sure to be driven on. */
    ghost predicate Valid()
      reads this
    {
      && accepted == handed + buffer
      && |buffer| <= bufferSize
      && (pending.Flushing? ==>
            && pending.mark <= |accepted|
            && (baseFlushing ==> pending.mark <= |handed|)
            && ((flushing && buffer != []) || baseFlushing || baseRefusals > 0))
    }

    /** A base flush goes on only for a flush in progress, with nothing buffered, and none was turned down. */
    ghost predicate Gated()
      reads this
    {
      baseRefusals == 0 && (baseFlushing ==> pending.Flushing? && buffer == [])
    }

    constructor (autoGrow: bool, bufferSize: nat)
      ensures Valid() && Gated() && accepted == [] && handed == [] && !baseFlushing
    {
      this.autoGrow, this.bufferSize := autoGrow, bufferSize;
      buffer, autoFlush, flushing, pending := [], true, false, Nothing;
      baseFlushing, baseRefusals := false, 0;
      accepted, handed, answers := [], [], [];
    }

    /** Any result that a base stream may give; one that is being flushed fails. */
    method RealWrite(data: seq<Byte>) returns (r: BaseResult)
      requires Valid()
      modifies this`handed, this`answers
      ensures answers == old(answers) + [r]
      ensures r.Wrote? ==> r.n <= |data| && handed == old(handed) + data[..r.n]
      ensures !r.Wrote? ==> handed == old(handed)
      ensures baseFlushing ==> r == Failed
    {
      var n: int := *;
      var blocks: bool := *;
      r := if !baseFlushing && 0 <= n <= |data| then Wrote(n)
           else if !baseFlushing && blocks then WouldBlock
           else Failed;
      if r.Wrote? { handed := handed + data[..r.n]; }
      answers := answers + [r];
    }

    /** `evd_buffered_output_stream_fill`. */
    method Fill(data: seq<Byte>) returns (n: nat)
      requires |buffer| <= bufferSize
      modifies this`buffer, this`bufferSize
      ensures n <= |data| && buffer == old(buffer) + data[..n] && |buffer| <= bufferSize
      ensures n == Fits(autoGrow, old(bufferSize) - |old(buffer)|, |data|)
      ensures bufferSize == if autoGrow then Max(old(bufferSize), |buffer|) else old(bufferSize)
    {
      n := |data|;
      if |buffer| + n > bufferSize {
        if autoGrow { bufferSize := |buffer| + n; } else { n := bufferSize - |buffer|; }
      }
      buffer := buffer + data[..n];
    }

    /** `evd_buffered_output_stream_write`: the result says how much was accepted, and nothing else was. */
    method Write(data: seq<Byte>) returns (r: int)
      requires Valid()
      modifies this`handed, this`accepted, this`buffer, this`bufferSize, this`answers
      ensures Valid() && -1 <= r <= |data|
      ensures accepted == old(accepted) + data[..Max(r, 0)] && old(handed) <= handed
      // straight to the base stream exactly when nothing is buffered and flushing is automatic
      ensures old(answers) <= answers
      ensures WriteTells(old(buffer) == [] && autoFlush, autoGrow, old(bufferSize) - |old(buffer)|, data,
                         answers[|old(answers)|..], handed[|old(handed)|..], r)
      ensures bufferSize == if autoGrow then Max(old(bufferSize), |buffer|) else old(bufferSize)
    {
      if buffer != [] || !autoFlush {
        r := Fill(data);
        accepted := accepted + data[..r];
        assert accepted == handed + buffer;
      } else {
        var w := RealWrite(data);
        match w {
          case WouldBlock =>
            r := Fill(data);
          case Failed =>
            return -1;
          case Wrote(n) =>
            r := n;
            if n < |data| {
              var m := Fill(data[n..]);
              r := n + m;
            }
        }
        accepted := accepted + data[..r];
        assert accepted == handed + buffer;
      }
    }

    /** `evd_buffered_output_stream_write_async`: what does not fit leaves the operation unfinished. */
    method WriteAsync(data: seq<Byte>) returns (r: int)
      requires Valid()
      modifies this`handed, this`accepted, this`buffer, this`bufferSize, this`answers, this`pending
      ensures Valid() && -1 <= r <= |data| && baseFlushing == old(baseFlushing)
      ensures accepted == old(accepted) + data[..Max(r, 0)] && old(handed) <= handed
      ensures old(answers) <= answers
      ensures WriteTells(old(buffer) == [] && autoFlush, autoGrow, old(bufferSize) - |old(buffer)|, data,
                         answers[|old(answers)|..], handed[|old(handed)|..], r)
      ensures pending == if 0 <= r < |data| then Writing else old(pending)
      ensures old(Gated()) && old(pending) == Nothing ==> Gated()
      ensures bufferSize == if autoGrow then Max(old(bufferSize), |buffer|) else old(bufferSize)
    {
      r := Write(data);
      if 0 <= r < |data| { pending := Writing; }
    }

    method FlushBaseStream()
      modifies this`baseFlushing, this`baseRefusals
      ensures baseFlushing && baseRefusals == old(baseRefusals) + if old(baseFlushing) then 1 else 0
    {
      if baseFlushing { baseRefusals := baseRefusals + 1; }
      baseFlushing := true;
    }

    /** `evd_buffered_output_stream_flush`: hands down a part of the buffer; failing ends what is in progress. */
    method Flush() returns (ok: bool, ended: Ended)
      requires Valid()
      modifies this`buffer, this`handed, this`answers, this`pending, this`flushing, this`baseFlushing, this`baseRefusals
      ensures Valid() && accepted == old(accepted) && old(handed) <= handed && autoFlush == old(autoFlush)
      ensures !ok ==> handed == old(handed) && pending == Nothing
      ensures ok ==> ended == NotYet && pending == old(pending)
      ensures ended.Broken? <==> !ok && old(pending) != Nothing
      ensures ended == NotYet || ended == Broken
      ensures ok && baseFlushing ==> buffer == []
      ensures old(answers) <= answers
      ensures FlushTells(old(buffer), answers[|old(answers)|..], handed[|old(handed)|..], buffer, ok)
      // emptying the buffer for a flush in progress flushes the base stream
      ensures var began := ok && old(pending).Flushing? && old(buffer) != [] && buffer == [];
              baseFlushing == (old(baseFlushing) || began) && flushing == (old(flushing) && !began)
      ensures old(Gated()) ==> Gated() && (old(pending) == Nothing ==> !baseFlushing)
    {
      ok, ended := true, NotYet;
      if buffer == [] { return; }
      var r := RealWrite(buffer);
      if !r.Wrote? {
        ok := false;
        if pending != Nothing {
          pending, ended := Nothing, Broken;
        }
      } else if r.n > 0 {
        ghost var before := buffer;
        buffer := buffer[r.n..];
        assert before == before[..r.n] + buffer;
        if pending.Flushing? && buffer == [] {
          flushing := false;
          FlushBaseStream();
        }
      }
    }

    /** `evd_buffered_output_stream_flush_async`; the flush it starts covers all that was accepted so far. */
    method FlushAsync() returns (ok: bool, ended: Ended)
      requires Valid()
      modifies this`buffer, this`handed, this`answers, this`pending, this`flushing, this`baseFlushing, this`baseRefusals
      ensures Valid() && accepted == old(accepted) && old(handed) <= handed
      ensures ok ==> pending == Flushing(|accepted|)
      ensures ended == NotYet || ended == Broken
      ensures old(answers) <= answers
      ensures FlushTells(old(buffer), answers[|old(answers)|..], handed[|old(handed)|..], buffer, ok)
      ensures ok ==> if buffer != [] then flushing else baseFlushing
      ensures old(Gated()) && old(pending) == Nothing ==> Gated()
      ensures !ok ==> pending == Nothing && (ended.Broken? <==> old(pending) != Nothing)
    {
      ok, ended := Flush();
      if ok {
        pending := Flushing(|accepted|);
        if buffer != [] { flushing := true; } else { FlushBaseStream(); }
      }
    }

    /**
      The base stream has ended a flush, or reports that it could not begin one.  The code asserts that the base
      stream is not busy, so it aborts when the second happens while the first is still going on.
     */
    method OnBaseStreamFlushed(refusal: bool, ok: bool) returns (ended: Ended)
      requires Valid() && (if refusal then baseRefusals > 0 && !ok else baseFlushing)
      modifies this`baseFlushing, this`baseRefusals, this`pending
      ensures Valid() && (ended == Aborted <==> refusal && old(baseFlushing))
      ensures pending == if ended == Aborted then old(pending) else Nothing
      ensures old(Gated()) ==> Gated()
      ensures ended.Succeeded? ==> accepted[..|handed|] == handed && ended.mark <= |handed|
      ensures ended != Aborted ==>
                ended == if !old(pending).Flushing? then NotYet else if ok then Succeeded(old(pending).mark) else Broken
      ensures baseFlushing == (old(baseFlushing) && refusal)
      ensures baseRefusals == old(baseRefusals) - if refusal && ended != Aborted then 1 else 0
    {
      if refusal && baseFlushing { return Aborted; }
      if refusal { baseRefusals := baseRefusals - 1; } else { baseFlushing := false; }
      ended := match pending
        case Nothing => NotYet
        case Writing => NotYet
        case Flushing(mark) => if ok then Succeeded(mark) else Broken;
      pending := Nothing;
    }

    /** `evd_buffered_output_stream_notify_write`. */
    method NotifyWrite() returns (ended: Ended)
      requires Valid()
      modifies this`buffer, this`handed, this`answers, this`pending, this`flushing, this`baseFlushing, this`baseRefusals
      ensures Valid() && accepted == old(accepted) && old(handed) <= handed
      ensures ended == NotYet || ended == Broken
      ensures autoFlush == old(autoFlush)
      // the buffer is tried exactly when a flush is in progress or flushing is automatic
      ensures old(answers) <= answers
      ensures Tried(old(flushing) || autoFlush, old(buffer), answers[|old(answers)|..], handed[|old(handed)|..], buffer)
      ensures old(Gated()) ==> Gated()
      ensures var failed := |answers| > |old(answers)| && !answers[|answers| - 1].Wrote?;
              && pending == (if failed then Nothing else old(pending))
              && (ended.Broken? <==> failed && old(pending) != Nothing)
    {
      ended := NotYet;
      if flushing || (autoFlush && buffer != []) {
        var ok, e := Flush();
        ended := e;
        assert FlushTells(old(buffer), answers[|old(answers)|..], handed[|old(handed)|..], buffer, ok);
      } else if autoFlush {
        assert FlushTells(buffer, answers[|answers|..], handed[|handed|..], buffer, true);
      }
    }

    method SetAutoFlush(on: bool) returns (ended: Ended)
      requires Valid()
      modifies this`autoFlush
      modifies this`buffer, this`handed, this`answers, this`pending, this`flushing, this`baseFlushing, this`baseRefusals
      ensures Valid() && autoFlush == on && accepted == old(accepted) && old(handed) <= handed
      ensures ended == NotYet || ended == Broken
      ensures old(answers) <= answers
      ensures Tried(on, old(buffer), answers[|old(answers)|..], handed[|old(handed)|..], buffer)
      ensures old(Gated()) ==> Gated()
      ensures var failed := |answers| > |old(answers)| && !answers[|answers| - 1].Wrote?;
              && pending == (if failed then Nothing else old(pending))
              && (ended.Broken? <==> failed && old(pending) != Nothing)
    {
      ended := NotYet;
      autoFlush := on;
      if on { ended := NotifyWrite(); }
    }

    /** A call of the stream interface that is let in. */
    method PerformPublic(op: Operation) returns (r: int, ended: Ended)
      requires Valid() && Public(op)
      modifies this
      ensures Valid() && old(handed) <= handed && accepted == old(accepted) + Told(op, r) && old(answers) <= answers
      ensures old(Gated()) && old(pending) == Nothing ==> Gated()
      ensures ended == NotYet || ended == Broken
      ensures var now, down := answers[|old(answers)|..], handed[|old(handed)|..];
              var room := old(bufferSize) - |old(buffer)|;
              if op.Write? || op.WriteAsync? then
                WriteTells(old(buffer) == [] && old(autoFlush), autoGrow, room, op.data, now, down, r)
              else FlushTells(old(buffer), now, down, buffer, r == 0)
    {
      match op {
        case Write(data) =>
          r := this.Write(data);
          ended := NotYet;
        case WriteAsync(data) =>
          r := this.WriteAsync(data);
          ended := NotYet;
        case Flush =>
          var ok, e := this.Flush();
          r, ended := if ok then 0 else -1, e;
        case FlushAsync =>
          var ok, e := this.FlushAsync();
          r, ended := if ok then 0 else -1, e;
      }
    }

    /**
      One operation; the base stream's reports come only when it owes one.  Calls through the public stream interface
      are turned down while another operation is in progress, if that gate is respected.
     */
    method Perform(op: Operation, gate: bool) returns (r: int, ended: Ended)
      requires Valid()
      modifies this
      ensures gate && old(Gated()) ==> Gated() && ended != Aborted
      ensures Valid() && old(handed) <= handed && accepted == old(accepted) + Told(op, r)
      ensures ended.Succeeded? ==> ended.mark <= |handed|
      ensures old(answers) <= answers
      ensures var refused := gate && old(pending) != Nothing && Public(op);
              var direct, room := old(buffer) == [] && old(autoFlush), old(bufferSize) - |old(buffer)|;
              var now, down := answers[|old(answers)|..], handed[|old(handed)|..];
              && (refused ==> r == -1 && now == [] && buffer == old(buffer) && pending == old(pending))
              && (!refused && (op.Write? || op.WriteAsync?) ==>
                    WriteTells(direct, autoGrow, room, op.data, now, down, r))
              && (!refused && (op.Flush? || op.FlushAsync?) ==>
                    FlushTells(old(buffer), now, down, buffer, r == 0))
              && (op.NotifyWrite? ==> Tried(old(flushing) || autoFlush, old(buffer), now, down, buffer))
              && (op.SetAutoFlush? ==> autoFlush == op.on && Tried(op.on, old(buffer), now, down, buffer))
    {
      r, ended := 0, NotYet;
      if Public(op) {
        if gate && pending != Nothing { return -1, NotYet; }
        r, ended := PerformPublic(op);
      } else {
        match op {
          case NotifyWrite => ended := this.NotifyWrite();
          case SetAutoFlush(on) => ended := this.SetAutoFlush(on);
          case BaseFlushed(ok) => if baseFlushing { ended := OnBaseStreamFlushed(false, ok); }
          case BaseRefused => if baseRefusals > 0 { ended := OnBaseStreamFlushed(true, false); }
        }
      }
    }

    /**
      Every interleaving: the bytes accepted are those the callers were told, and are those handed down followed by the
      buffer; each flush that succeeded did so when all that was accepted before it had been handed down.  With the
      gate nothing aborts.
     */
    method Run(ops: seq<Operation>, gate: bool) returns (rs: seq<int>, successes: seq<Success>, aborted: bool)
      requires Valid()
      modifies this
      ensures Valid() && accepted == handed + buffer
      ensures |rs| <= |ops| && (!aborted ==> |rs| == |ops|) && accepted == old(accepted) + AllTold(ops[..|rs|], rs)
      ensures gate && old(Gated()) ==> !aborted
      ensures forall i :: 0 <= i < |successes| ==> successes[i].accepted <= successes[i].handed <= |handed|
    {
      rs, successes, aborted := [], [], false;
      var i: nat := 0;
      while i < |ops| && !aborted
        invariant i <= |ops| && Valid() && |rs| == i && accepted == old(accepted) + AllTold(ops[..i], rs)
        invariant gate && old(Gated()) ==> Gated() && !aborted
        invariant forall j :: 0 <= j < |successes| ==> successes[j].accepted <= successes[j].handed <= |handed|
      {
        var r, ended := Perform(ops[i], gate);
        aborted := ended == Aborted;
        if ended.Succeeded? { successes := successes + [Success(ended.mark, |handed|)]; }
        AllToldMore(ops, i, rs, r);
        rs := rs + [r];
        i := i + 1;
      }
    }
  }

  /** What the result of an operation tells its caller was accepted. */
  ghost function Told(op: Operation, r: int): seq<Byte> {
    if op.Write? || op.WriteAsync? then op.data[..Min(Max(r, 0), |op.data|)] else []
  }

  ghost function AllTold(ops: seq<Operation>, rs: seq<int>): seq<Byte>
    requires |rs| == |ops|
  {
    if ops == [] then []
    else
      var n := |ops| - 1;
      AllTold(ops[..n], rs[..n]) + Told(ops[n], rs[n])
  }

  lemma AllToldMore(ops: seq<Operation>, i: nat, rs: seq<int>, r: int)
    requires i < |ops| && |rs| == i
    ensures forall s :: s + AllTold(ops[..i + 1], rs + [r]) == s + AllTold(ops[..i], rs) + Told(ops[i], r)
  {
    assert ops[..i + 1][..i] == ops[..i] && (rs + [r])[..i] == rs;
    forall s: seq<Byte> | true
      ensures s + AllTold(ops[..i + 1], rs + [r]) == s + AllTold(ops[..i], rs) + Told(ops[i], r)
    {
      Assoc(s, AllTold(ops[..i], rs), Told(ops[i], r));
    }
  }

  datatype Operation =
    | Write(data: seq<Byte>)
    | WriteAsync(data: seq<Byte>)
    | Flush
    | FlushAsync
    | NotifyWrite
    | SetAutoFlush(on: bool)
    | BaseFlushed(ok: bool)
    | BaseRefused

  /** The calls that the stream interface turns down while an operation is in progress. */
  predicate Public(op: Operation) { op.Write? || op.WriteAsync? || op.Flush? || op.FlushAsync? }

  /** A flush that succeeded: how much had been accepted when it was asked for, and handed down when it ended. */
  datatype Success = Success(accepted: nat, handed: nat)
}
