/**
  Streams that ask a list of throttles before each transfer and report to all of them after it
  (evd/evd-throttled-input-stream.c, evd/evd-throttled-output-stream.c).
 */
module ThrottledStream {
  import opened Prelude
  import opened Throttle

  /** A throttle is added to a stream only once. */
  ghost predicate Distinct(ts: seq<StreamThrottle>) {
    forall i, j :: 0 <= i < j < |ts| ==> ts[i] != ts[j]
  }

  /** The counters are right and were last brought up to date in the past. */
  ghost predicate Ready(t: Throttle, now: Time) { Sound(t) && t.now.sec <= now.sec }

  ghost predicate AllReady(ts: seq<StreamThrottle>, now: Time)
    reads ts
  {
    forall k :: 0 <= k < |ts| ==> Ready(ts[k].State(), now)
  }

  /** The first n throttles have room for a transfer of this size. */
  ghost predicate AllCover(ts: seq<StreamThrottle>, n: nat, size: nat)
    requires n <= |ts|
    reads ts
  {
    forall k :: 0 <= k < n ==> Covers(ts[k].State(), size)
  }

  ghost predicate SameTotals(ts: seq<StreamThrottle>, totals: seq<nat>)
    reads ts
  {
    |totals| == |ts| && forall k :: 0 <= k < |ts| ==> ts[k].total == totals[k]
  }

  ghost function Totals(ts: seq<StreamThrottle>): seq<nat>
    reads ts
  {
    seq(|ts|, k requires 0 <= k < |ts| reads ts => ts[k].total)
  }

  ghost predicate NoLatency(ts: seq<StreamThrottle>) {
    forall k :: 0 <= k < |ts| ==> ts[k].latency == 0
  }

  /** Each throttle has room or was last updated no later than in second s. */
  ghost predicate Carried(ts: seq<StreamThrottle>, s: int)
    reads ts
  {
    forall k :: 0 <= k < |ts| ==> Open(ts[k].State()) || ts[k].currentTime.sec <= s
  }

  /** From the given moment on, the throttle allows a transfer. */
  ghost predicate GrantsFrom(t: Throttle, micros: int) {
    forall now, size: nat :: micros <= Micros(now) && size > 0 ==> Grant(Tick(t, now), size) > 0
  }

  /** So it does when it is asked twice. */
  lemma StillGrants(t: Throttle, start: Time, first: Time, second: Time, size: nat)
    requires t.latency == 0 && size > 0 && Before(start, first) && Before(first, second)
    requires GrantsFrom(t, Micros(start))
    ensures Grant(Tick(Tick(t, first), second), size) > 0
  {
    assert Grant(Tick(t, first), size) > 0;
    GrantedIff(t, first, size);
    GrantedIff(Tick(t, first), second, size);
  }

  ghost predicate RelievedFrom(ts: seq<StreamThrottle>, micros: int)
    reads ts
  {
    forall k :: 0 <= k < |ts| ==> GrantsFrom(ts[k].State(), micros)
  }

  /** Those of the list from n on. */
  ghost predicate RestRelieved(ts: seq<StreamThrottle>, n: nat, micros: int)
    reads ts
  {
    forall k :: n <= k < |ts| ==> GrantsFrom(ts[k].State(), micros)
  }

  lemma GrantsLater(t: Throttle, micros: int, later: int)
    requires GrantsFrom(t, micros) && micros <= later
    ensures GrantsFrom(t, later)
  {
  }

  /** By the given moment every throttle without room is in a later second. */
  ghost predicate Relievable(ts: seq<StreamThrottle>, micros: int)
    reads ts
  {
    forall k :: 0 <= k < |ts| ==> Open(ts[k].State()) || (ts[k].currentTime.sec + 1) * USEC_PER_SEC <= micros
  }

  /** Exactly when waiting until a moment is enough. */
  lemma ReliefIff(ts: seq<StreamThrottle>, micros: int)
    requires NoLatency(ts)
    ensures RelievedFrom(ts, micros) <==> Relievable(ts, micros)
  {
    forall k | 0 <= k < |ts|
      ensures GrantsFrom(ts[k].State(), micros) <==>
                Open(ts[k].State()) || (ts[k].currentTime.sec + 1) * USEC_PER_SEC <= micros
    {
      GrantsIff(ts[k].State(), micros);
    }
  }

  lemma GrantsIff(t: Throttle, micros: int)
    requires t.latency == 0
    ensures GrantsFrom(t, micros) <==> Open(t) || (t.now.sec + 1) * USEC_PER_SEC <= micros
  {
    if Open(t) || (t.now.sec + 1) * USEC_PER_SEC <= micros {
      forall now, size: nat | micros <= Micros(now) && size > 0
        ensures Grant(Tick(t, now), size) > 0
      {
        GrantedIff(t, now, size);
      }
    } else {
      var now := Time(t.now.sec, USEC_PER_SEC - 1);
      GrantedIff(t, now, 1);
    }
  }

  /** The throttle allows this much and no more. */
  ghost predicate Limits(t: Throttle, size: nat) {
    (size == 0 && TooSoon(t)) || (t.bandwidth > 0 && size == Max(t.bandwidth - t.bytes, 0))
  }

  /** A size below the wanted one is as much as one of the first n throttles allows. */
  ghost predicate Tight(ts: seq<StreamThrottle>, n: nat, size: nat, wanted: nat)
    requires n <= |ts|
    reads ts
  {
    size < wanted ==> exists k :: 0 <= k < n && Limits(ts[k].State(), size)
  }

  /** The wait, begun now, ends after the given second. */
  predicate PastSecond(sec: int, now: Time, wait: nat) {
    (sec + 1) * USEC_PER_SEC <= Micros(now) + 1000 * wait
  }

  lemma PastEarlier(sec: int, late: int, now: Time, wait: nat)
    requires sec <= late && PastSecond(late, now, wait)
    ensures PastSecond(sec, now, wait)
  {
  }

  lemma PastLater(sec: int, now: Time, wait: nat, now': Time, wait': nat)
    requires PastSecond(sec, now, wait) && Before(now, now') && wait <= wait'
    ensures PastSecond(sec, now', wait')
  {
  }

  /** One request of the fold keeps the throttles in order and covers one throttle more. */
  method Ask(ts: seq<StreamThrottle>, i: nat, size: nat, wait: nat, clock: Clock) returns (granted: nat, newWait: nat)
    requires i < |ts| && Distinct(ts) && AllReady(ts, clock.time) && AllCover(ts, i, size)
    modifies ts, clock
    ensures AllReady(ts, clock.time) && Before(old(clock.time), clock.time) && old(clock.time).sec <= clock.time.sec
    ensures granted <= size && newWait >= wait && AllCover(ts, i + 1, granted) && SameTotals(ts, old(Totals(ts)))
    ensures NoLatency(ts) && granted < size ==> PastSecond(clock.time.sec, clock.time, newWait)
    ensures granted == Grant(ts[i].State(), size) && newWait == Advice(ts[i].State(), size, wait)
    ensures ts[i].State() == Tick(old(ts[i].State()), clock.time)
    ensures AllCover(ts, i, size)
    ensures granted < size ==> Limits(ts[i].State(), granted)
    ensures forall k :: 0 <= k < |ts| && k != i ==> ts[k].State() == old(ts[k].State())
    ensures forall s :: old(Carried(ts, s)) ==> Carried(ts, s)
  {
    ghost var before := ts[i].State();
    granted, newWait := ts[i].Request(size, wait, clock);
    TickSound(before, clock.time);
    GrantCovers(ts[i].State(), size);
    if NoLatency(ts) && granted < size { WaitEndsSecond(ts[i].State(), size, wait); }
  }

  /** After this long a wait every throttle that had no room is in a later second. */
  ghost predicate Advised(ts: seq<StreamThrottle>, now: Time, wait: nat)
    reads ts
  {
    exists s :: Carried(ts, s) && PastSecond(s, now, wait)
  }

  /** The throttle was asked at some time from start on, and again now. */
  ghost predicate AskedBetween(start: Time, now: Time, before: Throttle, after: Throttle) {
    exists first :: Before(start, first) && Before(first, now) && after == Tick(Tick(before, first), now)
  }

  /**
    The request to one throttle.  The macro that takes the minimum evaluates the request a second time, and that
    result counts.
   */
  method AskTwice(ts: seq<StreamThrottle>, i: nat, size: nat, wait: nat, clock: Clock, ghost wanted: nat)
    returns (granted: nat, newWait: nat)
    requires i < |ts| && Distinct(ts) && AllReady(ts, clock.time) && AllCover(ts, i, size)
    requires size <= wanted && Tight(ts, i, size, wanted)
    modifies ts, clock
    ensures AllReady(ts, clock.time) && Before(old(clock.time), clock.time) && old(clock.time).sec <= clock.time.sec
    ensures granted <= size && newWait >= wait && AllCover(ts, i + 1, granted) && SameTotals(ts, old(Totals(ts)))
    ensures Tight(ts, i + 1, granted, wanted)
    ensures NoLatency(ts) && granted < size ==> PastSecond(clock.time.sec, clock.time, newWait)
    ensures forall s :: old(Carried(ts, s)) ==> Carried(ts, s)
    ensures forall k :: 0 <= k < |ts| && k != i ==> ts[k].State() == old(ts[k].State())
    ensures granted == Grant(ts[i].State(), size)
    ensures AskedBetween(old(clock.time), clock.time, old(ts[i].State()), ts[i].State())
  {
    ghost var k := if size < wanted then var j :| 0 <= j < i && Limits(ts[j].State(), size); j else i;
    var _, w := Ask(ts, i, size, wait, clock);
    granted, newWait := Ask(ts, i, size, w, clock);
    assert granted == size < wanted ==> Limits(ts[k].State(), size);
  }

  /** The fold goes on with a later time and a longer wait: what the advice promises stays promised. */
  method AskNext(ts: seq<StreamThrottle>, i: nat, size: nat, wait: nat, clock: Clock, ghost wanted: nat,
                 ghost start: int)
    returns (granted: nat, newWait: nat)
    requires i < |ts| && Distinct(ts) && AllReady(ts, clock.time) && AllCover(ts, i, size)
    requires size <= wanted && Tight(ts, i, size, wanted) && start <= clock.time.sec
    requires NoLatency(ts) ==> Promised(ts, size, wanted, start, clock.time, wait)
    modifies ts, clock
    ensures AllReady(ts, clock.time) && Before(old(clock.time), clock.time) && old(clock.time).sec <= clock.time.sec
    ensures granted <= size && AllCover(ts, i + 1, granted) && SameTotals(ts, old(Totals(ts)))
    ensures Tight(ts, i + 1, granted, wanted)
    ensures NoLatency(ts) ==> Promised(ts, granted, wanted, start, clock.time, newWait)
    ensures NoLatency(ts) && size > 0 && old(RestRelieved(ts, i, Micros(clock.time))) ==>
              granted > 0 && RestRelieved(ts, i + 1, Micros(clock.time))
  {
    ghost var then_ := clock.time;
    ghost var s := if NoLatency(ts) && size == 0 < wanted then
                     var x :| Carried(ts, x) && PastSecond(x, then_, wait); x
                   else 0;
    granted, newWait := AskTwice(ts, i, size, wait, clock, wanted);
    if old(RestRelieved(ts, i, Micros(clock.time))) {
      ghost var first :| Before(then_, first) && Before(first, clock.time)
                         && ts[i].State() == Tick(Tick(old(ts[i].State()), first), clock.time);
      if NoLatency(ts) && size > 0 { StillGrants(old(ts[i].State()), then_, first, clock.time, size); }
      forall k | i + 1 <= k < |ts|
        ensures GrantsFrom(ts[k].State(), Micros(clock.time))
      {
        GrantsLater(old(ts[k].State()), Micros(then_), Micros(clock.time));
      }
    }
    if NoLatency(ts) {
      if granted < size {
        PastEarlier(start, clock.time.sec, clock.time, newWait);
        AllCarried(ts, clock.time);
      } else if size < wanted {
        PastLater(start, then_, wait, clock.time, newWait);
        if size == 0 { PastLater(s, then_, wait, clock.time, newWait); }
      }
    }
  }

  lemma AllCarried(ts: seq<StreamThrottle>, now: Time)
    requires AllReady(ts, now)
    ensures Carried(ts, now.sec)
  {
  }

  /** What the advice promises after a part of the fold: to outlast its first second, and relief from a refusal. */
  ghost predicate Promised(ts: seq<StreamThrottle>, size: nat, wanted: nat, start: int, now: Time, wait: nat)
    reads ts
  {
    && (size < wanted ==> PastSecond(start, now, wait))
    && (size == 0 < wanted ==> Advised(ts, now, wait))
  }

  /** `get_max_readable_priv`, `get_max_writable_priv`: the fold over the list. */
  method MaxTransferable(ts: seq<StreamThrottle>, wanted: nat, wait0: nat, clock: Clock) returns (size: nat, wait: nat)
    requires Distinct(ts) && AllReady(ts, clock.time)
    modifies ts, clock
    ensures AllReady(ts, clock.time) && Before(old(clock.time), clock.time) && SameTotals(ts, old(Totals(ts)))
    ensures old(clock.time).sec <= clock.time.sec
    ensures size <= wanted && AllCover(ts, |ts|, size) && Tight(ts, |ts|, size, wanted)
    ensures NoLatency(ts) && size == 0 < wanted ==> RelievedFrom(ts, Micros(clock.time) + 1000 * wait)
    ensures NoLatency(ts) && size < wanted ==> PastSecond(old(clock.time).sec, clock.time, wait)
    // once every throttle by itself would grant something, so does the list
    ensures NoLatency(ts) && wanted > 0 && old(RelievedFrom(ts, Micros(clock.time))) ==> size > 0
  {
    ghost var relieved := NoLatency(ts) && wanted > 0 && RelievedFrom(ts, Micros(clock.time));
    size, wait := wanted, wait0;
    var i: nat := 0;
    while i < |ts|
      invariant i <= |ts| && size <= wanted
      invariant AllReady(ts, clock.time) && AllCover(ts, i, size) && Before(old(clock.time), clock.time)
      invariant SameTotals(ts, old(Totals(ts))) && Tight(ts, i, size, wanted)
      invariant old(clock.time).sec <= clock.time.sec
      invariant NoLatency(ts) ==> Promised(ts, size, wanted, old(clock.time).sec, clock.time, wait)
      invariant relieved ==> size > 0 && RestRelieved(ts, i, Micros(clock.time))
    {
      size, wait := AskNext(ts, i, size, wait, clock, wanted, old(clock.time).sec);
      i := i + 1;
    }
    if NoLatency(ts) && size == 0 < wanted {
      var s :| Carried(ts, s) && PastSecond(s, clock.time, wait);
      ReliefIff(ts, Micros(clock.time) + 1000 * wait);
    }
  }

  /** Reports reach the first n throttles: their totals have grown by the size of the transfer. */
  ghost predicate Grown(ts: seq<StreamThrottle>, n: nat, size: nat, totals: seq<nat>)
    reads ts
  {
    |totals| == |ts| && forall k :: 0 <= k < |ts| ==> ts[k].total == totals[k] + if k < n then size else 0
  }

  ghost predicate RestCover(ts: seq<StreamThrottle>, n: nat, size: nat)
    reads ts
  {
    forall k :: n <= k < |ts| ==> Covers(ts[k].State(), size)
  }

  method ReportTo(ts: seq<StreamThrottle>, i: nat, size: nat, clock: Clock, ghost totals: seq<nat>)
    requires i < |ts| && Distinct(ts) && AllReady(ts, clock.time)
    requires RestCover(ts, i, size) && Grown(ts, i, size, totals)
    modifies ts, clock
    ensures AllReady(ts, clock.time) && Before(old(clock.time), clock.time)
    ensures RestCover(ts, i + 1, size) && Grown(ts, i + 1, size, totals)
  {
    ghost var before := ts[i].State();
    ts[i].ReportSize(size, clock);
    TickSound(before, clock.time);
    ReportSound(Tick(before, clock.time), size);
  }

  method ReportAll(ts: seq<StreamThrottle>, size: nat, clock: Clock)
    requires Distinct(ts) && AllReady(ts, clock.time) && AllCover(ts, |ts|, size)
    modifies ts, clock
    ensures AllReady(ts, clock.time) && Before(old(clock.time), clock.time)
    ensures Grown(ts, |ts|, size, old(Totals(ts)))
  {
    var i: nat := 0;
    while i < |ts|
      invariant i <= |ts| && AllReady(ts, clock.time) && Before(old(clock.time), clock.time)
      invariant RestCover(ts, i, size) && Grown(ts, i, size, old(Totals(ts)))
    {
      ReportTo(ts, i, size, clock, old(Totals(ts)));
      i := i + 1;
    }
  }

  /** What a stream below was asked to move, and what it moved or a negative number. */
  datatype Answer = Answer(asked: nat, moved: int)

  class BaseStream {
    ghost var answers: seq<Answer>

    /** Any part of what is asked, or an error. */
    method Move(limit: nat) returns (n: int)
      requires limit > 0
      modifies this
      ensures n <= limit && answers == old(answers) + [Answer(limit, n)]
    {
      n := *;
      n := Min(n, limit);
      answers := answers + [Answer(limit, n)];
    }
  }

  /**
    The size a transfer is cut to.  The macro that takes the minimum runs the fold twice; an input stream carries the
    wait of the first fold over to the second, an output stream starts again.
   */
  method Limit(ts: seq<StreamThrottle>, size: nat, carry: bool, clock: Clock) returns (limited: nat, wait: nat)
    requires Distinct(ts) && AllReady(ts, clock.time) && size > 0
    modifies ts, clock
    ensures AllReady(ts, clock.time) && Before(old(clock.time), clock.time) && limited <= size
    ensures AllCover(ts, |ts|, limited) && Tight(ts, |ts|, limited, size) && SameTotals(ts, old(Totals(ts)))
    ensures NoLatency(ts) && limited == 0 ==> RelievedFrom(ts, Micros(clock.time) + 1000 * wait)
    ensures NoLatency(ts) && limited < size ==> PastSecond(old(clock.time).sec, clock.time, wait)
    ensures NoLatency(ts) && old(RelievedFrom(ts, Micros(clock.time))) ==> limited > 0
  {
    var granted, w := MaxTransferable(ts, size, 0, clock);
    if NoLatency(ts) && granted > 0 { RoomRelieves(ts, granted, Micros(clock.time)); }
    ghost var second := clock.time.sec;
    limited, wait := MaxTransferable(ts, size, if carry then w else 0, clock);
    if NoLatency(ts) && limited < size { PastEarlier(old(clock.time).sec, second, clock.time, wait); }
  }

  /** Throttles with room for something grant something from now on. */
  lemma RoomRelieves(ts: seq<StreamThrottle>, size: nat, micros: int)
    requires NoLatency(ts) && size > 0 && AllCover(ts, |ts|, size)
    ensures RelievedFrom(ts, micros)
  {
    ReliefIff(ts, micros);
  }

  /** What is moved is reported to every throttle. */
  method MoveAndReport(ts: seq<StreamThrottle>, base: BaseStream, limited: nat, clock: Clock) returns (result: int)
    requires Distinct(ts) && AllReady(ts, clock.time) && limited > 0 && AllCover(ts, |ts|, limited)
    modifies ts, base, clock
    ensures AllReady(ts, clock.time) && Before(old(clock.time), clock.time) && result <= limited
    ensures Grown(ts, |ts|, Max(result, 0), old(Totals(ts)))
    ensures base.answers == old(base.answers) + [Answer(limited, result)]
  {
    result := base.Move(limited);
    if result > 0 {
      CoverLess(ts, limited, result);
      ReportAll(ts, result, clock);
    }
  }

  /** What a transfer comes to: the bytes moved or -1, the size asked of the stream below, and the advised wait. */
  datatype Transferred = Transferred(result: int, granted: nat, wait: nat)

  /**
    `evd_throttled_input_stream_read` and `evd_throttled_output_stream_write`: what is moved is reported to every
    throttle.  After the advised wait no throttle refuses if the transfer was refused, or if it was cut within one
    second of the clock; in any case the condition is exact.
   */
  method Transfer(ts: seq<StreamThrottle>, base: BaseStream, size: nat, carry: bool, clock: Clock)
    returns (t: Transferred)
    requires Distinct(ts) && AllReady(ts, clock.time)
    modifies ts, base, clock
    ensures base.answers == old(base.answers) + if t.granted > 0 then [Answer(t.granted, t.result)] else []
    ensures AllReady(ts, clock.time) && Before(old(clock.time), clock.time) && t.result <= t.granted <= size
    ensures Grown(ts, |ts|, Max(t.result, 0), old(Totals(ts)))
    ensures t.granted == 0 ==> t.result == (if size == 0 then 0 else -1) && Tight(ts, |ts|, 0, size)
    ensures var m := Micros(clock.time) + 1000 * t.wait;
            && (NoLatency(ts) && t.granted == 0 < size ==> RelievedFrom(ts, m))
            && (NoLatency(ts) && t.granted < size && clock.time.sec == old(clock.time).sec ==> RelievedFrom(ts, m))
            && (NoLatency(ts) ==> (RelievedFrom(ts, m) <==> Relievable(ts, m)))
    ensures NoLatency(ts) && size > 0 && old(RelievedFrom(ts, Micros(clock.time))) ==> t.granted > 0
  {
    t := Transferred(0, 0, 0);
    if size > 0 {
      var limited, wait := Limit(ts, size, carry, clock);
      var result := -1;
      if limited > 0 {
        result := MoveAndReport(ts, base, limited, clock);
      }
      t := Transferred(result, limited, wait);
    }
    if NoLatency(ts) {
      ReliefIff(ts, Micros(clock.time) + 1000 * t.wait);
    }
  }

  lemma RelievedLater(ts: seq<StreamThrottle>, micros: int, later: int)
    requires RelievedFrom(ts, micros) && micros <= later
    ensures RelievedFrom(ts, later)
  {
    forall k | 0 <= k < |ts|
      ensures GrantsFrom(ts[k].State(), later)
    {
      GrantsLater(ts[k].State(), micros, later);
    }
  }

  /** Only time passes. */
  method WaitOut(ts: seq<StreamThrottle>, ms: nat, clock: Clock)
    requires AllReady(ts, clock.time)
    modifies clock
    ensures AllReady(ts, clock.time) && Micros(clock.time) >= Micros(old(clock.time)) + 1000 * ms
    ensures old(RelievedFrom(ts, Micros(clock.time) + 1000 * ms)) ==> RelievedFrom(ts, Micros(clock.time))
  {
    ghost var micros := Micros(clock.time) + 1000 * ms;
    clock.Wait(ms);
    if RelievedFrom(ts, micros) { RelievedLater(ts, micros, Micros(clock.time)); }
  }

  /** A transfer and the wait it advises: if it was refused, no throttle refuses from now on. */
  method TransferAndWait(ts: seq<StreamThrottle>, base: BaseStream, size: nat, carry: bool, clock: Clock)
    returns (t: Transferred)
    requires Distinct(ts) && AllReady(ts, clock.time) && NoLatency(ts) && size > 0
    modifies ts, base, clock
    ensures AllReady(ts, clock.time)
    ensures base.answers == old(base.answers) + if t.granted > 0 then [Answer(t.granted, t.result)] else []
    ensures t.granted == 0 ==> RelievedFrom(ts, Micros(clock.time))
  {
    t := Transfer(ts, base, size, carry, clock);
    WaitOut(ts, t.wait, clock);
  }

  /** After a refused transfer, the advised wait and no other traffic, the next transfer is granted something. */
  method TryAgain(ts: seq<StreamThrottle>, base: BaseStream, size: nat, again: nat, carry: bool, clock: Clock)
    returns (first: Transferred, second: Transferred)
    requires Distinct(ts) && AllReady(ts, clock.time) && NoLatency(ts) && size > 0 && again > 0
    modifies ts, base, clock
    ensures AllReady(ts, clock.time)
    ensures first.granted == 0 ==>
              second.granted > 0 && base.answers == old(base.answers) + [Answer(second.granted, second.result)]
  {
    first := TransferAndWait(ts, base, size, carry, clock);
    second := Transfer(ts, base, again, carry, clock);
  }

  lemma CoverLess(ts: seq<StreamThrottle>, size: nat, less: nat)
    requires AllCover(ts, |ts|, size) && less <= size
    ensures AllCover(ts, |ts|, less)
  {
  }

  // ---- any number of streams

  datatype Operation = Operation(throttles: seq<StreamThrottle>, base: BaseStream, size: nat, carry: bool)

  /** Each operation is on a stream whose throttles are among those given, over a stream below of those given. */
  ghost predicate Among(op: Operation, all: seq<StreamThrottle>, bases: set<BaseStream>) {
    op.base in bases && Distinct(op.throttles) && forall k :: 0 <= k < |op.throttles| ==> op.throttles[k] in all
  }

  /** What went through a throttle in these operations. */
  ghost function Through(ops: seq<Operation>, results: seq<int>, t: StreamThrottle): nat
    requires |results| == |ops|
  {
    if ops == [] then 0
    else
      var n := |ops| - 1;
      Through(ops[..n], results[..n], t) + if t in ops[n].throttles then Max(results[n], 0) else 0
  }

  method TransferAmong(all: seq<StreamThrottle>, bases: set<BaseStream>, op: Operation, clock: Clock)
    returns (t: Transferred)
    requires Among(op, all, bases) && AllReady(all, clock.time)
    modifies all, bases, clock
    ensures AllReady(all, clock.time) && t.result <= t.granted <= op.size
    ensures op.base.answers == old(op.base.answers) + if t.granted > 0 then [Answer(t.granted, t.result)] else []
    ensures t.granted == 0 < op.size ==> t.result == -1 && Tight(op.throttles, |op.throttles|, 0, op.size)
    ensures forall b :: b in bases && b != op.base ==> b.answers == old(b.answers)
    ensures forall h :: h in all && h in op.throttles ==> h.total == old(h.total) + Max(t.result, 0)
    ensures forall h :: h in all && h !in op.throttles ==> h.total == old(h.total)
  {
    var ts := op.throttles;
    t := Transfer(ts, op.base, op.size, op.carry, clock);
    forall k | 0 <= k < |all|
      ensures Ready(all[k].State(), clock.time)
    {
      if all[k] in ts {
        var j :| 0 <= j < |ts| && ts[j] == all[k];
      }
    }
  }

  /**
    Streams sharing throttles in any way, in any order: within every second no throttle's bandwidth is exceeded, and a
    throttle counts what went through it and nothing else.
   */
  method RunStreams(all: seq<StreamThrottle>, bases: set<BaseStream>, ops: seq<Operation>, clock: Clock)
    returns (results: seq<int>)
    requires AllReady(all, clock.time) && forall i :: 0 <= i < |ops| ==> Among(ops[i], all, bases)
    modifies all, bases, clock
    ensures AllReady(all, clock.time) && |results| == |ops|
    ensures forall t :: t in all && t.bandwidth > 0 ==> forall s :: InSecond(t.log, s) <= t.bandwidth
    ensures forall t :: t in all ==> t.total == Sum(t.log) && t.total == old(t.total) + Through(ops, results, t)
  {
    results := [];
    var i: nat := 0;
    while i < |ops|
      invariant i <= |ops| && AllReady(all, clock.time) && |results| == i
      invariant forall t :: t in all ==> t.total == old(t.total) + Through(ops[..i], results, t)
    {
      var t := TransferAmong(all, bases, ops[i], clock);
      assert ops[..i + 1][..i] == ops[..i] && (results + [t.result])[..i] == results;
      results := results + [t.result];
      i := i + 1;
    }
    assert ops[..i] == ops;
    forall t | t in all
      ensures t.total == Sum(t.log) && (t.bandwidth > 0 ==> forall s :: InSecond(t.log, s) <= t.bandwidth)
    {
      var k :| 0 <= k < |all| && all[k] == t;
      assert Sound(all[k].State());
    }
  }

  // ---- a transfer that was cut, not refused

  /**
    When the second ends between the request and the report, the advice may not be good: a throttle reported to in the
    new second refuses until that second is over, exactly when the transfer fills it, and a transfer cut in the last
    microsecond of a second is told to wait for no more than a millisecond.
   */
  lemma CutAcrossSeconds(cut: Throttle, t: Throttle, size: nat, n: nat, more: nat)
    requires cut.latency == 0 && Grant(cut, size) < size && cut.now.usec == 999_999
    requires t.latency == 0 && t.bandwidth > 0 && t.now.sec == cut.now.sec && more > 0
    ensures var report, later := Time(t.now.sec + 1, 0), Time(t.now.sec + 1, 1000);
            && Micros(later) >= Micros(cut.now) + 1000 * Advice(cut, size, 0)
            && (Grant(Tick(Report(Tick(t, report), n), later), more) == 0 <==> n >= t.bandwidth)
  {
  }
}
