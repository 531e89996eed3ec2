/** A bandwidth limit shared by streams (evd/evd-stream-throttle.c). */
module Throttle {
  import opened Prelude

  const USEC_PER_SEC := 1_000_000

  type Usec = u: int | 0 <= u < USEC_PER_SEC

  datatype Time = Time(sec: int, usec: Usec)

  function Micros(t: Time): int { t.sec * USEC_PER_SEC + t.usec }

  predicate Before(a: Time, b: Time) { Micros(a) <= Micros(b) }

  /** History: so many bytes were reported at this time. */
  datatype Entry = Entry(at: Time, size: nat)

  datatype Throttle = Throttle(
    bandwidth: nat, // bytes in one second; 0 is no limit
    latency: nat,   // microseconds between transfers
    now: Time,      // current_time
    last: Time,
    bytes: nat,     // reported in the second of now
    total: nat,
    actual: nat,    // reported in the second before the counter was last set back
    log: seq<Entry>)

  function Fresh(bandwidth: nat, latency: nat): Throttle {
    Throttle(bandwidth, latency, Time(0, 0), Time(0, 0), 0, 0, 0, [])
  }

  /** A look at the clock: the counter starts again with every second. */
  function Tick(t: Throttle, now: Time): Throttle {
    if now.sec != t.now.sec then t.(now := now, actual := t.bytes, bytes := 0) else t.(now := now)
  }

  function Distance(a: Time, b: Time): nat {
    (if a.sec < b.sec then b.sec - a.sec else a.sec - b.sec) * USEC_PER_SEC
    + (if a.usec < b.usec then b.usec - a.usec else a.usec - b.usec)
  }

  predicate TooSoon(t: Throttle) { t.latency > 0 && Distance(t.now, t.last) < t.latency }

  /** How much of a transfer the throttle allows. */
  function Grant(t: Throttle, size: nat): (r: nat)
    ensures r <= size
  {
    if TooSoon(t) then 0
    else if t.bandwidth > 0 && size > 0 then Min(Max(t.bandwidth - t.bytes, 0), size)
    else size
  }

  /** The milliseconds that the caller is told to wait, at least those it was told before. */
  function Advice(t: Throttle, size: nat, wait: nat): (r: nat)
    ensures r >= wait
  {
    if TooSoon(t) then Max((t.latency - Distance(t.now, t.last)) / 1000 + 2, wait)
    else if t.bandwidth > 0 && size > 0 && Grant(t, size) < size then Max((1_000_001 - t.now.usec) / 1000 + 1, wait)
    else wait
  }

  function Report(t: Throttle, size: nat): Throttle {
    t.(bytes := t.bytes + size, total := t.total + size, last := t.now, log := t.log + [Entry(t.now, size)])
  }

  // ---- what the counters mean

  function Sum(log: seq<Entry>): nat {
    if log == [] then 0 else Sum(log[..|log| - 1]) + log[|log| - 1].size
  }

  /** What was reported in one second of the clock. */
  function InSecond(log: seq<Entry>, sec: int): nat {
    if log == [] then 0
    else InSecond(log[..|log| - 1], sec) + (if log[|log| - 1].at.sec == sec then log[|log| - 1].size else 0)
  }

  ghost predicate Bounded(t: Throttle) {
    t.bandwidth > 0 ==> forall s :: InSecond(t.log, s) <= t.bandwidth
  }

  ghost predicate Sound(t: Throttle) {
    && t.total == Sum(t.log)
    && t.bytes == InSecond(t.log, t.now.sec)
    && (forall e :: e in t.log ==> e.at.sec <= t.now.sec)
    && Bounded(t)
  }

  /** The time of the last transfer is right. */
  predicate LastTold(t: Throttle) { t.log != [] ==> t.last == t.log[|t.log| - 1].at }

  /** The counter has room for a transfer. */
  predicate Covers(t: Throttle, size: nat) { t.bandwidth > 0 ==> t.bytes + size <= t.bandwidth }

  lemma {:induction false} NothingLater(log: seq<Entry>, sec: int)
    requires forall e :: e in log ==> e.at.sec < sec
    ensures InSecond(log, sec) == 0
  {
    if log != [] {
      assert log[|log| - 1] in log;
      NothingLater(log[..|log| - 1], sec);
    }
  }

  lemma TickSound(t: Throttle, now: Time)
    requires Sound(t) && t.now.sec <= now.sec
    ensures Sound(Tick(t, now))
    ensures forall size :: Covers(t, size) ==> Covers(Tick(t, now), size)
    ensures LastTold(t) ==> LastTold(Tick(t, now))
    ensures now.sec != t.now.sec ==> Tick(t, now).actual == InSecond(t.log, t.now.sec)
  {
    if now.sec != t.now.sec {
      NothingLater(t.log, now.sec);
    }
  }

  lemma GrantCovers(t: Throttle, size: nat)
    requires Sound(t)
    ensures Covers(t, Grant(t, size))
  {
  }

  lemma ReportSound(t: Throttle, size: nat)
    requires Sound(t) && Covers(t, size)
    ensures Sound(Report(t, size)) && LastTold(Report(t, size))
  {
    var log := Report(t, size).log;
    assert log[..|log| - 1] == t.log;
    forall s ensures InSecond(log, s) == InSecond(t.log, s) + if s == t.now.sec then size else 0 {}
  }

  // ---- the advice

  /** At least one byte would be allowed as things stand. */
  predicate Open(t: Throttle) { t.bandwidth > 0 ==> t.bytes < t.bandwidth }

  /** Waiting as told carries past the end of the second in which a transfer was refused or cut. */
  lemma WaitEndsSecond(t: Throttle, size: nat, wait: nat)
    requires t.latency == 0 && Grant(t, size) < size
    ensures Micros(t.now) + 1000 * Advice(t, size, wait) >= (t.now.sec + 1) * USEC_PER_SEC
  {
  }

  /** The advice is at most two milliseconds behind the end of the second, and the longest of a fold is kept. */
  lemma WaitNoLonger(t: Throttle, size: nat, wait: nat)
    ensures Advice(t, size, wait) == Max(Advice(t, size, 0), wait)
    ensures t.latency == 0 && Grant(t, size) < size ==>
              Micros(t.now) + 1000 * Advice(t, size, 0) <= (t.now.sec + 1) * USEC_PER_SEC + 1001
    ensures t.latency == 0 && Grant(t, size) == size ==> Advice(t, size, 0) == 0
  {
  }

  /** After some time a request of any size gets something exactly when the second is over or there was room. */
  lemma GrantedIff(t: Throttle, now: Time, size: nat)
    requires t.latency == 0 && size > 0
    ensures Grant(Tick(t, now), size) > 0 <==> Open(t) || now.sec != t.now.sec
  {
  }

  // ---- the latency

  /** How far the microseconds have fallen behind those of the last transfer, in a later second. */
  function Behind(last: Time, now: Time): nat {
    if last.sec < now.sec && now.usec < last.usec then last.usec - now.usec else 0
  }

  /**
    The latency refuses exactly when less than it has passed since the last transfer, where twice what the microseconds
    have fallen behind counts as passed too: transfers on both sides of a full second may be closer than the latency.
    Beyond that it changes nothing.
   */
  lemma LatencyIff(t: Throttle, size: nat, wait: nat)
    requires Before(t.last, t.now) && size > 0
    ensures var passed := Micros(t.now) - Micros(t.last) + 2 * Behind(t.last, t.now);
            var free := t.(latency := 0);
            if passed < t.latency then
              Grant(t, size) == 0 && Micros(t.now) + 1000 * Advice(t, size, 0) <= Micros(t.last) + t.latency + 2000
            else
              Grant(t, size) == Grant(free, size) && Advice(t, size, wait) == Advice(free, size, wait)
  {
    if t.now.sec == t.last.sec {
      assert Distance(t.now, t.last) == Micros(t.now) - Micros(t.last);
    }
  }

  /** The latency refuses nothing from this moment on. */
  ghost predicate LatencyOver(t: Throttle, from: Time) {
    forall now :: Before(from, now) ==> !TooSoon(Tick(t, now))
  }

  /** Exactly when: the full seconds count, and of the microseconds only those beyond the last transfer's. */
  lemma LatencyOverIff(t: Throttle, from: Time)
    requires Before(t.last, from)
    ensures LatencyOver(t, from) <==>
              (from.sec - t.last.sec) * USEC_PER_SEC + Max(from.usec - t.last.usec, 0) >= t.latency
  {
    var least := (from.sec - t.last.sec) * USEC_PER_SEC + Max(from.usec - t.last.usec, 0);
    forall now | Before(from, now)
      ensures Distance(now, t.last) >= least
    {
    }
    if least < t.latency {
      var now := Time(from.sec, Max(from.usec, t.last.usec));
      assert Before(from, now) && Distance(now, t.last) == least;
      assert TooSoon(Tick(t, now));
    }
  }

  /** Waiting as told ends the refusal by the latency if the microseconds are not behind when it is told. */
  lemma LatencyWaitIsEnough(t: Throttle, size: nat, wait: nat)
    requires Before(t.last, t.now) && TooSoon(t) && Behind(t.last, t.now) == 0
    ensures LatencyOver(t, Later(t.now, 1000 * Advice(t, size, wait)))
  {
    var from := Later(t.now, 1000 * Advice(t, size, wait));
    assert Distance(t.now, t.last) == Micros(t.now) - Micros(t.last);
    assert Micros(from) >= Micros(t.last) + t.latency;
    LatencyOverIff(t, from);
  }

  /** Otherwise it may not: told to wait 102 milliseconds for a latency of 1.9 seconds, refused after it. */
  lemma LatencyWaitTooShort(size: nat)
    ensures var t := Fresh(0, 1_900_000).(last := Time(1, 900_000), now := Time(2, 100_000));
            && Advice(t, size, 0) == 102
            && TooSoon(Tick(t, Later(t.now, 1000 * Advice(t, size, 0))))
  {
  }

  function Later(t: Time, d: nat): (r: Time)
    ensures Micros(r) == Micros(t) + d && t.sec <= r.sec
  {
    var m := Micros(t) + d;
    Time(m / USEC_PER_SEC, m % USEC_PER_SEC)
  }

  class Clock {
    var time: Time

    /** Any clock that does not go back. */
    method Read() returns (now: Time)
      modifies this
      ensures now == time && Before(old(time), now) && old(time).sec <= now.sec
    {
      var d: int := *;
      now := Later(time, Max(d, 0));
      time := now;
    }

    /** At least so many milliseconds pass. */
    method Wait(ms: nat)
      modifies this
      ensures Micros(time) >= Micros(old(time)) + 1000 * ms && Before(old(time), time) && old(time).sec <= time.sec
    {
      var d: int := *;
      time := Later(time, 1000 * ms + Max(d, 0));
    }
  }

  class StreamThrottle {
    const bandwidth: nat
    const latency: nat
    var currentTime: Time
    var last: Time
    var bytes: nat
    var total: nat
    var actualBandwidth: nat
    ghost var log: seq<Entry>

    ghost function State(): Throttle
      reads this
    {
      Throttle(bandwidth, latency, currentTime, last, bytes, total, actualBandwidth, log)
    }

    constructor (bandwidth: nat, latency: nat)
      ensures State() == Fresh(bandwidth, latency) && Sound(State())
    {
      this.bandwidth, this.latency := bandwidth, latency;
      currentTime, last, bytes, total, actualBandwidth, log := Time(0, 0), Time(0, 0), 0, 0, 0, [];
    }

    /** `evd_stream_throttle_update_current_time`. */
    method UpdateCurrentTime(clock: Clock)
      modifies this, clock
      ensures Before(old(clock.time), clock.time) && old(clock.time).sec <= clock.time.sec
      ensures State() == Tick(old(State()), clock.time)
    {
      var now := clock.Read();
      if now.sec != currentTime.sec {
        actualBandwidth := bytes;
        bytes := 0;
      }
      currentTime := now;
    }

    /** `evd_stream_throttle_request` with `evd_stream_throttle_request_internal`. */
    method Request(size: nat, wait: nat, clock: Clock) returns (actual: nat, newWait: nat)
      modifies this, clock
      ensures Before(old(clock.time), clock.time) && old(clock.time).sec <= clock.time.sec
      ensures State() == Tick(old(State()), clock.time)
      ensures actual == Grant(State(), size) && newWait == Advice(State(), size, wait)
    {
      UpdateCurrentTime(clock);
      actual, newWait := size, wait;
      if latency > 0 {
        var elapsed := Distance(currentTime, last);
        if elapsed < latency {
          actual := 0;
          newWait := Max((latency - elapsed) / 1000 + 2, wait);
        }
      }
      if bandwidth > 0 && actual > 0 {
        actual := Min(Max(bandwidth - bytes, 0), size);
        if actual < size {
          newWait := Max((1_000_001 - currentTime.usec) / 1000 + 1, newWait);
        }
      }
    }

    /** `evd_stream_throttle_report`. */
    method ReportSize(size: nat, clock: Clock)
      modifies this, clock
      ensures Before(old(clock.time), clock.time) && old(clock.time).sec <= clock.time.sec
      ensures State() == Report(Tick(old(State()), clock.time), size)
    {
      UpdateCurrentTime(clock);
      bytes, total, last := bytes + size, total + size, currentTime;
      log := log + [Entry(currentTime, size)];
    }
  }
}
