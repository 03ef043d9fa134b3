/** The DTLS retransmission timer: its procedures, and what they do over whole runs. */
module DtlsTimer {
  import opened Bits
  import opened Outcomes

  const MAX_TIMEOUTS: nat := 12
  const MAX_DURATION: nat := 60000
  const MICROS: nat := 1_000_000
  const CLOSE_ENOUGH: nat := 15_000
  const INT_MAX: nat := 0x7FFF_FFFF

  datatype Time = Time(sec: nat, usec: nat)

  const NEVER := Time(0, 0)

  /** A reading of the clock: after the epoch, and from a signed 64-bit number of seconds. */
  predicate Clock(now: Time) {
    0 < now.sec < 0x8000_0000_0000_0000 && now.usec < MICROS
  }

  function Micros(t: Time): nat {
    t.sec * MICROS + t.usec
  }

  /** The time that many milliseconds later. */
  function After(t: Time, ms: nat): (r: Time)
    ensures r.usec < MICROS && Micros(r) == Micros(t) + 1000 * ms
  {
    var n := Micros(t) + 1000 * ms;
    Time(n / MICROS, n % MICROS)
  }

  lemma MicrosInjective(s: Time, t: Time)
    requires s.usec < MICROS && t.usec < MICROS && Micros(s) == Micros(t)
    ensures s == t
  {
  }

  // ----- what each procedure does -----

  datatype State = State(initial: U32, duration: U32, next: Time, timeouts: U32)

  predicate Running(v: State) {
    v.next != NEVER
  }

  /** Expiry is reported from 15 ms before the deadline on. */
  predicate Expired(v: State, now: Time) {
    Running(v) && Micros(v.next) < Micros(now) + CLOSE_ENOUGH
  }

  /** Twice the duration in 32 bits, up to a minute. */
  function Doubled(ms: U32): U32 {
    var twice := 2 * ms % 0x1_0000_0000;
    if twice > MAX_DURATION then MAX_DURATION else twice
  }

  function Started(v: State, now: Time): State {
    var ms := if Running(v) then v.duration else v.initial;
    v.(duration := ms, next := After(now, ms))
  }

  function Stopped(v: State): State {
    State(v.initial, v.initial, NEVER, 0)
  }

  datatype Outcome = NotExpired | GaveUp | Retransmit

  function Counted(v: State): State {
    v.(timeouts := (v.timeouts + 1) % 0x1_0000_0000)
  }

  function Handled(v: State, now: Time): (State, Outcome) {
    if !Expired(v, now) then (v, NotExpired)
    else
      var c := Counted(v);
      if c.timeouts > MAX_TIMEOUTS then (c, GaveUp)
      else (Started(c.(duration := Doubled(c.duration)), now), Retransmit)
  }

  class Timer {
    var initialDurationMs: U32
    var durationMs: U32
    var nextSec: nat
    var nextUsec: nat
    var numTimeouts: U32

    ghost function Now(): State
      reads this
    {
      State(initialDurationMs, durationMs, Time(nextSec, nextUsec), numTimeouts)
    }

    constructor (initial: U32)
      ensures Now() == State(initial, 0, NEVER, 0)
    {
      initialDurationMs, durationMs, nextSec, nextUsec, numTimeouts := initial, 0, 0, 0, 0;
    }

    /** Takes effect when the timer is next started from rest. */
    method SetInitialDuration(ms: U32)
      modifies `initialDurationMs
      ensures Now() == old(Now()).(initial := ms)
    {
      initialDurationMs := ms;
    }

    method Start(now: Time)
      requires Clock(now)
      modifies this
      ensures Now() == Started(old(Now()), now)
    {
      if nextSec == 0 && nextUsec == 0 {
        durationMs := initialDurationMs;
      }
      nextSec, nextUsec := now.sec, now.usec;
      nextSec := nextSec + durationMs / 1000;
      nextUsec := nextUsec + durationMs % 1000 * 1000;
      if nextUsec >= MICROS {
        nextSec := nextSec + 1;
        nextUsec := nextUsec - MICROS;
      }
      MicrosInjective(Time(nextSec, nextUsec), After(now, durationMs));
    }

    /** The time left, or none on a stopped timer: zero from 15 ms before the deadline on. */
    method GetTimeout(now: Time) returns (left: Option<Time>)
      requires Clock(now) && nextUsec < MICROS
      ensures left.Some? <==> Running(Now())
      ensures left.Some? ==> (left.value == NEVER <==> Expired(Now(), now))
      ensures left.Some? && left.value != NEVER ==>
        left.value.usec < MICROS
        && (left.value.sec < 0x7FFF_FFFF ==> Micros(left.value) == Micros(Now().next) - Micros(now))
        && (left.value.sec == 0x7FFF_FFFF <==> Micros(Now().next) - Micros(now) >= 0x7FFF_FFFF * 1_000_000)
    {
      if nextSec == 0 && nextUsec == 0 {
        return None;
      }
      if nextSec < now.sec || (nextSec == now.sec && nextUsec <= now.usec) {
        return Some(NEVER);
      }
      var sec, usec := nextSec - now.sec, nextUsec;
      if usec >= now.usec {
        usec := usec - now.usec;
      } else {
        usec := MICROS + usec - now.usec;
        sec := sec - 1;
      }
      if sec == 0 && usec < CLOSE_ENOUGH {
        sec, usec := 0, 0;
      }
      return Some(Time(if sec > INT_MAX then INT_MAX else sec, usec));
    }

    method IsExpired(now: Time) returns (expired: bool)
      requires Clock(now) && nextUsec < MICROS
      ensures expired <==> Expired(Now(), now)
    {
      var left := GetTimeout(now);
      if left.None? {
        return false;
      }
      return !(left.value.sec > 0 || left.value.usec > 0);
    }

    method DoubleTimeout()
      modifies `durationMs
      ensures durationMs == Doubled(old(durationMs))
    {
      durationMs := 2 * durationMs % 0x1_0000_0000;
      if durationMs > MAX_DURATION {
        durationMs := MAX_DURATION;
      }
    }

    method Stop()
      modifies this
      ensures Now() == Stopped(old(Now()))
    {
      numTimeouts := 0;
      nextSec, nextUsec := 0, 0;
      durationMs := initialDurationMs;
    }

    method CheckTimeoutNum() returns (ok: bool)
      modifies `numTimeouts
      ensures Now() == Counted(old(Now()))
      ensures ok <==> numTimeouts <= MAX_TIMEOUTS
    {
      numTimeouts := (numTimeouts + 1) % 0x1_0000_0000;
      return numTimeouts <= MAX_TIMEOUTS;
    }

    method HandleTimeout(now: Time) returns (outcome: Outcome)
      requires Clock(now) && nextUsec < MICROS
      modifies this
      ensures (Now(), outcome) == Handled(old(Now()), now)
    {
      var expired := IsExpired(now);
      if !expired {
        return NotExpired;
      }
      var ok := CheckTimeoutNum();
      if !ok {
        return GaveUp;
      }
      DoubleTimeout();
      Start(now);
      return Retransmit;
    }
  }

  // ----- backing off -----

  /** The duration after k doublings. */
  function Backoff(d: U32, k: nat): U32 {
    if k == 0 then d else Doubled(Backoff(d, k - 1))
  }

  function UpTo(limit: nat, x: nat): nat {
    if x > limit then limit else x
  }

  /** The first doubling overflows to less than a minute. */
  predicate Overflows(d: U32) {
    0x8000_0000 <= d < 0x8000_0000 + 30_000
  }

  lemma DoublingStep(ms: U32, x: nat)
    requires ms == UpTo(MAX_DURATION, x)
    ensures Doubled(ms) == UpTo(MAX_DURATION, 2 * x)
  {
  }

  lemma {:induction false} BackoffDoubles(d: U32, k: nat)
    requires k >= 1 && !Overflows(d)
    ensures Backoff(d, k) == UpTo(MAX_DURATION, d * Pow2(k))
  {
    var x: nat := d * Pow2(k - 1);
    assert d * Pow2(k) == 2 * x by {
      assert d * (2 * Pow2(k - 1)) == 2 * (d * Pow2(k - 1));
    }
    if k == 1 {
      assert x == d by { assert Pow2(0) == 1; }
      assert Backoff(d, 1) == Doubled(d) by { assert Backoff(d, 0) == d; }
    } else {
      BackoffDoubles(d, k - 1);
      DoublingStep(Backoff(d, k - 1), x);
    }
  }

  /** Every backed-off duration is the initial one times a power of two, up to a minute, unless the first doubling overflows. */
  lemma BackoffExact(d: U32)
    ensures (forall k: nat :: k >= 1 ==> Backoff(d, k) == UpTo(60_000, d * Pow2(k))) <==> !Overflows(d)
  {
    if Overflows(d) {
      assert Backoff(d, 0) == d && Pow2(0) == 1 && Pow2(1) == 2;
      assert Backoff(d, 1) != UpTo(MAX_DURATION, d * Pow2(1));
    } else {
      forall k: nat | k >= 1
        ensures Backoff(d, k) == UpTo(MAX_DURATION, d * Pow2(k))
      {
        BackoffDoubles(d, k);
      }
    }
  }

  // ----- whole runs -----

  datatype Event = Start(now: Time) | Stop | Handle(now: Time) | SetInitial(ms: U32)

  predicate Clocked(events: seq<Event>) {
    forall i :: 0 <= i < |events| ==> (events[i].Start? || events[i].Handle?) ==> Clock(events[i].now)
  }

  function Next(v: State, e: Event): State {
    match e
    case Start(now) => Started(v, now)
    case Stop => Stopped(v)
    case Handle(now) => Handled(v, now).0
    case SetInitial(ms) => v.(initial := ms)
  }

  function Run(v: State, events: seq<Event>): State {
    if events == [] then v else Next(Run(v, events[..|events| - 1]), events[|events| - 1])
  }

  /** Since the last stop: the expiries, those that were answered by a retransmission, the initial
      duration when the timer was started, and the last time it was. */
  datatype History = History(expiries: nat, sent: nat, base: U32, since: Time)

  function Remember(h: History, v: State, e: Event): History {
    match e
    case Start(now) => h.(base := if Running(v) then h.base else v.initial, since := now)
    case Stop => History(0, 0, h.base, h.since)
    case Handle(now) =>
      match Handled(v, now).1 {
        case NotExpired => h
        case GaveUp => h.(expiries := h.expiries + 1)
        case Retransmit => h.(expiries := h.expiries + 1, sent := h.sent + 1, since := now)
      }
    case SetInitial(ms) => h
  }

  function HistoryOf(v: State, events: seq<Event>): History {
    if events == [] then History(0, 0, v.initial, NEVER)
    else
      var before := events[..|events| - 1];
      Remember(HistoryOf(v, before), Run(v, before), events[|events| - 1])
  }

  /** What the state of the timer says about its history. */
  predicate Faithful(v: State, h: History) {
    && v.next.usec < MICROS
    && (!Running(v) ==> v.timeouts == 0 && h.expiries == 0 && h.sent == 0)
    && (h.expiries < TWO_32 ==>
          && v.timeouts == h.expiries
          && h.sent == UpTo(12, h.expiries)
          && (Running(v) ==> v.duration == Backoff(h.base, h.sent) && v.next == After(h.since, v.duration)))
  }

  lemma FaithfulHandle(v: State, h: History, now: Time)
    requires Faithful(v, h) && Clock(now)
    ensures Faithful(Handled(v, now).0, Remember(h, v, Handle(now)))
  {
  }

  lemma FaithfulStart(v: State, h: History, now: Time)
    requires Faithful(v, h) && Clock(now)
    ensures Faithful(Started(v, now), Remember(h, v, Start(now)))
  {
  }

  lemma FaithfulStep(v: State, h: History, e: Event)
    requires Faithful(v, h) && ((e.Start? || e.Handle?) ==> Clock(e.now))
    ensures Faithful(Next(v, e), Remember(h, v, e))
  {
    match e
    case Start(now) => FaithfulStart(v, h, now);
    case Stop =>
    case Handle(now) => FaithfulHandle(v, h, now);
    case SetInitial(ms) =>
  }

  /**
   Over any run, for as long as fewer than 2^32 expiries follow a stop: at most twelve of them are
   answered, the duration is the initial one doubled once for each answer, and the deadline is that
   long after the last start.
   */
  lemma {:induction false} TimerRuns(initial: U32, events: seq<Event>)
    requires Clocked(events)
    ensures var v0 := State(initial, 0, NEVER, 0);
            Faithful(Run(v0, events), HistoryOf(v0, events))
  {
    var v0 := State(initial, 0, NEVER, 0);
    if events != [] {
      var n := |events| - 1;
      TimerRuns(initial, events[..n]);
      FaithfulStep(Run(v0, events[..n]), HistoryOf(v0, events[..n]), events[n]);
    }
  }

  /** The time in microseconds at which a timer started at the given time reports expiry: 15 ms early. */
  function Due(since: Time, ms: nat): int {
    1_000_000 * since.sec + since.usec + 1000 * ms - 15_000
  }

  /**
   What handling a timeout does after any run: nothing before the timer is due, which is 15 ms before the
   backed-off duration has passed since its last start; then twelve retransmissions, and giving up after.
   */
  lemma AnswersExactly(initial: U32, events: seq<Event>, now: Time)
    requires Clocked(events) && Clock(now)
    ensures var v0 := State(initial, 0, NEVER, 0);
            var v, h := Run(v0, events), HistoryOf(v0, events);
            h.expiries < TWO_32 - 1 ==>
              Handled(v, now).1
              == if v.next == Time(0, 0) || 1_000_000 * now.sec + now.usec <= Due(h.since, Backoff(h.base, h.sent)) then NotExpired
                 else if h.expiries < 12 then Retransmit
                 else GaveUp
  {
    hide Run, HistoryOf, Backoff;
    TimerRuns(initial, events);
  }
}
