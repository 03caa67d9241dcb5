/**
 The timers of router/watch.c: time values of seconds and microseconds, the
 timer that is due first, and the time to wait for it.
 */
module Timers {
  import opened Bytes

  const MICROS: int := 1_000_000

  datatype Timeval = Timeval(sec: int, usec: int)

  /** As the clock and these operations give them, microseconds are less than a second. */
  predicate Normal(t: Timeval) { 0 <= t.usec < MICROS }

  /** The time in microseconds. */
  function Micros(t: Timeval): int { t.sec * MICROS + t.usec }

  /** timercmp() with < */
  predicate Less(a: Timeval, b: Timeval) {
    if a.sec == b.sec then a.usec < b.usec else a.sec < b.sec
  }

  /** timeradd() */
  function Plus(a: Timeval, b: Timeval): Timeval {
    if a.usec + b.usec >= MICROS then Timeval(a.sec + b.sec + 1, a.usec + b.usec - MICROS)
    else Timeval(a.sec + b.sec, a.usec + b.usec)
  }

  /** timersub() */
  function Minus(a: Timeval, b: Timeval): Timeval {
    if a.usec - b.usec < 0 then Timeval(a.sec - b.sec - 1, a.usec - b.usec + MICROS)
    else Timeval(a.sec - b.sec, a.usec - b.usec)
  }

  /** The time left until a tick, or none when it has passed. */
  function TimeLeft(tick: Timeval, now: Timeval): Timeval {
    var tv := Minus(tick, now);
    if tv.sec < 0 then Timeval(0, 0) else tv
  }

  /** An interval of milliseconds. */
  function Interval(ms: nat): Timeval { Timeval(ms / 1000, (ms % 1000) * 1000) }

  lemma LessIsEarlier(a: Timeval, b: Timeval)
    requires Normal(a) && Normal(b)
    ensures Less(a, b) <==> Micros(a) < Micros(b)
  {
  }

  lemma PlusAdds(a: Timeval, b: Timeval)
    requires Normal(a) && Normal(b)
    ensures Normal(Plus(a, b)) && Micros(Plus(a, b)) == Micros(a) + Micros(b)
  {
  }

  lemma IntervalIs(ms: nat)
    ensures Normal(Interval(ms)) && Micros(Interval(ms)) == 1000 * ms
  {
  }

  /** Looking only at the sign of the seconds, the clamp cuts exactly the negative differences. */
  lemma TimeLeftClamps(tick: Timeval, now: Timeval)
    requires Normal(tick) && Normal(now)
    ensures Normal(TimeLeft(tick, now))
    ensures Micros(TimeLeft(tick, now))
         == if Micros(tick) > Micros(now) then Micros(tick) - Micros(now) else 0
  {
  }

  /** What a timer calls: the reset of a client's encoding, or the opening of a peripheral. */
  datatype Callback = ResetClient(client: nat) | OpenPeripheral(peripheral: nat)

  datatype Timer = Timer(cb: Callback, interval: nat, repeat: bool, tick: Timeval)

  predicate AllNormal(timers: seq<Timer>) { forall i | 0 <= i < |timers| :: Normal(timers[i].tick) }

  /** watch_get_next_timer(): the first of the timers with the least tick. */
  method NextTimer(timers: seq<Timer>) returns (selected: Option<nat>)
    requires AllNormal(timers)
    ensures selected.None? <==> timers == []
    ensures selected.Some? ==>
      && selected.value < |timers|
      && (forall i | 0 <= i < |timers| :: Micros(timers[selected.value].tick) <= Micros(timers[i].tick))
      && (forall i | 0 <= i < selected.value :: Micros(timers[selected.value].tick) < Micros(timers[i].tick))
  {
    if |timers| == 0 {
      return None;
    }
    var s, i := 0, 0;
    var tv := timers[0].tick;
    while i < |timers|
      invariant i <= |timers| && s < |timers| && tv == timers[s].tick && (s < i || s == i == 0)
      invariant forall j | 0 <= j < i :: Micros(tv) <= Micros(timers[j].tick)
      invariant forall j | 0 <= j < s :: Micros(tv) < Micros(timers[j].tick)
    {
      LessIsEarlier(timers[i].tick, tv);
      if Less(timers[i].tick, tv) {
        s := i;
        tv := timers[i].tick;
      }
      i := i + 1;
    }
    return Some(s);
  }
}
