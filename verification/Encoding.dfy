/**
 How clients choose an encoding (router/dm.c): raw clients stay raw, the others
 change between HDLC and the newer framing, and a client that sends damaged
 packets is put back on HDLC, by a timer or after too many of them.
 */
module Encoding {
  import opened Bytes
  import opened Timers

  const DIAG_MAX_BAD_CMD: nat := 5
  const RECOVERY_INTERVAL: nat := 200

  datatype EncodeType = Raw | Hdlc | Nhdlc

  class Client {
    /** Whether it was added as an encoded client. */
    const isEncoded: bool
    var encodeType: EncodeType
    var encodeHdlcReset: bool

    /** dm_add() */
    constructor (isEncoded: bool)
      ensures this.isEncoded == isEncoded && encodeType == (if isEncoded then Hdlc else Raw) && !encodeHdlcReset
    {
      this.isEncoded := isEncoded;
      encodeType, encodeHdlcReset := if isEncoded then Hdlc else Raw, false;
    }
  }

  /** How many timers have a callback. */
  function Pending(timers: seq<Timer>, cb: Callback): (n: nat)
    ensures n == 0 <==> forall t | t in timers :: t.cb != cb
    decreases |timers|
  {
    if timers == [] then 0
    else
      assert timers == timers[..|timers| - 1] + [timers[|timers| - 1]];
      Pending(timers[..|timers| - 1], cb) + if timers[|timers| - 1].cb == cb then 1 else 0
  }

  lemma {:induction false} PendingConcat(a: seq<Timer>, b: seq<Timer>, cb: Callback)
    ensures Pending(a + b, cb) == Pending(a, cb) + Pending(b, cb)
    decreases |b|
  {
    if b == [] {
      assert a + b == a;
    } else {
      PendingConcat(a, b[..|b| - 1], cb);
      assert (a + b)[..|a + b| - 1] == a + b[..|b| - 1];
    }
  }

  lemma PendingOne(t: Timer, cb: Callback)
    ensures Pending([t], cb) == if t.cb == cb then 1 else 0
  {
    assert [t][..0] == [];
  }

  /** Replacing one timer by none or by another counts for their callbacks only. */
  lemma PendingSplice(timers: seq<Timer>, k: nat, ts: seq<Timer>, cb: Callback)
    requires k < |timers|
    ensures Pending(timers[..k] + ts + timers[k + 1..], cb)
         == Pending(timers, cb) + Pending(ts, cb) - if timers[k].cb == cb then 1 else 0
  {
    assert timers == timers[..k] + [timers[k]] + timers[k + 1..];
    PendingConcat(timers[..k] + [timers[k]], timers[k + 1..], cb);
    PendingConcat(timers[..k], [timers[k]], cb);
    PendingOne(timers[k], cb);
    PendingConcat(timers[..k] + ts, timers[k + 1..], cb);
    PendingConcat(timers[..k], ts, cb);
  }

  /** What is left of a timer after it fired. */
  function Rearmed(t: Timer, now: Timeval): (ts: seq<Timer>)
    ensures |ts| == if t.repeat then 1 else 0
  {
    if t.repeat then [t.(tick := Plus(now, Interval(t.interval)))] else []
  }

  /** A timer that repeats is due again its interval after the moment it fired; any other is gone. */
  lemma RearmedIs(t: Timer, now: Timeval)
    requires Normal(now)
    ensures !t.repeat ==> Rearmed(t, now) == []
    ensures t.repeat ==>
              var again := Rearmed(t, now);
              && |again| == 1 && again[0] == t.(tick := again[0].tick)
              && Micros(again[0].tick) == Micros(now) + 1000 * t.interval
  {
    IntervalIs(t.interval);
    PlusAdds(now, Interval(t.interval));
  }

  lemma FiredOnce(timers: seq<Timer>, k: nat, later: Timeval)
    requires k < |timers| && AllNormal(timers) && Normal(later)
    ensures var now := timers[..k] + Rearmed(timers[k], later) + timers[k + 1..];
            && AllNormal(now)
            && (forall t | t in now :: t in timers || (timers[k].repeat && t.repeat && t.cb == timers[k].cb))
            && forall cb {:trigger Pending(now, cb)} ::
                 Pending(now, cb) == Pending(timers, cb) - if timers[k].cb == cb && !timers[k].repeat then 1 else 0
  {
    var again := timers[k].(tick := Plus(later, Interval(timers[k].interval)));
    IntervalIs(timers[k].interval);
    PlusAdds(later, Interval(timers[k].interval));
    forall cb
      ensures Pending(timers[..k] + Rearmed(timers[k], later) + timers[k + 1..], cb)
           == Pending(timers, cb) - if timers[k].cb == cb && !timers[k].repeat then 1 else 0
    {
      PendingSplice(timers, k, Rearmed(timers[k], later), cb);
      PendingOne(again, cb);
    }
  }

  class Monitor {
    var clients: seq<Client>
    var timers: seq<Timer>
    var badCmdCounter: nat

    /**
     In every state that the methods below reach: a client is raw if and only
     if it was added so; a client has one pending reset timer when its flag is
     set and none when it is not; such timers do not repeat.
     */
    ghost predicate Valid()
      reads this, clients
    {
      && (forall i, j | 0 <= i < j < |clients| :: clients[i] != clients[j])
      && (forall i | 0 <= i < |clients| :: clients[i].isEncoded <==> clients[i].encodeType != Raw)
      && (forall i | 0 <= i < |clients| :: Pending(timers, ResetClient(i)) == if clients[i].encodeHdlcReset then 1 else 0)
      && (forall t | t in timers && t.cb.ResetClient? :: t.cb.client < |clients| && !t.repeat)
      && AllNormal(timers) && badCmdCounter <= DIAG_MAX_BAD_CMD
    }

    constructor ()
      ensures Valid() && clients == [] && timers == []
    {
      clients, timers, badCmdCounter := [], [], 0;
    }

    method Add(isEncoded: bool) returns (dm: Client)
      requires Valid()
      modifies this`clients
      ensures Valid() && fresh(dm) && clients == old(clients) + [dm] && dm.isEncoded == isEncoded
    {
      dm := new Client(isEncoded);
      assert Pending(timers, ResetClient(|clients|)) == 0;
      clients := clients + [dm];
    }

    /** set_encode_type(): raw clients keep their encoding. */
    method SetEncodeType(encoding: EncodeType)
      requires Valid() && encoding != Raw
      modifies clients
      ensures Valid() && clients == old(clients) && timers == old(timers) && badCmdCounter == old(badCmdCounter)
      ensures forall i | 0 <= i < |clients| ::
        && clients[i].encodeHdlcReset == old(clients[i].encodeHdlcReset)
        && clients[i].encodeType == if clients[i].isEncoded then encoding else Raw
    {
      var i := 0;
      while i < |clients|
        invariant i <= |clients|
        invariant forall j | 0 <= j < |clients| :: clients[j].encodeHdlcReset == old(clients[j].encodeHdlcReset)
        invariant forall j | 0 <= j < i :: clients[j].encodeType == if clients[j].isEncoded then encoding else Raw
        invariant forall j | i <= j < |clients| :: clients[j].encodeType == old(clients[j].encodeType)
      {
        if clients[i].encodeType != Raw {
          clients[i].encodeType := encoding;
        }
        i := i + 1;
      }
    }

    /** diag_hdlc_reset(): every encoded client is put on HDLC, and the one it was for may be recovered again. */
    method HdlcReset(c: nat)
      requires Valid() && c < |clients|
      modifies clients
      ensures clients == old(clients) && timers == old(timers) && badCmdCounter == old(badCmdCounter)
      ensures forall i | 0 <= i < |clients| ::
        && clients[i].encodeType == (if clients[i].isEncoded then Hdlc else Raw)
        && clients[i].encodeHdlcReset == (i != c && old(clients[i].encodeHdlcReset))
    {
      SetEncodeType(Hdlc);
      clients[c].encodeHdlcReset := false;
    }

    /**
     diag_start_hdlc_recovery(): the client gets a timer unless it has one; the
     sixth damaged packet since the last such change, of all clients together,
     puts its sender on HDLC at once.
     */
    method StartHdlcRecovery(c: nat, now: Timeval)
      requires Valid() && Normal(now) && c < |clients| && clients[c].encodeType == Nhdlc
      modifies this`timers, this`badCmdCounter, clients[c]
      ensures Valid() && clients == old(clients) && clients[c].encodeHdlcReset
      ensures if old(badCmdCounter) == 5
              then badCmdCounter == 0 && clients[c].encodeType == Hdlc
              else badCmdCounter == old(badCmdCounter) + 1 && clients[c].encodeType == Nhdlc
      ensures timers == if old(clients[c].encodeHdlcReset) then old(timers)
                        else old(timers) + [Timer(ResetClient(c), RECOVERY_INTERVAL, false, Plus(now, Interval(RECOVERY_INTERVAL)))]
      ensures Micros(Plus(now, Interval(RECOVERY_INTERVAL))) == Micros(now) + 200_000
    {
      IntervalIs(RECOVERY_INTERVAL);
      PlusAdds(now, Interval(RECOVERY_INTERVAL));
      if !clients[c].encodeHdlcReset {
        AddTimer(ResetClient(c), RECOVERY_INTERVAL, false, now);
        clients[c].encodeHdlcReset := true;
      }
      badCmdCounter := badCmdCounter + 1;
      if badCmdCounter > DIAG_MAX_BAD_CMD {
        badCmdCounter := 0;
        clients[c].encodeType := Hdlc;
      }
    }

    /** watch_add_timer() */
    method AddTimer(cb: Callback, interval: nat, repeat: bool, now: Timeval)
      requires Normal(now) && AllNormal(timers)
      modifies this`timers
      ensures AllNormal(timers)
      ensures timers == old(timers) + [Timer(cb, interval, repeat, Plus(now, Interval(interval)))]
      ensures forall c :: Pending(timers, c) == Pending(old(timers), c) + if c == cb then 1 else 0
    {
      IntervalIs(interval);
      PlusAdds(now, Interval(interval));
      var t := Timer(cb, interval, repeat, Plus(now, Interval(interval)));
      forall c ensures Pending(timers + [t], c) == Pending(timers, c) + if c == cb then 1 else 0 {
        PendingConcat(timers, [t], c);
        PendingOne(t, c);
      }
      timers := timers + [t];
    }

    /** A timer fires: its callback runs, and it is set again or freed. */
    method Fire(k: nat, later: Timeval)
      requires Valid() && Normal(later) && k < |timers|
      modifies this`timers, clients
      ensures Valid() && clients == old(clients) && badCmdCounter == old(badCmdCounter)
      ensures timers == old(timers)[..k] + Rearmed(old(timers)[k], later) + old(timers)[k + 1..]
      ensures forall i | 0 <= i < |clients| ::
        && clients[i].encodeHdlcReset == (old(timers)[k].cb != ResetClient(i) && old(clients[i].encodeHdlcReset))
        && clients[i].encodeType == (if !old(timers)[k].cb.ResetClient? then old(clients[i].encodeType)
                                     else if clients[i].isEncoded then Hdlc else Raw)
    {
      var timer := timers[k];
      assert timer in timers;
      FiredOnce(timers, k, later);
      if timer.cb.ResetClient? {
        HdlcReset(timer.cb.client);
      }
      if timer.repeat {
        timers := timers[..k] + [timer.(tick := Plus(later, Interval(timer.interval)))] + timers[k + 1..];
      } else {
        timers := timers[..k] + [] + timers[k + 1..];
      }
    }

    /**
     What watch_run() does about timers in a turn: the timer with the least
     tick bounds the wait, and it fires when the wait ends with nothing ready.
     */
    method Turn(now: Timeval, ready: bool, later: Timeval) returns (timeout: Option<Timeval>, fired: Option<nat>)
      requires Valid() && Normal(now) && Normal(later)
      modifies this`timers, clients
      ensures Valid() && clients == old(clients)
      ensures timeout.Some? <==> old(timers) != []
      ensures timeout.Some? ==> forall t | t in old(timers) :: 0 <= Micros(timeout.value) <= DueIn(t, now)
      ensures timeout.Some? ==> exists t | t in old(timers) :: Micros(timeout.value) == DueIn(t, now)
      ensures fired.Some? <==> !ready && old(timers) != []
      ensures fired.Some? ==>
        && fired.value < |old(timers)|
        && (forall t | t in old(timers) :: Micros(old(timers)[fired.value].tick) <= Micros(t.tick))
        && timers == old(timers)[..fired.value] + Rearmed(old(timers)[fired.value], later) + old(timers)[fired.value + 1..]
      ensures fired.None? ==> timers == old(timers)
      ensures forall i | 0 <= i < |clients| ::
        var reset := fired.Some? && old(timers)[fired.value].cb == ResetClient(i);
        clients[i].encodeHdlcReset == (!reset && old(clients[i].encodeHdlcReset))
      ensures forall i | 0 <= i < |clients| ::
        clients[i].encodeType == if fired.Some? && old(timers)[fired.value].cb.ResetClient?
                                 then (if clients[i].isEncoded then Hdlc else Raw)
                                 else old(clients[i].encodeType)
    {
      var selected := NextTimer(timers);
      if selected.None? {
        return None, None;
      }
      var timer := timers[selected.value];
      timeout, fired := Some(TimeLeft(timer.tick, now)), None;
      TimeLeftClamps(timer.tick, now);
      assert timer in timers && Micros(timeout.value) == DueIn(timer, now);
      if !ready {
        Fire(selected.value, later);
        fired := selected;
      }
    }
  }

  /** How long after a moment a timer is due, in microseconds. */
  function DueIn(t: Timer, now: Timeval): int {
    if Micros(t.tick) > Micros(now) then Micros(t.tick) - Micros(now) else 0
  }
}
