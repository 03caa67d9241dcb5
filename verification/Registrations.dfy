/**
 The life of the routing table: peripherals add entries, withdraw them by exact
 range, and take all of theirs along when they go (router/diag_cntl.c).
 */
module Registrations {
  import opened Bytes
  import opened Router

  datatype Event = Add(cmd: Cmd) | Withdraw(p: nat, first: nat, last: nat) | Close(p: nat)

  predicate Removes(e: Event, c: Cmd) {
    match e
    case Add(_) => false
    case Withdraw(p, first, last) => c.handler == ToPeripheral(p) && c.first == first && c.last == last
    case Close(p) => c.handler == ToPeripheral(p)
  }

  /** The entries that an event does not remove, in order. */
  function Without(cmds: seq<Cmd>, e: Event): seq<Cmd> {
    if cmds == [] then []
    else Without(cmds[..|cmds| - 1], e) + (if Removes(e, cmds[|cmds| - 1]) then [] else [cmds[|cmds| - 1]])
  }

  function After(cmds: seq<Cmd>, e: Event): seq<Cmd> {
    if e.Add? then cmds + [e.cmd] else Without(cmds, e)
  }

  /** The table after a run of events. */
  function Table(cmds: seq<Cmd>, events: seq<Event>): seq<Cmd> {
    if events == [] then cmds else After(Table(cmds, events[..|events| - 1]), events[|events| - 1])
  }

  lemma TableNext(cmds: seq<Cmd>, events: seq<Event>, i: nat)
    requires i < |events|
    ensures Table(cmds, events[..i + 1]) == After(Table(cmds, events[..i]), events[i])
  {
    assert events[..i + 1][..i] == events[..i];
  }

  lemma {:induction false} TableConcat(cmds: seq<Cmd>, a: seq<Event>, b: seq<Event>)
    ensures Table(cmds, a + b) == Table(Table(cmds, a), b)
    decreases |b|
  {
    if b == [] {
      assert a + b == a;
    } else {
      TableConcat(cmds, a, b[..|b| - 1]);
      assert (a + b)[..|a + b| - 1] == a + b[..|b| - 1];
    }
  }

  // ---------------------------------------------------------------- one event, on entries

  /** The entries that are not of a peripheral, in order. */
  function NotOf(p: nat, cmds: seq<Cmd>): seq<Cmd> {
    if cmds == [] then []
    else (if cmds[0].handler == ToPeripheral(p) then [] else [cmds[0]]) + NotOf(p, cmds[1..])
  }

  /** The handlers that are not a peripheral, in order. */
  function HandlersNotOf(p: nat, handlers: seq<Handler>): seq<Handler> {
    if handlers == [] then []
    else (if handlers[0] == ToPeripheral(p) then [] else [handlers[0]]) + HandlersNotOf(p, handlers[1..])
  }

  lemma NotOfOne(p: nat, c: Cmd)
    ensures NotOf(p, [c]) == if c.handler == ToPeripheral(p) then [] else [c]
  {
    assert [c][1..] == [];
  }

  lemma {:induction false} NotOfConcat(p: nat, a: seq<Cmd>, b: seq<Cmd>)
    ensures NotOf(p, a + b) == NotOf(p, a) + NotOf(p, b)
    decreases |a|
  {
    if a == [] {
      assert a + b == b;
    } else {
      NotOfConcat(p, a[1..], b);
      assert (a + b)[1..] == a[1..] + b && (a + b)[0] == a[0];
      ConcatAssociative(if a[0].handler == ToPeripheral(p) then [] else [a[0]], NotOf(p, a[1..]), NotOf(p, b));
    }
  }

  /** A peripheral that closes takes all its entries along, and the entries of all others stay as they are. */
  lemma {:induction false} CloseTakesOwn(cmds: seq<Cmd>, p: nat)
    ensures After(cmds, Close(p)) == NotOf(p, cmds)
    decreases |cmds|
  {
    if cmds != [] {
      var init, c := cmds[..|cmds| - 1], cmds[|cmds| - 1];
      CloseTakesOwn(init, p);
      NotOfOne(p, c);
      NotOfConcat(p, init, [c]);
      assert cmds == init + [c];
    }
  }

  /** How often an entry is in the table after an event that removes. */
  lemma {:induction false} WithoutCounts(cmds: seq<Cmd>, e: Event, c: Cmd)
    ensures multiset(Without(cmds, e))[c] == if Removes(e, c) then 0 else multiset(cmds)[c]
    decreases |cmds|
  {
    if cmds != [] {
      var init, last := cmds[..|cmds| - 1], cmds[|cmds| - 1];
      WithoutCounts(init, e, c);
      assert cmds == init + [last];
      assert multiset(cmds)[c] == multiset(init)[c] + multiset([last])[c];
      var kept := if Removes(e, last) then [] else [last];
      assert multiset(Without(cmds, e))[c] == multiset(Without(init, e))[c] + multiset(kept)[c];
    }
  }

  /** Closing removes every entry of the peripheral, and no copy of any other. */
  lemma CloseCounts(cmds: seq<Cmd>, p: nat, c: Cmd)
    ensures multiset(After(cmds, Close(p)))[c] == if c.handler == ToPeripheral(p) then 0 else multiset(cmds)[c]
    ensures c in After(cmds, Close(p)) <==> c in cmds && c.handler != ToPeripheral(p)
  {
    WithoutCounts(cmds, Close(p), c);
    assert c in cmds <==> multiset(cmds)[c] > 0;
    assert c in After(cmds, Close(p)) <==> multiset(After(cmds, Close(p)))[c] > 0;
  }

  /** A withdrawal removes every entry of the peripheral with just this range, and no copy of any other. */
  lemma WithdrawCounts(cmds: seq<Cmd>, p: nat, first: nat, last: nat, c: Cmd)
    ensures multiset(After(cmds, Withdraw(p, first, last)))[c]
         == if c == Cmd(first, last, ToPeripheral(p)) then 0 else multiset(cmds)[c]
    ensures c in After(cmds, Withdraw(p, first, last)) <==> c in cmds && c != Cmd(first, last, ToPeripheral(p))
  {
    var e := Withdraw(p, first, last);
    WithoutCounts(cmds, e, c);
    assert c in cmds <==> multiset(cmds)[c] > 0;
    assert c in After(cmds, e) <==> multiset(After(cmds, e))[c] > 0;
  }

  lemma {:induction false} NotOfMatches(cmds: seq<Cmd>, p: nat, key: nat)
    ensures AllMatches(NotOf(p, cmds), key) == HandlersNotOf(p, AllMatches(cmds, key))
    decreases |cmds|
  {
    if cmds != [] {
      var c, rest := cmds[0], cmds[1..];
      NotOfMatches(rest, p, key);
      assert cmds == [c] + rest;
      MatchesConcat([c], rest, key);
      MatchesOne(c, key);
      if c.handler != ToPeripheral(p) {
        assert NotOf(p, cmds) == [c] + NotOf(p, rest);
        MatchesConcat([c], NotOf(p, rest), key);
      } else {
        assert NotOf(p, cmds) == NotOf(p, rest);
      }
      HandlersNotOfFirst(p, c.handler, AllMatches(rest, key));
      assert AllMatches(cmds, key) == AllMatches([c], key) + AllMatches(rest, key);
      assert [] + AllMatches(rest, key) == AllMatches(rest, key);
      assert [] + AllMatches(NotOf(p, rest), key) == AllMatches(NotOf(p, rest), key);
    }
  }

  lemma HandlersNotOfFirst(p: nat, h: Handler, more: seq<Handler>)
    ensures HandlersNotOf(p, [h] + more) == (if h == ToPeripheral(p) then [] else [h]) + HandlersNotOf(p, more)
  {
    assert ([h] + more)[1..] == more;
  }

  /** For every key the peripherals that get a request after one has closed are those of before without it, in their order. */
  lemma CloseLeavesOthers(cmds: seq<Cmd>, p: nat, key: nat)
    ensures AllMatches(After(cmds, Close(p)), key) == HandlersNotOf(p, AllMatches(cmds, key))
  {
    CloseTakesOwn(cmds, p);
    NotOfMatches(cmds, p, key);
  }

  // ---------------------------------------------------------------- what survives a run

  predicate RemovedBy(c: Cmd, events: seq<Event>) {
    exists e | e in events :: Removes(e, c)
  }

  /** The entries of a table that no event of a run removes. */
  function Kept(cmds: seq<Cmd>, events: seq<Event>): seq<Cmd> {
    if cmds == [] then []
    else Kept(cmds[..|cmds| - 1], events) + (if RemovedBy(cmds[|cmds| - 1], events) then [] else [cmds[|cmds| - 1]])
  }

  /** The entries a run adds and does not remove later. */
  function Survivors(events: seq<Event>): seq<Cmd>
    decreases |events|
  {
    if events == [] then []
    else (if events[0].Add? && !RemovedBy(events[0].cmd, events[1..]) then [events[0].cmd] else [])
         + Survivors(events[1..])
  }

  lemma {:induction false} WithoutConcat(a: seq<Cmd>, b: seq<Cmd>, e: Event)
    ensures Without(a + b, e) == Without(a, e) + Without(b, e)
    decreases |b|
  {
    if b == [] {
      assert a + b == a;
    } else {
      WithoutConcat(a, b[..|b| - 1], e);
      assert (a + b)[..|a + b| - 1] == a + b[..|b| - 1];
    }
  }

  lemma {:induction false} WithoutAdd(cmds: seq<Cmd>, e: Event)
    requires e.Add?
    ensures Without(cmds, e) == cmds
    decreases |cmds|
  {
    if cmds != [] {
      WithoutAdd(cmds[..|cmds| - 1], e);
      assert cmds == cmds[..|cmds| - 1] + [cmds[|cmds| - 1]];
    }
  }

  lemma RemovedBySnoc(c: Cmd, events: seq<Event>, e: Event)
    ensures RemovedBy(c, events + [e]) <==> RemovedBy(c, events) || Removes(e, c)
  {
    assert forall x :: x in events + [e] <==> x in events || x == e;
  }

  lemma {:induction false} KeptSnoc(cmds: seq<Cmd>, events: seq<Event>, e: Event)
    ensures Kept(cmds, events + [e]) == Without(Kept(cmds, events), e)
    decreases |cmds|
  {
    if cmds != [] {
      var init, c := cmds[..|cmds| - 1], cmds[|cmds| - 1];
      KeptSnoc(init, events, e);
      RemovedBySnoc(c, events, e);
      WithoutConcat(Kept(init, events), if RemovedBy(c, events) then [] else [c], e);
      WithoutOne(c, e);
    }
  }

  lemma WithoutOne(c: Cmd, e: Event)
    ensures Without([c], e) == if Removes(e, c) then [] else [c]
  {
    assert [c][..0] == [];
  }

  lemma {:induction false} SurvivorsSnoc(events: seq<Event>, e: Event)
    ensures Survivors(events + [e]) == Without(Survivors(events), e) + (if e.Add? then [e.cmd] else [])
    decreases |events|
  {
    if events == [] {
      assert !RemovedBy(if e.Add? then e.cmd else Cmd(0, 0, ToPeripheral(0)), []);
      assert [e][1..] == [];
    } else {
      var first := if events[0].Add? && !RemovedBy(events[0].cmd, events[1..]) then [events[0].cmd] else [];
      assert (events + [e])[1..] == events[1..] + [e];
      SurvivorsSnoc(events[1..], e);
      if events[0].Add? {
        RemovedBySnoc(events[0].cmd, events[1..], e);
        WithoutOne(events[0].cmd, e);
      }
      WithoutConcat(first, Survivors(events[1..]), e);
      assert (events + [e])[0] == events[0];
      ConcatAssociative(Without(first, e), Without(Survivors(events[1..]), e), if e.Add? then [e.cmd] else []);
    }
  }

  lemma {:induction false} KeptNone(cmds: seq<Cmd>)
    ensures Kept(cmds, []) == cmds
    decreases |cmds|
  {
    if cmds != [] {
      KeptNone(cmds[..|cmds| - 1]);
      assert cmds == cmds[..|cmds| - 1] + [cmds[|cmds| - 1]];
    }
  }

  lemma AfterConcat(a: seq<Cmd>, b: seq<Cmd>, e: Event)
    ensures After(a + b, e) == Without(a, e) + (Without(b, e) + (if e.Add? then [e.cmd] else []))
  {
    if e.Add? {
      WithoutAdd(a, e);
      WithoutAdd(b, e);
    } else {
      WithoutConcat(a, b, e);
    }
  }

  /** A run keeps what it does not remove of the table, in order, and then what it adds and does not remove later. */
  lemma {:induction false} TableIsSurvivors(cmds: seq<Cmd>, events: seq<Event>)
    ensures Table(cmds, events) == Kept(cmds, events) + Survivors(events)
    decreases |events|
  {
    if events == [] {
      KeptNone(cmds);
    } else {
      var init, e := events[..|events| - 1], events[|events| - 1];
      assert events == init + [e];
      TableIsSurvivors(cmds, init);
      KeptSnoc(cmds, init, e);
      SurvivorsSnoc(init, e);
      AfterConcat(Kept(cmds, init), Survivors(init), e);
    }
  }

  // ---------------------------------------------------------------- routing over a run

  /** The i-th event registers an entry that covers a key and is still in the table at the end of the run. */
  predicate LiveAt(events: seq<Event>, i: nat, key: nat)
    requires i < |events|
  {
    events[i].Add? && Covers(events[i].cmd, key) && forall j | i < j < |events| :: !Removes(events[j], events[i].cmd)
  }

  predicate Increasing(s: seq<nat>) { forall i, j | 0 <= i < j < |s| :: s[i] < s[j] }

  /** When the live registrations from the i-th event on took place. */
  function LivePositions(events: seq<Event>, key: nat, i: nat): (positions: seq<nat>)
    requires i <= |events|
    ensures Increasing(positions)
    ensures forall p :: p in positions <==> i <= p < |events| && LiveAt(events, p, key)
    decreases |events| - i
  {
    if i == |events| then []
    else
      var later := LivePositions(events, key, i + 1);
      assert forall k | 0 <= k < |later| :: later[k] in later && i < later[k];
      if LiveAt(events, i, key) then [i] + later else later
  }

  function HandlersAt(events: seq<Event>, positions: seq<nat>): seq<Handler>
    requires forall p | p in positions :: p < |events| && events[p].Add?
  {
    seq(|positions|, k requires 0 <= k < |positions| =>
      assert positions[k] in positions;
      events[positions[k]].cmd.handler)
  }

  lemma {:induction false} MatchesConcat(a: seq<Cmd>, b: seq<Cmd>, key: nat)
    ensures AllMatches(a + b, key) == AllMatches(a, key) + AllMatches(b, key)
    decreases |b|
  {
    if b == [] {
      assert a + b == a;
    } else {
      MatchesConcat(a, b[..|b| - 1], key);
      assert (a + b)[..|a + b| - 1] == a + b[..|b| - 1];
    }
  }

  lemma MatchesOne(c: Cmd, key: nat)
    ensures AllMatches([c], key) == if Covers(c, key) then [c.handler] else []
  {
    assert [c][..0] == [];
  }

  lemma LiveIsSurviving(events: seq<Event>, i: nat, key: nat)
    requires i < |events|
    ensures LiveAt(events, i, key) <==>
      events[i].Add? && Covers(events[i].cmd, key) && !RemovedBy(events[i].cmd, events[i + 1..])
  {
    if events[i].Add? && Covers(events[i].cmd, key) {
      var c := events[i].cmd;
      if !LiveAt(events, i, key) {
        var j :| i < j < |events| && Removes(events[j], c);
        assert events[j] == events[i + 1..][j - i - 1] && events[j] in events[i + 1..];
      }
    }
  }

  lemma HandlersCons(events: seq<Event>, i: nat, later: seq<nat>)
    requires forall p | p in [i] + later :: p < |events| && events[p].Add?
    ensures i < |events| && events[i].Add?
    ensures forall p | p in later :: p < |events| && events[p].Add?
    ensures HandlersAt(events, [i] + later) == [events[i].cmd.handler] + HandlersAt(events, later)
  {
    assert i in [i] + later;
    assert forall p | p in later :: p in [i] + later;
  }

  lemma SurvivorsStep(events: seq<Event>, i: nat, key: nat, rest: seq<Event>)
    requires i < |events| && rest == events[i + 1..]
    ensures AllMatches(Survivors(events[i..]), key)
         == (if LiveAt(events, i, key) then [events[i].cmd.handler] else []) + AllMatches(Survivors(rest), key)
  {
    assert events[i..][1..] == rest;
    LiveIsSurviving(events, i, key);
    var first := if events[i].Add? && !RemovedBy(events[i].cmd, rest) then [events[i].cmd] else [];
    if first != [] { MatchesOne(events[i].cmd, key); }
    MatchesConcat(first, Survivors(rest), key);
  }

  lemma {:induction false} SurvivorsMatch(events: seq<Event>, i: nat, key: nat)
    requires i <= |events|
    ensures AllMatches(Survivors(events[i..]), key) == HandlersAt(events, LivePositions(events, key, i))
    decreases |events| - i
  {
    if i < |events| {
      SurvivorsStep(events, i, key, events[i + 1..]);
      SurvivorsMatch(events, i + 1, key);
      if LiveAt(events, i, key) { HandlersCons(events, i, LivePositions(events, key, i + 1)); }
    }
  }

  /**
   Routing over whole runs. After any run of registrations, withdrawals and
   closings, a request goes to the first common command that covers it alone;
   or else once to each registration that covers it and is still standing, in
   the order they were made; or else to the first fallback.
   */
  lemma RouteOverRun(common: seq<Cmd>, events: seq<Event>, fallback: seq<Cmd>, key: nat)
    ensures Route(common, Table([], events), fallback, key)
         == var positions := LivePositions(events, key, 0);
            if FirstMatch(common, key).Some? then [FirstMatch(common, key).value]
            else if positions != [] then HandlersAt(events, positions)
            else if FirstMatch(fallback, key).Some? then [FirstMatch(fallback, key).value]
            else []
  {
    TableIsSurvivors([], events);
    assert Kept([], events) == [];
    assert events[0..] == events;
    SurvivorsMatch(events, 0, key);
    assert Table([], events) == Survivors(events);
  }

  /**
   After any run, a request that no common command, standing registration or
   fallback covers goes nowhere, and its client is told with code 0x13.
   */
  lemma UnroutedOverRun(common: seq<Cmd>, events: seq<Event>, fallback: seq<Cmd>, key: nat, results: Handler -> int)
    requires forall c | c in common + fallback :: !Covers(c, key)
    requires forall i | 0 <= i < |events| :: !LiveAt(events, i, key)
    ensures Route(common, Table([], events), fallback, key) == []
    ensures ErrorCode(Status(common, Table([], events), fallback, key, results)) == Some(0x13)
  {
    RouteOverRun(common, events, fallback, key);
    var positions := LivePositions(events, key, 0);
    assert positions == [] || positions[0] in positions;
    FirstMatchIn(common, key);
    FirstMatchIn(fallback, key);
    UnroutedIsBadCommand(common, Table([], events), fallback, key, results);
  }

  // ---------------------------------------------------------------- registering and withdrawing the same ranges

  /** The keys of a registration, first and last. */
  datatype KeyRange = KeyRange(first: nat, last: nat)

  function Adds(p: nat, spans: seq<KeyRange>): (events: seq<Event>)
    ensures |events| == |spans|
  {
    seq(|spans|, i requires 0 <= i < |spans| => Add(Cmd(spans[i].first, spans[i].last, ToPeripheral(p))))
  }

  function Withdrawals(p: nat, spans: seq<KeyRange>): (events: seq<Event>)
    ensures |events| == |spans|
  {
    seq(|spans|, i requires 0 <= i < |spans| => Withdraw(p, spans[i].first, spans[i].last))
  }

  predicate Holds(cmds: seq<Cmd>, p: nat, span: KeyRange) {
    Cmd(span.first, span.last, ToPeripheral(p)) in cmds
  }

  lemma RemovedByWithdrawals(c: Cmd, p: nat, spans: seq<KeyRange>)
    ensures RemovedBy(c, Withdrawals(p, spans)) <==> c.handler == ToPeripheral(p) && KeyRange(c.first, c.last) in spans
  {
    var events := Withdrawals(p, spans);
    if c.handler == ToPeripheral(p) && KeyRange(c.first, c.last) in spans {
      var i :| 0 <= i < |spans| && spans[i] == KeyRange(c.first, c.last);
      assert events[i] in events && Removes(events[i], c);
    }
    if RemovedBy(c, events) {
      var i :| 0 <= i < |events| && Removes(events[i], c);
      assert spans[i] == KeyRange(c.first, c.last);
    }
  }

  lemma {:induction false} KeptAll(cmds: seq<Cmd>, events: seq<Event>)
    requires forall c | c in cmds :: !RemovedBy(c, events)
    ensures Kept(cmds, events) == cmds
    decreases |cmds|
  {
    if cmds != [] {
      var init, c := cmds[..|cmds| - 1], cmds[|cmds| - 1];
      assert c in cmds;
      KeptAll(init, events);
      assert cmds == init + [c];
    }
  }

  lemma {:induction false} KeptSome(cmds: seq<Cmd>, events: seq<Event>)
    ensures forall c | c in Kept(cmds, events) :: !RemovedBy(c, events)
    decreases |cmds|
  {
    if cmds != [] {
      KeptSome(cmds[..|cmds| - 1], events);
    }
  }

  lemma {:induction false} AllWithdrawn(p: nat, spans: seq<KeyRange>, gone: seq<KeyRange>)
    requires forall s | s in spans :: s in gone
    ensures Survivors(Adds(p, spans) + Withdrawals(p, gone)) == []
    decreases |spans|
  {
    var events := Adds(p, spans) + Withdrawals(p, gone);
    if spans == [] {
      NoSurvivors(p, gone);
      assert events == Withdrawals(p, gone);
    } else {
      assert events[1..] == Adds(p, spans[1..]) + Withdrawals(p, gone);
      AllWithdrawn(p, spans[1..], gone);
      var c := events[0].cmd;
      RemovedByWithdrawals(c, p, gone);
      assert spans[0] in gone;
      var e :| e in Withdrawals(p, gone) && Removes(e, c);
      assert e in events[1..];
    }
  }

  lemma {:induction false} NoSurvivors(p: nat, spans: seq<KeyRange>)
    ensures Survivors(Withdrawals(p, spans)) == []
    decreases |spans|
  {
    if spans != [] {
      assert Withdrawals(p, spans)[1..] == Withdrawals(p, spans[1..]);
      NoSurvivors(p, spans[1..]);
    }
  }

  lemma RemovedByBoth(c: Cmd, p: nat, spans: seq<KeyRange>)
    ensures RemovedBy(c, Adds(p, spans) + Withdrawals(p, spans)) <==> RemovedBy(c, Withdrawals(p, spans))
  {
    var adds, all := Adds(p, spans), Adds(p, spans) + Withdrawals(p, spans);
    assert forall e :: e in all <==> e in adds || e in Withdrawals(p, spans);
    assert forall e | e in adds :: !Removes(e, c);
  }

  /**
   Registering ranges and then withdrawing them gives back the table exactly
   when it held none of them: the withdrawal also takes any older entry of the
   same peripheral with the same range.
   */
  lemma RestoresIffNew(cmds: seq<Cmd>, p: nat, spans: seq<KeyRange>)
    ensures Table(cmds, Adds(p, spans) + Withdrawals(p, spans)) == cmds
       <==> forall s | s in spans :: !Holds(cmds, p, s)
  {
    var events := Adds(p, spans) + Withdrawals(p, spans);
    TableIsSurvivors(cmds, events);
    AllWithdrawn(p, spans, spans);
    if s :| s in spans && Holds(cmds, p, s) {
      WithdrawnAnyway(Cmd(s.first, s.last, ToPeripheral(p)), p, spans);
      KeptSome(cmds, events);
    } else {
      forall c | c in cmds ensures !RemovedBy(c, events) {
        WithdrawnAnyway(c, p, spans);
      }
      KeptAll(cmds, events);
    }
  }

  lemma WithdrawnAnyway(c: Cmd, p: nat, spans: seq<KeyRange>)
    ensures RemovedBy(c, Adds(p, spans) + Withdrawals(p, spans))
       <==> c.handler == ToPeripheral(p) && KeyRange(c.first, c.last) in spans
  {
    RemovedByBoth(c, p, spans);
    RemovedByWithdrawals(c, p, spans);
  }

  /** A peripheral that has closed is sent nothing, whatever happened before. */
  lemma ClosedGetsNothing(common: seq<Cmd>, events: seq<Event>, fallback: seq<Cmd>, p: nat, key: nat)
    requires forall c | c in common + fallback :: c.handler.Callback?
    ensures ToPeripheral(p) !in Route(common, Table([], events + [Close(p)]), fallback, key)
  {
    var run := events + [Close(p)];
    RouteOverRun(common, run, fallback, key);
    var positions := LivePositions(run, key, 0);
    forall k | 0 <= k < |positions|
      ensures HandlersAt(run, positions)[k] != ToPeripheral(p)
    {
      assert positions[k] in positions && LiveAt(run, positions[k], key);
      assert run[|events|] == Close(p);
    }
    FirstMatchIn(common, key);
    FirstMatchIn(fallback, key);
  }

  lemma {:induction false} FirstMatchIn(cmds: seq<Cmd>, key: nat)
    ensures FirstMatch(cmds, key).Some? ==>
      exists c | c in cmds :: Covers(c, key) && c.handler == FirstMatch(cmds, key).value
    decreases |cmds|
  {
    if cmds != [] {
      if Covers(cmds[0], key) { assert cmds[0] in cmds; } else { FirstMatchIn(cmds[1..], key); }
    }
  }
}
