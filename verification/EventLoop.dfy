/**
 The event loop as the program runs it: lists and counters updated in place by
 the functions of router/watch.c, router/dm.c and router/diag.c. Each method is
 proved to do the step of module Watch it stands for, and each loop to be a run
 of such steps, so what holds in every run holds here.
 */
module EventLoop {
  import opened Bytes
  import opened Watch
  import opened Delivery

  /** What io_getevents() reports: the descriptor of a finished write and its result. */
  datatype Event = Event(fd: int, res: int)

  ghost predicate DistinctEvents(events: seq<Event>) {
    forall i, j | 0 <= i < j < |events| :: events[i].fd != events[j].fd
  }

  /** The result reported for a descriptor, if any. */
  function ResultFor(events: seq<Event>, fd: int): (r: Option<int>)
    ensures r.None? <==> forall j | 0 <= j < |events| :: events[j].fd != fd
    ensures r.Some? ==> Event(fd, r.value) in events
  {
    if events == [] then None
    else if events[|events| - 1].fd == fd then Some(events[|events| - 1].res)
    else ResultFor(events[..|events| - 1], fd)
  }

  class EventLoop {
    ghost const frames: nat
    var packets: map<nat, nat>
    var queues: seq<seq<Mbuf>>
    var aio: seq<AioWatch>
    var readers: seq<ReadWatch>
    var armed: set<int>
    var clients: seq<Client>
    ghost var kernel: map<int, Mbuf>
    ghost var pushed: seq<seq<Mbuf>>
    ghost var left: seq<seq<Mbuf>>
    ghost var orphans: seq<Mbuf>

    ghost function View(): Loop
      reads this
    {
      Loop(packets, queues, aio, readers, armed, clients, kernel, pushed, left, orphans)
    }

    ghost predicate Valid()
      reads this
    {
      Inv(View(), frames)
    }

    constructor (ghost frames: nat)
      ensures Valid() && View() == START && this.frames == frames
    {
      this.frames := frames;
      packets, queues, aio, readers, armed, clients := map[], [], [], [], {}, [];
      kernel, pushed, left, orphans := map[], [], [], [];
      new;
      StartInv(frames);
    }

    // -------------------------------------------------------------- flows and queues

    method IncFlow(flow: Option<nat>)
      modifies this`packets
      ensures packets == FlowInc(old(packets), flow)
    {
      if flow.None? {
        return;
      }
      packets := packets[flow.value := PacketsOf(packets, flow.value) + 1];
    }

    /** watch_flow_dec(), with whether it complained. */
    method DecFlow(flow: Option<nat>) returns (unbalanced: bool)
      modifies this`packets
      ensures packets == FlowDec(old(packets), flow)
      ensures unbalanced <==> flow.Some? && PacketsOf(old(packets), flow.value) == 0
    {
      if flow.None? {
        return false;
      }
      if PacketsOf(packets, flow.value) == 0 {
        return true;
      }
      packets := packets[flow.value := PacketsOf(packets, flow.value) - 1];
      return false;
    }

    method QueuePushFlow(q: nat, msg: seq<byte>, flow: Option<nat>)
      requires q < |queues| == |pushed|
      modifies this
      ensures View() == Push(old(View()), q, Mbuf(flow, msg))
    {
      IncFlow(flow);
      queues := queues[q := queues[q] + [Mbuf(flow, msg)]];
      pushed := pushed[q := pushed[q] + [Mbuf(flow, msg)]];
    }

    method DmSendFlow(c: nat, payload: seq<byte>, flow: Option<nat>)
      requires ClientsOk(View()) && c < |clients|
      modifies this
      ensures View() == SendFlow(old(View()), c, payload, flow)
    {
      if !clients[c].enabled {
        return;
      }
      QueuePushFlow(clients[c].queue, Wire(clients[c].encoding, payload), flow);
    }

    /** dm_broadcast(): every client in turn. */
    method DmBroadcast(payload: seq<byte>, flow: Option<nat>)
      requires ClientsOk(View())
      modifies this
      ensures View() == Broadcast(old(View()), |old(clients)|, payload, flow)
      ensures OwnQueues(clients) ==> Reached(old(View()), View(), [payload], flow)
    {
      ghost var start := View();
      var c := 0;
      while c < |clients|
        invariant c <= |clients| == |old(clients)| && ClientsOk(View())
        invariant View() == Broadcast(old(View()), c, payload, flow)
      {
        DmSendFlow(c, payload, flow);
        c := c + 1;
      }
      if OwnQueues(clients) {
        BroadcastReaches(start, payload, flow);
      }
    }

    // -------------------------------------------------------------- submitting writes

    /** watch_submit_aio(); accepted is whether io_submit() took the write. */
    method SubmitAio(i: nat, accepted: bool)
      requires Valid() && i < |aio| && aio[i].pending.None?
      modifies this
      ensures Valid() && |aio| == |old(aio)|
      ensures View() == if old(queues)[old(aio)[i].queue] == [] then old(View()) else Submit(old(View()), i, accepted)
    {
      assert aio[i].pending.None?;
      var w := aio[i];
      if queues[w.queue] == [] {
        return;
      }
      StepKeeps(View(), DoSubmit(i, accepted), frames);
      if accepted {
        var mbuf := queues[w.queue][0];
        queues := queues[w.queue := queues[w.queue][1..]];
        aio := aio[i := w.(pending := Some(mbuf))];
        kernel := kernel[w.fd := mbuf];
      }
    }

    /**
     The submitting loop of watch_run(): each watch with something queued and
     nothing pending submits, as accepts says; the others stay as they were.
     */
    method SubmitAll(accepts: seq<bool>)
      requires Valid() && |accepts| == |aio|
      modifies this
      ensures SubmitsSoFar(old(View()), View(), accepts, |accepts|, frames)
    {
      ghost var start := View();
      ghost var kept := SubmitsKept(start, accepts, frames);
      SubmitLoop(accepts, kept);
    }

    /** The loop itself, with whatever its turns keep. */
    method SubmitLoop(accepts: seq<bool>, ghost kept: (Loop, nat) -> bool)
      requires kept(View(), 0)
      requires forall t, i | kept(t, i) :: SubmitGoesOn(t, i, accepts, kept, frames)
      modifies this
      ensures kept(View(), |accepts|)
    {
      var i := 0;
      while i < |aio|
        invariant i <= |accepts| && kept(View(), i)
      {
        assert SubmitGoesOn(View(), i, accepts, kept, frames);
        if queues[aio[i].queue] != [] && aio[i].pending.None? {
          SubmitAio(i, accepts[i]);
        }
        i := i + 1;
      }
      assert SubmitGoesOn(View(), i, accepts, kept, frames);
    }

    // -------------------------------------------------------------- completions

    /** An event of watch i; the assertion of watch_handle_eventfd() and the flow counter both hold. */
    method HandleEvent(i: nat, res: int)
      requires Valid() && i < |aio| && aio[i].fd in kernel
      modifies this
      ensures Valid() && old(aio)[i].pending.Some?
      ensures View() == Complete(old(View()), i, res)
    {
      var w := aio[i];
      EventFindsItsPacket(View(), i, frames);
      StepKeeps(View(), DoComplete(i, res), frames);
      assert w.pending.Some?;
      kernel := kernel - {w.fd};
      if res == -EAGAIN {
        return;
      }
      var unbalanced := DecFlow(w.pending.value.flow);
      assert !unbalanced;
      left := left[w.queue := left[w.queue] + [w.pending.value]];
      aio := aio[i := w.(pending := None)];
    }

    /** The inner loop of watch_handle_eventfd(), for one watch. */
    method HandleWatch(i: nat, events: seq<Event>)
      requires Valid() && i < |aio| && DistinctEvents(events)
      requires ResultFor(events, aio[i].fd).Some? ==> aio[i].fd in kernel
      modifies this
      ensures Valid() && View() == EventNext(old(View()), i, events)
    {
      ghost var fd := aio[i].fd;
      var j := 0;
      assert events[..0] == [];
      while j < |events|
        invariant j <= |events| && Valid() && |aio| == |old(aio)| && aio[i].fd == fd
        invariant var r := ResultFor(events[..j], fd);
                  if r.None? then View() == old(View())
                  else old(aio)[i].pending.Some? && View() == Complete(old(View()), i, r.value)
      {
        assert events[..j + 1][..j] == events[..j];
        if events[j].fd == aio[i].fd {
          assert ResultFor(events[..j], fd).None?;
          assert ResultFor(events, fd).Some?;
          HandleEvent(i, events[j].res);
        }
        j := j + 1;
      }
      assert events[..|events|] == events;
    }

    /**
     watch_handle_eventfd(): each watch in list order takes the event of its
     write, if there is one. Events of writes whose watch was removed match no
     watch. Afterwards exactly the reported writes are no longer outstanding.
     */
    method HandleEventfd(events: seq<Event>) returns (ghost acts: seq<Action>)
      requires Valid() && DistinctEvents(events)
      requires forall j | 0 <= j < |events| :: events[j].fd in kernel
      modifies this
      ensures Ran(old(View()), View(), acts, frames)
      ensures var done := EventActs(old(View()), events, |old(aio)|);
              done <= acts && forall a | a in acts[|done|..] :: a.DoOrphanEvent?
      ensures Handled(old(View()), View(), |aio|, events)
      ensures forall j | 0 <= j < |events| :: events[j].fd !in kernel
    {
      ghost var start, count := View(), |aio|;
      ghost var kept := EventsKept(start, events, frames);
      EventsLoop(events, count, kept);
      ghost var u;
      u, acts := OrphanEvents(start, View(), EventActs(start, events, count), events, |events|, frames);
      kernel := u.kernel;
    }

    /** The loop itself, with whatever its turns keep. */
    method EventsLoop(events: seq<Event>, ghost count: nat, ghost kept: (Loop, nat) -> bool)
      requires DistinctEvents(events) && kept(View(), 0)
      requires forall t, i | kept(t, i) :: EventsGoOn(t, i, events, count, kept, frames)
      modifies this
      ensures kept(View(), count)
    {
      var i := 0;
      while i < |aio|
        invariant kept(View(), i)
        decreases count - i
      {
        assert EventsGoOn(View(), i, events, count, kept, frames);
        HandleWatch(i, events);
        i := i + 1;
      }
      assert EventsGoOn(View(), i, events, count, kept, frames);
      assert i == count;
    }

    // -------------------------------------------------------------- readers

    /** The arming loop of watch_run(): readers of blocked flows are skipped. */
    method PollReaders()
      requires Valid()
      modifies this`armed
      ensures Valid() && View() == Poll(old(View()))
      ensures forall r | r in readers ::
        r.fd in armed <==> (r.flow.None? || PacketsOf(packets, r.flow.value) <= 10)
    {
      PollArms(View());
      StepKeeps(View(), DoPoll, frames);
      var rfds := {};
      for i := 0 to |readers|
        invariant rfds == set r | r in readers[..i] && !FlowBlocked(packets, r.flow) :: r.fd
      {
        assert readers[..i + 1] == readers[..i] + [readers[i]];
        if !FlowBlocked(packets, readers[i].flow) {
          rfds := rfds + {readers[i].fd};
        }
      }
      assert readers[..|readers|] == readers;
      armed := rfds;
    }

    /**
     The callback loop of watch_run(). ready is what select() found among the
     armed descriptors; for each reader, what its callback would broadcast and
     whether it asks to be dropped. Each ready reader is served once, in order,
     and dropped if it asks for it; the others are not touched.
     */
    method RunCallbacks(ready: set<int>, broadcasts: seq<seq<seq<byte>>>, drops: seq<bool>)
      returns (ghost acts: seq<Action>)
      requires Valid() && ready <= armed
      requires |broadcasts| == |drops| == |readers| && forall b | b in broadcasts :: |b| <= frames
      modifies this
      ensures Ran(old(View()), View(), acts, frames)
      ensures acts == ServeActs(old(readers), ready, broadcasts, drops, |broadcasts|)
      ensures readers == KeptReaders(old(readers), ready, drops, |broadcasts|)
      ensures armed == old(armed) - ServedFds(old(readers), ready, |broadcasts|)
      ensures OwnQueues(clients) ==> ClientsSent(old(View()), View(), ReadyBroadcasts(old(readers), ready, broadcasts, 0))
    {
      ghost var start, v := View(), Service(ready, broadcasts, drops);
      ghost var kept := ServiceKept(start, v, frames);
      var i, turn := CallbackLoop(ready, broadcasts, drops, v, kept);
      acts := ServiceEnds(start, View(), v, turn, i, frames);
      AllAreSent(start, View(), acts, ready, broadcasts, drops, frames);
    }

    /** The loop itself, with whatever its turns keep. */
    method CallbackLoop(ready: set<int>, broadcasts: seq<seq<seq<byte>>>, drops: seq<bool>, ghost v: Service,
                        ghost kept: (Loop, nat, nat) -> bool) returns (i: nat, turn: nat)
      requires v == Service(ready, broadcasts, drops) && kept(View(), 0, 0)
      requires forall t, turn, i | kept(t, turn, i) :: ServiceGoesOn(t, turn, i, v, kept, frames)
      modifies this
      ensures kept(View(), turn, i) && i >= |readers|
    {
      i, turn := 0, 0;
      while i < |readers|
        invariant kept(View(), turn, i)
        decreases |broadcasts| - turn
      {
        ghost var t := View();
        assert ServiceGoesOn(t, turn, i, v, kept, frames);
        var served := readers[i].fd in ready;
        if served {
          Serve(i, broadcasts[turn], drops[turn]);
        }
        if !(served && drops[turn]) {
          i := i + 1;
        }
        turn := turn + 1;
      }
    }

    /** One ready reader: its callback, and its removal if the callback asks for it. */
    method Serve(i: nat, payloads: seq<seq<byte>>, drop: bool)
      requires Valid() && i < |readers| && readers[i].fd in armed && |payloads| <= frames
      modifies this
      ensures |old(View()).readers| == |Callback(old(View()), i, payloads).readers|
      ensures View() == if drop then Dropped(Callback(old(View()), i, payloads), i) else Callback(old(View()), i, payloads)
    {
      RunCallback(i, payloads);
      if drop {
        readers := readers[..i] + readers[i + 1..];
      }
    }

    /** A callback that broadcasts its frames one after another. */
    method RunCallback(r: nat, payloads: seq<seq<byte>>)
      requires Valid() && r < |readers| && readers[r].fd in armed && |payloads| <= frames
      modifies this
      ensures Valid() && View() == Callback(old(View()), r, payloads)
      ensures readers == old(readers) && armed == old(armed) - {readers[r].fd}
      ensures OwnQueues(clients) ==> Reached(old(View()), View(), payloads, readers[r].flow)
    {
      ghost var start := View();
      StepKeeps(View(), DoCallback(r, payloads), frames);
      armed := armed - {readers[r].fd};
      BroadcastFrames(payloads, readers[r].flow);
      if OwnQueues(clients) {
        CallbackReaches(start, r, payloads);
      }
    }

    method BroadcastFrames(payloads: seq<seq<byte>>, flow: Option<nat>)
      requires ClientsOk(View())
      modifies this
      ensures View() == BroadcastAll(old(View()), payloads, flow)
    {
      ghost var start := View();
      var j := 0;
      while j < |payloads|
        invariant j <= |payloads| && ClientsOk(View()) && clients == start.clients
        invariant View() == BroadcastAll(start, payloads[..j], flow)
      {
        BroadcastOneMore(start, payloads, j, flow);
        DmBroadcast(payloads[j], flow);
        j := j + 1;
      }
      assert payloads[..|payloads|] == payloads;
    }

    /** watch_remove_fd(): every watch of a descriptor goes, whatever is pending on it. */
    method RemoveFd(fd: int) returns (ghost acts: seq<Action>)
      requires Valid()
      modifies this
      ensures Ran(old(View()), View(), acts, frames) && Removals(acts)
      ensures readers == WithoutReader(old(readers), fd) && aio == WithoutWatch(old(aio), fd)
      ensures packets == old(packets) && queues == old(queues) && kernel == old(kernel)
    {
      ghost var start := View();
      acts := RemoveReaders(fd);
      RanReaches(start, View(), acts, frames);
      ghost var middle := View();
      ghost var more := RemoveWriteq(fd);
      RanTwice(start, middle, View(), acts, more, frames);
      acts := acts + more;
    }

    /** The first loop of watch_remove_fd(). */
    method RemoveReaders(fd: int) returns (ghost acts: seq<Action>)
      requires Valid()
      modifies this`readers
      ensures Ran(old(View()), View(), acts, frames) && Removals(acts)
      ensures readers == WithoutReader(old(readers), fd)
    {
      ghost var start := View();
      ghost var kept := ReadersKept(start, fd, frames);
      var i := ReaderLoop(fd, kept);
      acts := ReadersEnd(start, View(), fd, i, frames);
    }

    /** The loop itself, with whatever its turns keep. */
    method ReaderLoop(fd: int, ghost kept: (Loop, nat) -> bool) returns (i: nat)
      requires kept(View(), 0)
      requires forall t, i | kept(t, i) :: ReadersGoOn(t, fd, i, kept)
      modifies this`readers
      ensures kept(View(), i) && i >= |readers|
    {
      i := 0;
      while i < |readers|
        invariant kept(View(), i)
        decreases |readers| - i
      {
        assert ReadersGoOn(View(), fd, i, kept);
        if readers[i].fd == fd {
          readers := readers[..i] + readers[i + 1..];
        } else {
          i := i + 1;
        }
      }
    }

    /** The second loop of watch_remove_fd(), which also is watch_remove_writeq(). */
    method RemoveWriteq(fd: int) returns (ghost acts: seq<Action>)
      requires Valid()
      modifies this`aio, this`orphans, this`left
      ensures Ran(old(View()), View(), acts, frames) && Removals(acts)
      ensures aio == WithoutWatch(old(aio), fd)
    {
      ghost var start := View();
      ghost var kept := WatchesKept(start, fd, frames);
      var i := WatchLoop(fd, kept);
      acts := WatchesEnd(start, View(), fd, i, frames);
    }

    /** The loop itself, with whatever its turns keep. */
    method WatchLoop(fd: int, ghost kept: (Loop, nat) -> bool) returns (i: nat)
      requires kept(View(), 0)
      requires forall t, i | kept(t, i) :: WatchesGoOn(t, fd, i, kept, frames)
      modifies this`aio, this`orphans, this`left
      ensures kept(View(), i) && i >= |aio|
    {
      i := 0;
      while i < |aio|
        invariant kept(View(), i)
        decreases |aio| - i
      {
        assert WatchesGoOn(View(), fd, i, kept, frames);
        if aio[i].fd == fd {
          DropWatch(i);
        } else {
          i := i + 1;
        }
      }
    }

    /** Takes one write watch off the list. */
    method DropWatch(i: nat)
      requires i < |aio| && aio[i].queue < |left|
      modifies this`aio, this`orphans, this`left
      ensures View() == RemoveAio(old(View()), i)
    {
      var w := aio[i];
      if w.pending.Some? {
        orphans := orphans + [w.pending.value];
        left := left[w.queue := left[w.queue] + [w.pending.value]];
      }
      aio := aio[..i] + aio[i + 1..];
    }
  }

  // ---------------------------------------------------------------- runs, one step at a time

  /** Steps that only remove watches. */
  predicate Removals(acts: seq<Action>) { forall a | a in acts :: a.DoRemoveRead? || a.DoRemoveAio? }

  lemma MoreRemovals(acts: seq<Action>, a: Action)
    requires Removals(acts) && (a.DoRemoveRead? || a.DoRemoveAio?)
    ensures Removals(acts + [a])
  {
  }

  /** The readers before the i-th were looked at. */
  ghost predicate ReadersSoFar(s: Loop, t: Loop, fd: int, i: nat, frames: nat) {
    && i <= |t.readers| && t == s.(readers := t.readers)
    && WithoutReader(s.readers, fd) == t.readers[..i] + WithoutReader(t.readers[i..], fd)
    && exists acts :: Ran(s, t, acts, frames) && Removals(acts)
  }

  ghost predicate ReadersGoOn(t: Loop, fd: int, i: nat, kept: (Loop, nat) -> bool) {
    i < |t.readers| ==> if t.readers[i].fd == fd then kept(Dropped(t, i), i) else kept(t, i + 1)
  }

  lemma ReadersStart(s: Loop, fd: int, frames: nat)
    requires Inv(s, frames)
    ensures ReadersSoFar(s, s, fd, 0, frames)
  {
    assert s.readers[0..] == s.readers && Ran(s, s, [], frames) && Removals([]);
  }

  lemma ReadersEnd(s: Loop, t: Loop, fd: int, i: nat, frames: nat) returns (acts: seq<Action>)
    requires ReadersSoFar(s, t, fd, i, frames) && i >= |t.readers|
    ensures Ran(s, t, acts, frames) && Removals(acts) && t.readers == WithoutReader(s.readers, fd)
  {
    acts :| Ran(s, t, acts, frames) && Removals(acts);
  }

  lemma ReaderTurn(s: Loop, t: Loop, fd: int, i: nat, frames: nat)
    requires ReadersSoFar(s, t, fd, i, frames)
    ensures i < |t.readers| ==>
              if t.readers[i].fd == fd then ReadersSoFar(s, Dropped(t, i), fd, i, frames)
              else ReadersSoFar(s, t, fd, i + 1, frames)
  {
    if i < |t.readers| {
      ReaderStep(t.readers, i, fd);
      var acts :| Ran(s, t, acts, frames) && Removals(acts);
      if t.readers[i].fd == fd {
        DropRun(s, t, acts, i, Dropped(t, i), frames);
        MoreRemovals(acts, DoRemoveRead(i));
      }
    }
  }

  /** What the turns of the first loop keep. */
  lemma ReadersKept(s: Loop, fd: int, frames: nat) returns (kept: (Loop, nat) -> bool)
    requires Inv(s, frames)
    ensures kept(s, 0) && forall t, i | kept(t, i) :: ReadersGoOn(t, fd, i, kept)
    ensures forall t, i | kept(t, i) :: ReadersSoFar(s, t, fd, i, frames)
  {
    kept := (t: Loop, i: nat) => ReadersSoFar(s, t, fd, i, frames);
    forall t: Loop, i: nat | kept(t, i) ensures ReadersGoOn(t, fd, i, kept) {
      ReaderTurn(s, t, fd, i, frames);
    }
    ReadersStart(s, fd, frames);
  }

  /** The write watches before the i-th were looked at. */
  ghost predicate WatchesSoFar(s: Loop, t: Loop, fd: int, i: nat, frames: nat) {
    && i <= |t.aio|
    && WithoutWatch(s.aio, fd) == t.aio[..i] + WithoutWatch(t.aio[i..], fd)
    && exists acts :: Ran(s, t, acts, frames) && Removals(acts)
  }

  ghost predicate WatchesGoOn(t: Loop, fd: int, i: nat, kept: (Loop, nat) -> bool, frames: nat) {
    i < |t.aio| ==> t.aio[i].queue < |t.left| && if t.aio[i].fd == fd then kept(RemoveAio(t, i), i) else kept(t, i + 1)
  }

  lemma WatchesStart(s: Loop, fd: int, frames: nat)
    requires Inv(s, frames)
    ensures WatchesSoFar(s, s, fd, 0, frames)
  {
    assert s.aio[0..] == s.aio && Ran(s, s, [], frames) && Removals([]);
  }

  lemma WatchesEnd(s: Loop, t: Loop, fd: int, i: nat, frames: nat) returns (acts: seq<Action>)
    requires WatchesSoFar(s, t, fd, i, frames) && i >= |t.aio|
    ensures Ran(s, t, acts, frames) && Removals(acts) && t.aio == WithoutWatch(s.aio, fd)
  {
    acts :| Ran(s, t, acts, frames) && Removals(acts);
  }

  lemma WatchTurn(s: Loop, t: Loop, fd: int, i: nat, frames: nat)
    requires WatchesSoFar(s, t, fd, i, frames)
    ensures i < |t.aio| ==>
              && t.aio[i].queue < |t.left|
              && if t.aio[i].fd == fd then WatchesSoFar(s, RemoveAio(t, i), fd, i, frames)
                 else WatchesSoFar(s, t, fd, i + 1, frames)
  {
    if i < |t.aio| {
      var acts :| Ran(s, t, acts, frames) && Removals(acts);
      RanReaches(s, t, acts, frames);
      WatchStep(t.aio, i, fd);
      if t.aio[i].fd == fd {
        OneMore(s, t, acts, DoRemoveAio(i), RemoveAio(t, i), acts + [DoRemoveAio(i)], frames);
        MoreRemovals(acts, DoRemoveAio(i));
      }
    }
  }

  /** What the turns of the second loop keep. */
  lemma WatchesKept(s: Loop, fd: int, frames: nat) returns (kept: (Loop, nat) -> bool)
    requires Inv(s, frames)
    ensures kept(s, 0) && forall t, i | kept(t, i) :: WatchesGoOn(t, fd, i, kept, frames)
    ensures forall t, i | kept(t, i) :: WatchesSoFar(s, t, fd, i, frames)
  {
    kept := (t: Loop, i: nat) => WatchesSoFar(s, t, fd, i, frames);
    forall t: Loop, i: nat | kept(t, i) ensures WatchesGoOn(t, fd, i, kept, frames) {
      WatchTurn(s, t, fd, i, frames);
    }
    WatchesStart(s, fd, frames);
  }

  /** The completions of the first n watches. */
  function EventActs(s: Loop, events: seq<Event>, n: nat): seq<Action>
    requires n <= |s.aio|
    decreases n
  {
    if n == 0 then []
    else
      EventActs(s, events, n - 1)
      + match ResultFor(events, s.aio[n - 1].fd)
        case None => []
        case Some(res) => [DoComplete(n - 1, res)]
  }

  /** The first n watches took their events. */
  ghost predicate EventsSoFar(s: Loop, t: Loop, events: seq<Event>, n: nat, frames: nat) {
    && n <= |s.aio| == |t.aio| && Ran(s, t, EventActs(s, events, n), frames) && Handled(s, t, n, events)
  }

  lemma EventsStart(s: Loop, events: seq<Event>, frames: nat)
    requires Inv(s, frames) && forall j | 0 <= j < |events| :: events[j].fd in s.kernel
    ensures EventsSoFar(s, s, events, 0, frames)
  {
    forall fd | ResultFor(events, fd).Some? ensures fd in s.kernel {
      var j :| 0 <= j < |events| && events[j].fd == fd;
    }
  }

  /** The state after the event of a watch, if there is one. */
  function EventNext(t: Loop, i: nat, events: seq<Event>): Loop
    requires i < |t.aio| && t.aio[i].queue < |t.left|
  {
    var r := ResultFor(events, t.aio[i].fd);
    if r.None? || t.aio[i].pending.None? then t else Complete(t, i, r.value)
  }

  /** A turn can take place, and what is kept is kept. */
  ghost predicate EventsGoOn(t: Loop, i: nat, events: seq<Event>, count: nat, kept: (Loop, nat) -> bool, frames: nat) {
    && Inv(t, frames) && i <= count == |t.aio|
    && (i < |t.aio| ==>
         && t.aio[i].queue < |t.left|
         && (ResultFor(events, t.aio[i].fd).Some? ==> t.aio[i].fd in t.kernel && t.aio[i].pending.Some?)
         && kept(EventNext(t, i, events), i + 1))
  }

  lemma EventRun(s: Loop, t: Loop, acts: seq<Action>, i: nat, events: seq<Event>, next: Loop, more: seq<Action>, frames: nat)
    requires Ran(s, t, acts, frames) && i < |t.aio| && t.aio[i].queue < |t.left|
    requires ResultFor(events, t.aio[i].fd).Some? ==> t.aio[i].fd in t.kernel && t.aio[i].pending.Some?
    requires next == EventNext(t, i, events)
    requires var r := ResultFor(events, t.aio[i].fd);
             more == acts + if r.Some? then [DoComplete(i, r.value)] else []
    ensures Ran(s, next, more, frames)
  {
    var r := ResultFor(events, t.aio[i].fd);
    RanReaches(s, t, acts, frames);
    if r.Some? {
      OneMore(s, t, acts, DoComplete(i, r.value), next, more, frames);
    } else {
      assert more == acts;
    }
  }

  lemma EventTurn(s: Loop, t: Loop, events: seq<Event>, i: nat, frames: nat)
    requires EventsSoFar(s, t, events, i, frames)
    ensures Inv(t, frames)
    ensures i < |t.aio| ==>
              && t.aio[i].queue < |t.left|
              && (ResultFor(events, t.aio[i].fd).Some? ==> t.aio[i].fd in t.kernel && t.aio[i].pending.Some?)
              && EventsSoFar(s, EventNext(t, i, events), events, i + 1, frames)
  {
    RanReaches(s, t, EventActs(s, events, i), frames);
    if i < |t.aio| {
      var next := EventNext(t, i, events);
      HandledStep(s, t, i, events, next, frames);
      EventRun(s, t, EventActs(s, events, i), i, events, next, EventActs(s, events, i + 1), frames);
    }
  }

  /** What the turns of watches with events keep. */
  lemma EventsKept(s: Loop, events: seq<Event>, frames: nat) returns (kept: (Loop, nat) -> bool)
    requires Inv(s, frames) && forall j | 0 <= j < |events| :: events[j].fd in s.kernel
    ensures kept(s, 0) && forall t, i | kept(t, i) :: EventsGoOn(t, i, events, |s.aio|, kept, frames)
    ensures forall t, i | kept(t, i) :: EventsSoFar(s, t, events, i, frames)
  {
    kept := (t: Loop, i: nat) => EventsSoFar(s, t, events, i, frames);
    forall t: Loop, i: nat | kept(t, i) ensures EventsGoOn(t, i, events, |s.aio|, kept, frames) {
      EventTurn(s, t, events, i, frames);
    }
    EventsStart(s, events, frames);
  }

  /** Every watch took its event, and perhaps events without a watch were forgotten. */
  ghost predicate EventsDone(s: Loop, t: Loop, acts: seq<Action>, events: seq<Event>, frames: nat) {
    Ran(s, t, acts, frames) && Handled(s, t, |t.aio|, events)
  }

  /** The events of the first j that matched no watch are over for the kernel too. */
  lemma {:induction false} OrphanEvents(s: Loop, t: Loop, acts: seq<Action>, events: seq<Event>, j: nat, frames: nat)
    returns (u: Loop, more: seq<Action>)
    requires EventsDone(s, t, acts, events, frames) && j <= |events|
    ensures u == t.(kernel := u.kernel) && EventsDone(s, u, more, events, frames)
    ensures acts <= more && forall a | a in more[|acts|..] :: a.DoOrphanEvent?
    ensures forall k | 0 <= k < j :: events[k].fd !in u.kernel
    decreases j
  {
    u, more := t, acts;
    if j > 0 {
      u, more := OrphanEvents(s, t, acts, events, j - 1, frames);
      u, more := OrphanEvent(s, u, more, events, events[j - 1].fd, frames);
    }
  }

  lemma OrphanEvent(s: Loop, t: Loop, acts: seq<Action>, events: seq<Event>, fd: int, frames: nat)
    returns (u: Loop, more: seq<Action>)
    requires EventsDone(s, t, acts, events, frames) && exists k :: 0 <= k < |events| && events[k].fd == fd
    ensures u == t.(kernel := t.kernel - {fd}) && EventsDone(s, u, more, events, frames)
    ensures more == acts || more == acts + [DoOrphanEvent(fd)]
  {
    u, more := t.(kernel := t.kernel - {fd}), acts;
    RanReaches(s, t, acts, frames);
    if fd in t.kernel {
      HandledForgets(s, t, events, fd);
      more := acts + [DoOrphanEvent(fd)];
      OneMore(s, t, acts, DoOrphanEvent(fd), u, more, frames);
    } else {
      assert u == t;
    }
  }

  /** t is s after a run of just the submits of the first n watches, which changed those watches and their queues and nothing else. */
  ghost predicate SubmitsSoFar(s: Loop, t: Loop, accepts: seq<bool>, n: nat, frames: nat) {
    && n <= |s.aio| == |accepts| && WatchesOk(s.aio, |s.queues|)
    && t == SubmitAfter(s, accepts, n) && Ran(s, t, SubmitActs(s, accepts, n), frames)
  }

  /** The state after the first n watches had their turn to submit. */
  function SubmitAfter(s: Loop, accepts: seq<bool>, n: nat): (t: Loop)
    requires n <= |s.aio| == |accepts| && forall k | 0 <= k < |s.aio| :: s.aio[k].queue < |s.queues|
    ensures |t.aio| == |s.aio| && |t.queues| == |s.queues| && forall k | 0 <= k < |s.aio| :: t.aio[k].queue == s.aio[k].queue
    decreases n
  {
    if n == 0 then s else SubmitNext(SubmitAfter(s, accepts, n - 1), n - 1, accepts)
  }

  lemma SubmittedNone(s: Loop, accepts: seq<bool>)
    requires |s.aio| == |accepts| && WatchesOk(s.aio, |s.queues|)
    ensures Submitted(s, s, accepts, 0)
  {
  }

  /** What that state is, watch by watch and queue by queue. */
  lemma {:induction false} SubmitAfterIs(s: Loop, accepts: seq<bool>, n: nat)
    requires n <= |s.aio| == |accepts| && WatchesOk(s.aio, |s.queues|)
    ensures Submitted(s, SubmitAfter(s, accepts, n), accepts, n)
    decreases n
  {
    if n == 0 {
      SubmittedNone(s, accepts);
    } else {
      SubmitAfterIs(s, accepts, n - 1);
      SubmittedStep(s, SubmitAfter(s, accepts, n - 1), accepts, n - 1, n, SubmitAfter(s, accepts, n));
    }
  }

  /**
   After the submitting loop every watch that had nothing pending, something
   queued and a kernel that took it has the first packet of its queue pending
   and outstanding; every other watch and its queue are as they were.
   */
  lemma SubmitsEach(s: Loop, accepts: seq<bool>, k: nat)
    requires k < |s.aio| == |accepts| && WatchesOk(s.aio, |s.queues|)
    ensures var t, w, q := SubmitAfter(s, accepts, |s.aio|), s.aio[k], s.aio[k].queue;
            if w.pending.None? && s.queues[q] != [] && accepts[k] then
              && t.aio[k] == AioWatch(w.fd, q, Some(s.queues[q][0])) && t.queues[q] == s.queues[q][1..]
              && w.fd in t.kernel && t.kernel[w.fd] == s.queues[q][0]
            else t.aio[k] == w && t.queues[q] == s.queues[q]
  {
    SubmitAfterIs(s, accepts, |s.aio|);
    assert WatchAfter(s, SubmitAfter(s, accepts, |s.aio|), accepts, |s.aio|, k);
  }

  lemma SubmitsStart(s: Loop, accepts: seq<bool>, frames: nat)
    requires Inv(s, frames) && |accepts| == |s.aio|
    ensures SubmitsSoFar(s, s, accepts, 0, frames)
  {
  }

  /** The state after a watch had its turn to submit. */
  function SubmitNext(t: Loop, i: nat, accepts: seq<bool>): Loop
    requires i < |t.aio| == |accepts| && t.aio[i].queue < |t.queues|
  {
    if Idle(t, i) then Submit(t, i, accepts[i]) else t
  }

  /** A turn can take place, and what is kept is kept. */
  ghost predicate SubmitGoesOn(t: Loop, i: nat, accepts: seq<bool>, kept: (Loop, nat) -> bool, frames: nat) {
    && Inv(t, frames) && i <= |t.aio| == |accepts|
    && (i < |t.aio| ==> t.aio[i].queue < |t.queues| && kept(SubmitNext(t, i, accepts), i + 1))
  }

  lemma SubmitRun(s: Loop, t: Loop, acts: seq<Action>, i: nat, accepts: seq<bool>, next: Loop, more: seq<Action>, frames: nat)
    requires Ran(s, t, acts, frames) && i < |t.aio| == |accepts|
    requires t.aio[i].queue < |t.queues| && next == SubmitNext(t, i, accepts)
    requires more == acts + if Idle(t, i) then [DoSubmit(i, accepts[i])] else []
    ensures Ran(s, next, more, frames)
  {
    RanReaches(s, t, acts, frames);
    if Idle(t, i) {
      OneMore(s, t, acts, DoSubmit(i, accepts[i]), next, more, frames);
    } else {
      assert more == acts;
    }
  }

  lemma SubmitTurn(s: Loop, t: Loop, accepts: seq<bool>, i: nat, frames: nat)
    requires SubmitsSoFar(s, t, accepts, i, frames)
    ensures Inv(t, frames)
    ensures i < |t.aio| ==> t.aio[i].queue < |t.queues| && SubmitsSoFar(s, SubmitNext(t, i, accepts), accepts, i + 1, frames)
  {
    RanReaches(s, t, SubmitActs(s, accepts, i), frames);
    if i < |t.aio| {
      SubmitAfterIs(s, accepts, i);
      SameIdle(s, t, accepts, i);
      SubmitRun(s, t, SubmitActs(s, accepts, i), i, accepts, SubmitNext(t, i, accepts), SubmitActs(s, accepts, i + 1), frames);
    }
  }

  /** What the turns of submitting watches keep. */
  lemma SubmitsKept(s: Loop, accepts: seq<bool>, frames: nat) returns (kept: (Loop, nat) -> bool)
    requires Inv(s, frames) && |accepts| == |s.aio|
    ensures kept(s, 0) && forall t, i | kept(t, i) :: SubmitGoesOn(t, i, accepts, kept, frames)
    ensures forall t, i | kept(t, i) :: SubmitsSoFar(s, t, accepts, i, frames)
  {
    kept := (t: Loop, i: nat) => SubmitsSoFar(s, t, accepts, i, frames);
    forall t: Loop, i: nat | kept(t, i) ensures SubmitGoesOn(t, i, accepts, kept, frames) {
      SubmitTurn(s, t, accepts, i, frames);
    }
    SubmitsStart(s, accepts, frames);
  }

  /** What ready readers broadcast, and whether they ask to be dropped. */
  datatype Service = Service(ready: set<int>, broadcasts: seq<seq<seq<byte>>>, drops: seq<bool>)

  /** The lists when the first turn readers were served; the next one is the i-th now. */
  ghost predicate ListsSoFar(was: seq<ReadWatch>, armedBefore: set<int>, now: seq<ReadWatch>, armed: set<int>,
                             v: Service, turn: nat, i: nat)
  {
    && turn <= |was| == |v.broadcasts| == |v.drops|
    && i == |KeptReaders(was, v.ready, v.drops, turn)|
    && now == KeptReaders(was, v.ready, v.drops, turn) + was[turn..]
    && armed == armedBefore - ServedFds(was, v.ready, turn)
  }

  /** The lists after the turn of a reader. */
  lemma ListsNext(was: seq<ReadWatch>, armedBefore: set<int>, now: seq<ReadWatch>, armed: set<int>, v: Service, turn: nat, i: nat)
    requires ListsSoFar(was, armedBefore, now, armed, v, turn, i) && i < |now| && ReadersOk(was)
    ensures turn < |was| && now[i] == was[turn]
    ensures now[i].fd in v.ready && v.ready <= armedBefore ==> now[i].fd in armed
    ensures var served := now[i].fd in v.ready;
            ListsSoFar(was, armedBefore, if served && v.drops[turn] then now[..i] + now[i + 1..] else now,
                       if served then armed - {now[i].fd} else armed, v, turn + 1, if served && v.drops[turn] then i else i + 1)
  {
    NextReader(was, v.ready, v.drops, turn, now);
  }

  /** The first turn readers of the original list were served if they were ready; the next one is the i-th now. */
  ghost predicate ServedSoFar(s: Loop, t: Loop, v: Service, turn: nat, i: nat, frames: nat) {
    && ListsSoFar(s.readers, s.armed, t.readers, t.armed, v, turn, i)
    && Ran(s, t, ServeActs(s.readers, v.ready, v.broadcasts, v.drops, turn), frames)
    && v.ready <= s.armed && (forall b | b in v.broadcasts :: |b| <= frames)
  }

  lemma ServiceStarts(s: Loop, v: Service, frames: nat)
    requires Inv(s, frames) && v.ready <= s.armed && |v.broadcasts| == |v.drops| == |s.readers|
    requires forall b | b in v.broadcasts :: |b| <= frames
    ensures ServedSoFar(s, s, v, 0, 0, frames)
  {
    assert [] + s.readers[0..] == s.readers;
  }

  lemma ServiceEnds(s: Loop, t: Loop, v: Service, turn: nat, i: nat, frames: nat) returns (acts: seq<Action>)
    requires ServedSoFar(s, t, v, turn, i, frames) && i >= |t.readers|
    ensures Ran(s, t, acts, frames) && acts == ServeActs(s.readers, v.ready, v.broadcasts, v.drops, |v.broadcasts|)
    ensures t.readers == KeptReaders(s.readers, v.ready, v.drops, |v.broadcasts|)
    ensures t.armed == s.armed - ServedFds(s.readers, v.ready, |v.broadcasts|)
  {
    assert turn == |s.readers|;
    acts := ServeActs(s.readers, v.ready, v.broadcasts, v.drops, turn);
  }

  /** The state after the turn of a reader. */
  ghost function ServeNext(t: Loop, turn: nat, i: nat, v: Service): Loop
    requires i < |t.readers| && turn < |v.broadcasts| == |v.drops| && ClientsOk(t)
  {
    if t.readers[i].fd !in v.ready then t
    else
      var u := Callback(t, i, v.broadcasts[turn]);
      if v.drops[turn] then Dropped(u, i) else u
  }

  /** A turn can take place, and what is kept is kept. */
  ghost predicate ServiceGoesOn(t: Loop, turn: nat, i: nat, v: Service, kept: (Loop, nat, nat) -> bool, frames: nat) {
    && Inv(t, frames)
    && (i < |t.readers| ==>
         && turn < |v.broadcasts| == |v.drops| && (t.readers[i].fd in v.ready ==> Enabled(t, DoCallback(i, v.broadcasts[turn]), frames))
         && kept(ServeNext(t, turn, i, v), turn + 1, NextIndex(t, turn, i, v)))
  }

  /** What lets a reader have its turn. */
  lemma CanServe(s: Loop, t: Loop, v: Service, turn: nat, i: nat, frames: nat)
    requires ServedSoFar(s, t, v, turn, i, frames)
    ensures Inv(t, frames)
    ensures i < |t.readers| ==>
              turn < |s.readers| && (t.readers[i].fd in v.ready ==> Enabled(t, DoCallback(i, v.broadcasts[turn]), frames))
  {
    RanReaches(s, t, ServeActs(s.readers, v.ready, v.broadcasts, v.drops, turn), frames);
    if i < |t.readers| {
      ListsNext(s.readers, s.armed, t.readers, t.armed, v, turn, i);
      assert v.broadcasts[turn] in v.broadcasts;
    }
  }

  /** Where the next reader is once one has had its turn. */
  function NextIndex(t: Loop, turn: nat, i: nat, v: Service): nat
    requires i < |t.readers| && turn < |v.drops|
  {
    if t.readers[i].fd in v.ready && v.drops[turn] then i else i + 1
  }

  lemma ServeTurn(s: Loop, t: Loop, v: Service, turn: nat, i: nat, frames: nat)
    requires ServedSoFar(s, t, v, turn, i, frames)
    ensures Inv(t, frames)
    ensures i < |t.readers| ==>
              && turn < |s.readers| && (t.readers[i].fd in v.ready ==> Enabled(t, DoCallback(i, v.broadcasts[turn]), frames))
              && ServedSoFar(s, ServeNext(t, turn, i, v), v, turn + 1, NextIndex(t, turn, i, v), frames)
  {
    CanServe(s, t, v, turn, i, frames);
    if i < |t.readers| {
      if t.readers[i].fd in v.ready {
        ServeReady(s, t, v, turn, i, Callback(t, i, v.broadcasts[turn]), ServeNext(t, turn, i, v), frames);
      } else {
        ListsNext(s.readers, s.armed, t.readers, t.armed, v, turn, i);
        var acts := ServeActs(s.readers, v.ready, v.broadcasts, v.drops, turn);
        assert acts + [] == acts;
      }
    }
  }

  lemma ServiceTurn(s: Loop, t: Loop, v: Service, turn: nat, i: nat, kept: (Loop, nat, nat) -> bool, frames: nat)
    requires ServedSoFar(s, t, v, turn, i, frames)
    requires forall t, turn, i | ServedSoFar(s, t, v, turn, i, frames) :: kept(t, turn, i)
    ensures ServiceGoesOn(t, turn, i, v, kept, frames)
  {
    ServeTurn(s, t, v, turn, i, frames);
  }

  /** What the turns of ready readers keep. */
  lemma ServiceKept(s: Loop, v: Service, frames: nat) returns (kept: (Loop, nat, nat) -> bool)
    requires Inv(s, frames) && v.ready <= s.armed && |v.broadcasts| == |v.drops| == |s.readers|
    requires forall b | b in v.broadcasts :: |b| <= frames
    ensures kept(s, 0, 0) && forall t, turn, i | kept(t, turn, i) :: ServiceGoesOn(t, turn, i, v, kept, frames)
    ensures forall t, turn, i | kept(t, turn, i) :: ServedSoFar(s, t, v, turn, i, frames)
  {
    kept := (t: Loop, turn: nat, i: nat) => ServedSoFar(s, t, v, turn, i, frames);
    forall t: Loop, turn: nat, i: nat | kept(t, turn, i) ensures ServiceGoesOn(t, turn, i, v, kept, frames) {
      ServiceTurn(s, t, v, turn, i, kept, frames);
    }
    ServiceStarts(s, v, frames);
  }

  lemma ServeReady(s: Loop, t: Loop, v: Service, turn: nat, i: nat, u: Loop, next: Loop, frames: nat)
    requires ServedSoFar(s, t, v, turn, i, frames) && i < |t.readers| && turn < |s.readers| && t.readers[i].fd in v.ready
    requires Enabled(t, DoCallback(i, v.broadcasts[turn]), frames) && ClientsOk(t)
    requires u == Callback(t, i, v.broadcasts[turn])
    requires v.drops[turn] ==> i < |u.readers| && next == Dropped(u, i)
    requires !v.drops[turn] ==> next == u
    ensures ServedSoFar(s, next, v, turn + 1, NextIndex(t, turn, i, v), frames)
  {
    var acts := ServeActs(s.readers, v.ready, v.broadcasts, v.drops, turn);
    RanReaches(s, t, acts, frames);
    ListsNext(s.readers, s.armed, t.readers, t.armed, v, turn, i);
    ServeRun(s, t, acts, i, v.broadcasts[turn], u, v.drops[turn], next, frames);
  }

  /** The list of readers without one. */
  function Dropped(s: Loop, i: nat): Loop
    requires i < |s.readers|
  {
    s.(readers := s.readers[..i] + s.readers[i + 1..])
  }

  lemma CallRun(s: Loop, t: Loop, acts: seq<Action>, i: nat, payloads: seq<seq<byte>>, u: Loop, frames: nat)
    requires Ran(s, t, acts, frames) && Enabled(t, DoCallback(i, payloads), frames) && ClientsOk(t)
    requires u == Callback(t, i, payloads)
    ensures Ran(s, u, acts + [DoCallback(i, payloads)], frames)
    ensures u.readers == t.readers && u.armed == t.armed - {t.readers[i].fd}
  {
    OneMore(s, t, acts, DoCallback(i, payloads), u, acts + [DoCallback(i, payloads)], frames);
  }

  lemma DropRun(s: Loop, u: Loop, acts: seq<Action>, i: nat, next: Loop, frames: nat)
    requires Ran(s, u, acts, frames) && i < |u.readers| && next == Dropped(u, i)
    ensures Ran(s, next, acts + [DoRemoveRead(i)], frames)
  {
    OneMore(s, u, acts, DoRemoveRead(i), next, acts + [DoRemoveRead(i)], frames);
  }

  lemma ServeRun(s: Loop, t: Loop, acts: seq<Action>, i: nat, payloads: seq<seq<byte>>, u: Loop, drop: bool, next: Loop, frames: nat)
    requires Ran(s, t, acts, frames) && Enabled(t, DoCallback(i, payloads), frames) && ClientsOk(t)
    requires u == Callback(t, i, payloads)
    requires drop ==> i < |u.readers| && next == Dropped(u, i)
    requires !drop ==> next == u
    ensures Ran(s, next, acts + ServeOne(i, payloads, drop), frames)
    ensures next.readers == if drop then t.readers[..i] + t.readers[i + 1..] else t.readers
    ensures next.armed == t.armed - {t.readers[i].fd}
  {
    CallRun(s, t, acts, i, payloads, u, frames);
    if drop {
      ConcatAssociative(acts, [DoCallback(i, payloads)], [DoRemoveRead(i)]);
      DropRun(s, u, acts + [DoCallback(i, payloads)], i, next, frames);
    } else {
      assert ServeOne(i, payloads, drop) == [DoCallback(i, payloads)];
    }
  }

  // ---------------------------------------------------------------- what the loops do

  /** A watch that the submitting loop submits. */
  predicate Idle(s: Loop, i: nat)
    requires i < |s.aio| && s.aio[i].queue < |s.queues|
  {
    s.queues[s.aio[i].queue] != [] && s.aio[i].pending.None?
  }

  /** The submits of the first n watches. */
  ghost function SubmitActs(s: Loop, accepts: seq<bool>, n: nat): seq<Action>
    requires n <= |s.aio| == |accepts| && WatchesOk(s.aio, |s.queues|)
    decreases n
  {
    if n == 0 then []
    else SubmitActs(s, accepts, n - 1) + if Idle(s, n - 1) then [DoSubmit(n - 1, accepts[n - 1])] else []
  }

  /** The watch whose first packet the kernel took. */
  predicate Handed(s: Loop, accepts: seq<bool>, k: nat)
    requires k < |s.aio| == |accepts| && s.aio[k].queue < |s.queues|
  {
    accepts[k] && Idle(s, k)
  }

  /** A watch and its queue after the first n watches submitted. */
  predicate WatchAfter(s: Loop, t: Loop, accepts: seq<bool>, n: nat, k: nat)
    requires k < |s.aio| == |accepts| == |t.aio| && s.aio[k].queue < |s.queues| == |t.queues|
  {
    var q := s.aio[k].queue;
    if k < n && Handed(s, accepts, k)
    then
      && t.aio[k] == s.aio[k].(pending := Some(s.queues[q][0])) && t.queues[q] == s.queues[q][1..]
      && s.aio[k].fd in t.kernel && t.kernel[s.aio[k].fd] == s.queues[q][0]
    else t.aio[k] == s.aio[k] && t.queues[q] == s.queues[q]
  }

  /** A queue that none of the first n watches serves. */
  predicate Unserved(aio: seq<AioWatch>, n: nat, q: nat)
    requires n <= |aio|
  {
    forall k | 0 <= k < n :: aio[k].queue != q
  }

  /** A queue that none of the first n watches serves is as it was. */
  predicate QueueAfter(s: Loop, t: Loop, n: nat, q: nat)
    requires n <= |s.aio| && q < |s.queues| == |t.queues|
  {
    Unserved(s.aio, n, q) ==> t.queues[q] == s.queues[q]
  }

  /** t is s after the first n watches submitted; everything else is as it was. */
  ghost predicate Submitted(s: Loop, t: Loop, accepts: seq<bool>, n: nat)
    requires n <= |s.aio| == |accepts| && WatchesOk(s.aio, |s.queues|)
  {
    && t == s.(aio := t.aio, queues := t.queues, kernel := t.kernel)
    && |t.aio| == |s.aio| && |t.queues| == |s.queues|
    && (forall k | 0 <= k < |s.aio| :: WatchAfter(s, t, accepts, n, k))
    && (forall q | 0 <= q < |s.queues| :: QueueAfter(s, t, n, q))
  }

  lemma SameIdle(s: Loop, t: Loop, accepts: seq<bool>, i: nat)
    requires WatchesOk(s.aio, |s.queues|) && i < |s.aio| == |accepts| && Submitted(s, t, accepts, i)
    ensures t.aio[i] == s.aio[i] && Idle(t, i) == Idle(s, i)
  {
    assert WatchAfter(s, t, accepts, i, i);
  }

  lemma SubmittedStep(s: Loop, t: Loop, accepts: seq<bool>, i: nat, n: nat, u: Loop)
    requires WatchesOk(s.aio, |s.queues|) && i < |s.aio| == |accepts| && Submitted(s, t, accepts, i)
    requires n == i + 1 && t.aio[i].queue < |t.queues| && u == SubmitNext(t, i, accepts)
    ensures Submitted(s, u, accepts, n)
  {
    SameIdle(s, t, accepts, i);
    forall k | 0 <= k < |s.aio| ensures WatchAfter(s, u, accepts, n, k) {
      assert WatchAfter(s, t, accepts, i, k);
    }
    forall q | 0 <= q < |s.queues| ensures QueueAfter(s, u, n, q) {
      assert QueueAfter(s, t, i, q);
      if Unserved(s.aio, n, q) {
        assert Unserved(s.aio, i, q) && s.aio[i].queue != q;
      }
    }
  }

  /** The steps for one ready reader, the i-th by then. */
  function ServeOne(i: nat, payloads: seq<seq<byte>>, drop: bool): seq<Action> {
    [DoCallback(i, payloads)] + if drop then [DoRemoveRead(i)] else []
  }

  /** Of the first n readers, those that stay. */
  function KeptReaders(readers: seq<ReadWatch>, ready: set<int>, drops: seq<bool>, n: nat): (kept: seq<ReadWatch>)
    requires n <= |readers| == |drops|
    decreases n
  {
    if n == 0 then []
    else KeptReaders(readers, ready, drops, n - 1) + if readers[n - 1].fd in ready && drops[n - 1] then [] else [readers[n - 1]]
  }

  /** The steps for the first n readers, each by its place when its turn comes. */
  function ServeActs(readers: seq<ReadWatch>, ready: set<int>, broadcasts: seq<seq<seq<byte>>>, drops: seq<bool>, n: nat): seq<Action>
    requires n <= |readers| == |drops| == |broadcasts|
    decreases n
  {
    if n == 0 then []
    else
      ServeActs(readers, ready, broadcasts, drops, n - 1)
      + if readers[n - 1].fd in ready
        then ServeOne(|KeptReaders(readers, ready, drops, n - 1)|, broadcasts[n - 1], drops[n - 1]) else []
  }

  /** A reader is dropped exactly when it was ready and asked for it. */
  lemma {:induction false} KeptReadersAre(readers: seq<ReadWatch>, ready: set<int>, drops: seq<bool>, n: nat, k: nat)
    requires k < n <= |readers| == |drops| && ReadersOk(readers)
    ensures readers[k] in KeptReaders(readers, ready, drops, n) <==> !(readers[k].fd in ready && drops[k])
    decreases n
  {
    if k < n - 1 {
      KeptReadersAre(readers, ready, drops, n - 1, k);
    } else {
      KeptBefore(readers, ready, drops, k);
    }
  }

  lemma {:induction false} KeptBefore(readers: seq<ReadWatch>, ready: set<int>, drops: seq<bool>, n: nat)
    requires n <= |readers| == |drops|
    ensures forall r | r in KeptReaders(readers, ready, drops, n) :: r in readers[..n]
    decreases n
  {
    if n > 0 {
      KeptBefore(readers, ready, drops, n - 1);
      assert readers[..n] == readers[..n - 1] + [readers[n - 1]];
    }
  }

  /** What the ready readers broadcast, from the k-th on, in list order. */
  function ReadyBroadcasts(readers: seq<ReadWatch>, ready: set<int>, broadcasts: seq<seq<seq<byte>>>, k: nat): seq<seq<byte>>
    requires k <= |readers| == |broadcasts|
    decreases |readers| - k
  {
    if k == |readers| then []
    else (if readers[k].fd in ready then broadcasts[k] else []) + ReadyBroadcasts(readers, ready, broadcasts, k + 1)
  }

  lemma {:induction false} BroadcastsConcat(a: seq<Action>, b: seq<Action>)
    ensures Broadcasts(a + b) == Broadcasts(a) + Broadcasts(b)
    decreases |a|
  {
    if a == [] {
      assert a + b == b;
    } else {
      BroadcastsConcat(a[1..], b);
      assert (a + b)[1..] == a[1..] + b && (a + b)[0] == a[0];
      ConcatAssociative(if a[0].DoCallback? then a[0].payloads else [], Broadcasts(a[1..]), Broadcasts(b));
    }
  }

  lemma BroadcastsOne(i: nat, payloads: seq<seq<byte>>, drop: bool)
    ensures Broadcasts(ServeOne(i, payloads, drop)) == payloads
  {
    var acts := ServeOne(i, payloads, drop);
    assert acts[0] == DoCallback(i, payloads);
    if drop {
      assert acts[1..] == [DoRemoveRead(i)] && [DoRemoveRead(i)][1..] == [];
      assert Broadcasts(acts[1..]) == [] + Broadcasts([]);
    } else {
      assert acts[1..] == [];
    }
    assert payloads + [] == payloads;
  }

  /** What the steps for the first n readers broadcast comes before what those after them do. */
  lemma {:induction false} ServeBroadcasts(readers: seq<ReadWatch>, ready: set<int>, broadcasts: seq<seq<seq<byte>>>, drops: seq<bool>, n: nat)
    requires n <= |readers| == |drops| == |broadcasts|
    ensures Broadcasts(ServeActs(readers, ready, broadcasts, drops, n)) + ReadyBroadcasts(readers, ready, broadcasts, n)
         == ReadyBroadcasts(readers, ready, broadcasts, 0)
    ensures forall a | a in ServeActs(readers, ready, broadcasts, drops, n) :: a.DoCallback? || a.DoRemoveRead?
    decreases n
  {
    if n > 0 {
      ServeBroadcasts(readers, ready, broadcasts, drops, n - 1);
      var earlier := ServeActs(readers, ready, broadcasts, drops, n - 1);
      if readers[n - 1].fd in ready {
        var one := ServeOne(|KeptReaders(readers, ready, drops, n - 1)|, broadcasts[n - 1], drops[n - 1]);
        BroadcastsConcat(earlier, one);
        BroadcastsOne(|KeptReaders(readers, ready, drops, n - 1)|, broadcasts[n - 1], drops[n - 1]);
        ConcatAssociative(Broadcasts(earlier), broadcasts[n - 1], ReadyBroadcasts(readers, ready, broadcasts, n));
      } else {
        assert earlier + [] == earlier;
        assert [] + ReadyBroadcasts(readers, ready, broadcasts, n) == ReadyBroadcasts(readers, ready, broadcasts, n);
      }
    }
  }

  /** Every client was sent these payloads, if it is enabled, and nothing if not. */
  ghost predicate ClientsSent(s: Loop, t: Loop, payloads: seq<seq<byte>>) {
    && t.clients == s.clients && |t.pushed| == |s.pushed|
    && forall c | 0 <= c < |s.clients| && s.clients[c].queue < |s.pushed| ::
         Sent(s.pushed[s.clients[c].queue], t.pushed[s.clients[c].queue], s.clients[c], payloads)
  }

  lemma {:induction false} ServingKeepsClients(s: Loop, t: Loop, acts: seq<Action>, frames: nat)
    requires Ran(s, t, acts, frames) && forall a | a in acts :: a.DoCallback? || a.DoRemoveRead?
    ensures t.clients == s.clients && |t.pushed| == |s.pushed|
    decreases |acts|
  {
    if acts != [] {
      assert acts[0] in acts;
      RanReaches(s, t, acts, frames);
      ServingKeepsClients(Apply(s, acts[0], frames), t, acts[1..], frames);
    }
  }

  /** A turn of callbacks sends each enabled client what the ready readers broadcast, in list order. */
  lemma AllAreSent(s: Loop, t: Loop, acts: seq<Action>, ready: set<int>, broadcasts: seq<seq<seq<byte>>>, drops: seq<bool>, frames: nat)
    requires |broadcasts| == |drops| == |s.readers| && Ran(s, t, acts, frames)
    requires acts == ServeActs(s.readers, ready, broadcasts, drops, |s.readers|)
    ensures t.clients == s.clients
    ensures OwnQueues(s.clients) ==> ClientsSent(s, t, ReadyBroadcasts(s.readers, ready, broadcasts, 0))
  {
    ServeBroadcasts(s.readers, ready, broadcasts, drops, |s.readers|);
    assert Broadcasts(acts) + [] == Broadcasts(acts);
    ServingKeepsClients(s, t, acts, frames);
    if OwnQueues(s.clients) {
      forall c | 0 <= c < |s.clients| && s.clients[c].queue < |s.pushed|
        ensures Sent(s.pushed[s.clients[c].queue], t.pushed[s.clients[c].queue], s.clients[c], Broadcasts(acts))
      {
        ClientIsSent(s, acts, t, frames, c, s.clients[c].queue);
      }
    }
  }

  /** The descriptors of those of the first n readers that are ready. */
  function ServedFds(readers: seq<ReadWatch>, ready: set<int>, n: nat): (fds: set<int>)
    requires n <= |readers|
    ensures forall fd :: fd in fds <==> fd in ready && exists k :: 0 <= k < n && readers[k].fd == fd
    decreases n
  {
    if n == 0 then {}
    else ServedFds(readers, ready, n - 1) + if readers[n - 1].fd in ready then {readers[n - 1].fd} else {}
  }

  /** The next reader is the next one of the original list, and was not served yet. */
  lemma NextReader(was: seq<ReadWatch>, ready: set<int>, drops: seq<bool>, turn: nat, now: seq<ReadWatch>)
    requires ReadersOk(was) && turn <= |was| == |drops|
    requires now == KeptReaders(was, ready, drops, turn) + was[turn..] && |KeptReaders(was, ready, drops, turn)| < |now|
    ensures var i := |KeptReaders(was, ready, drops, turn)|;
            && turn < |was| && now[i] == was[turn] && now[i].fd !in ServedFds(was, ready, turn)
            && KeptReaders(was, ready, drops, turn + 1) + was[turn + 1..]
               == if now[i].fd in ready && drops[turn] then now[..i] + now[i + 1..] else now
  {
    assert was[turn..] == [was[turn]] + was[turn + 1..];
  }

  /** A watch after its event: anything but EAGAIN ends its write. */
  function AfterEvents(w: AioWatch, events: seq<Event>): AioWatch {
    var r := ResultFor(events, w.fd);
    if r.None? || r.value == -EAGAIN then w else w.(pending := None)
  }

  /**
   t is s after the first n watches took their events: those watches changed as
   AfterEvents says, the others and the queues did not, and of the outstanding
   writes only reported ones are over.
   */
  ghost predicate Handled(s: Loop, t: Loop, n: nat, events: seq<Event>) {
    && n <= |t.aio| == |s.aio| && t.queues == s.queues
    && (forall k | 0 <= k < n :: t.aio[k] == AfterEvents(s.aio[k], events))
    && (forall k | n <= k < |t.aio| :: t.aio[k] == s.aio[k])
    && (forall k | 0 <= k < n && ResultFor(events, s.aio[k].fd).Some? :: s.aio[k].fd !in t.kernel)
    && (forall k | n <= k < |s.aio| && ResultFor(events, s.aio[k].fd).Some? :: s.aio[k].fd in t.kernel)
    && (forall fd | fd in t.kernel :: fd in s.kernel && t.kernel[fd] == s.kernel[fd])
    && (forall fd | fd in s.kernel && ResultFor(events, fd).None? :: fd in t.kernel)
  }

  /** A watch whose write was reported has nothing pending any more, unless the result was EAGAIN; no other watch changed. */
  lemma HandledIs(s: Loop, t: Loop, events: seq<Event>, k: nat)
    requires Handled(s, t, |s.aio|, events) && DistinctEvents(events) && k < |s.aio|
    ensures forall j | 0 <= j < |events| && events[j].fd == s.aio[k].fd ::
              t.aio[k] == (if events[j].res == -11 then s.aio[k] else s.aio[k].(pending := None)) && s.aio[k].fd !in t.kernel
    ensures (forall j | 0 <= j < |events| :: events[j].fd != s.aio[k].fd) ==> t.aio[k] == s.aio[k]
  {
    assert t.aio[k] == AfterEvents(s.aio[k], events);
    forall j | 0 <= j < |events| && events[j].fd == s.aio[k].fd
      ensures ResultFor(events, s.aio[k].fd) == Some(events[j].res)
    {
      var r := ResultFor(events, s.aio[k].fd);
      assert Event(s.aio[k].fd, r.value) in events;
    }
  }

  lemma HandledForgets(s: Loop, t: Loop, events: seq<Event>, fd: int)
    requires Handled(s, t, |t.aio|, events) && fd in t.kernel && ResultFor(events, fd).Some?
    ensures Handled(s, t.(kernel := t.kernel - {fd}), |t.aio|, events)
    ensures forall i | 0 <= i < |t.aio| :: t.aio[i].fd != fd
  {
    forall i | 0 <= i < |t.aio| ensures t.aio[i].fd != fd {
      assert t.aio[i] == AfterEvents(s.aio[i], events);
    }
  }

  lemma HandledStep(s: Loop, t: Loop, i: nat, events: seq<Event>, next: Loop, frames: nat)
    requires Inv(t, frames) && Handled(s, t, i, events) && i < |t.aio|
    requires t.aio[i].queue < |t.left| && next == EventNext(t, i, events)
    ensures ResultFor(events, t.aio[i].fd).Some? ==> t.aio[i].fd in t.kernel && t.aio[i].pending.Some?
    ensures s.aio[i].fd == t.aio[i].fd && Handled(s, next, i + 1, events)
  {
    assert t.aio[i] == s.aio[i];
    if ResultFor(events, t.aio[i].fd).Some? {
      EventFindsItsPacket(t, i, frames);
      HandledOthers(s, t, i, events, frames);
    }
  }

  /** The other watches have other descriptors. */
  lemma HandledOthers(s: Loop, t: Loop, i: nat, events: seq<Event>, frames: nat)
    requires Inv(t, frames) && Handled(s, t, i, events) && i < |t.aio|
    ensures forall k | 0 <= k < |t.aio| && k != i :: s.aio[k].fd != t.aio[i].fd
  {
    forall k | 0 <= k < |t.aio| && k != i ensures s.aio[k].fd != t.aio[i].fd {
      assert s.aio[k].fd == t.aio[k].fd;
    }
  }

  function WithoutReader(readers: seq<ReadWatch>, fd: int): seq<ReadWatch> {
    if readers == [] then []
    else (if readers[0].fd == fd then [] else [readers[0]]) + WithoutReader(readers[1..], fd)
  }

  function WithoutWatch(aio: seq<AioWatch>, fd: int): seq<AioWatch> {
    if aio == [] then [] else (if aio[0].fd == fd then [] else [aio[0]]) + WithoutWatch(aio[1..], fd)
  }

  /** Just the read watches of the descriptor are gone. */
  lemma {:induction false} WithoutReaderCounts(readers: seq<ReadWatch>, fd: int, r: ReadWatch)
    ensures multiset(WithoutReader(readers, fd))[r] == if r.fd == fd then 0 else multiset(readers)[r]
    decreases |readers|
  {
    if readers != [] {
      WithoutReaderCounts(readers[1..], fd, r);
      assert readers == [readers[0]] + readers[1..];
    }
  }

  /** Just the write watches of the descriptor are gone. */
  lemma {:induction false} WithoutWatchCounts(aio: seq<AioWatch>, fd: int, w: AioWatch)
    ensures multiset(WithoutWatch(aio, fd))[w] == if w.fd == fd then 0 else multiset(aio)[w]
    decreases |aio|
  {
    if aio != [] {
      WithoutWatchCounts(aio[1..], fd, w);
      assert aio == [aio[0]] + aio[1..];
    }
  }

  lemma ReaderStep(readers: seq<ReadWatch>, i: nat, fd: int)
    requires i < |readers|
    ensures readers[i].fd == fd ==>
              var rest := readers[..i] + readers[i + 1..];
              rest[..i] == readers[..i] && WithoutReader(rest[i..], fd) == WithoutReader(readers[i..], fd)
    ensures readers[i].fd != fd ==>
              readers[..i] + WithoutReader(readers[i..], fd) == readers[..i + 1] + WithoutReader(readers[i + 1..], fd)
  {
    assert readers[i..][1..] == readers[i + 1..];
    assert (readers[..i] + readers[i + 1..])[i..] == readers[i + 1..];
    assert readers[..i + 1] == readers[..i] + [readers[i]];
  }

  lemma WatchStep(aio: seq<AioWatch>, i: nat, fd: int)
    requires i < |aio|
    ensures aio[i].fd == fd ==>
              var rest := aio[..i] + aio[i + 1..];
              rest[..i] == aio[..i] && WithoutWatch(rest[i..], fd) == WithoutWatch(aio[i..], fd)
    ensures aio[i].fd != fd ==>
              aio[..i] + WithoutWatch(aio[i..], fd) == aio[..i + 1] + WithoutWatch(aio[i + 1..], fd)
  {
    assert aio[i..][1..] == aio[i + 1..];
    assert (aio[..i] + aio[i + 1..])[i..] == aio[i + 1..];
    assert aio[..i + 1] == aio[..i] + [aio[i]];
  }
}
