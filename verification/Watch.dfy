/**
 The event loop of router/watch.c as a state machine: packets are pushed on
 write queues and counted per flow, the loop hands at most one write per watch
 to the kernel, and completions come back in any order.

 The kernel is part of the state. Its choices (which submits it accepts, what
 it completes when and how, which descriptors are readable) are arguments of
 the steps, so every interleaving the program can see is a run.
 */
module Watch {
  import opened Bytes
  import opened Hdlc
  import Nhdlc
  import Encoding

  const FLOW_WATERMARK: nat := 10

  datatype Mbuf = Mbuf(flow: Option<nat>, data: seq<byte>)

  /** A write watch. */
  datatype AioWatch = AioWatch(fd: int, queue: nat, pending: Option<Mbuf>)

  datatype ReadWatch = ReadWatch(fd: int, flow: Option<nat>)

  datatype Client = Client(queue: nat, enabled: bool, encoding: Encoding.EncodeType)

  /**
   packets, queues, aio, readers, armed (the descriptors given to select) and
   clients are the program's; kernel holds the outstanding writes. The last
   three record, for each queue, what was pushed and what has left it, and the
   packets that were in flight when their watch was removed.
   */
  datatype Loop = Loop(
    packets: map<nat, nat>,
    queues: seq<seq<Mbuf>>,
    aio: seq<AioWatch>,
    readers: seq<ReadWatch>,
    armed: set<int>,
    clients: seq<Client>,
    kernel: map<int, Mbuf>,
    pushed: seq<seq<Mbuf>>,
    left: seq<seq<Mbuf>>,
    orphans: seq<Mbuf>)

  function PacketsOf(packets: map<nat, nat>, f: nat): nat {
    if f in packets then packets[f] else 0
  }

  function FlowInc(packets: map<nat, nat>, flow: Option<nat>): map<nat, nat> {
    if flow.None? then packets else packets[flow.value := PacketsOf(packets, flow.value) + 1]
  }

  /** An unbalanced decrement leaves the counter at zero. */
  function FlowDec(packets: map<nat, nat>, flow: Option<nat>): map<nat, nat> {
    if flow.None? || PacketsOf(packets, flow.value) == 0 then packets
    else packets[flow.value := PacketsOf(packets, flow.value) - 1]
  }

  predicate FlowBlocked(packets: map<nat, nat>, flow: Option<nat>) {
    flow.Some? && PacketsOf(packets, flow.value) > FLOW_WATERMARK
  }

  // ---------------------------------------------------------------- steps

  function Push(s: Loop, q: nat, m: Mbuf): Loop
    requires q < |s.queues| == |s.pushed|
  {
    s.(packets := FlowInc(s.packets, m.flow),
       queues := s.queues[q := s.queues[q] + [m]],
       pushed := s.pushed[q := s.pushed[q] + [m]])
  }

  /** The octets a client is sent for a message. */
  function Wire(encoding: Encoding.EncodeType, payload: seq<byte>): seq<byte> {
    match encoding
    case Raw => payload
    case Hdlc => Encode(payload)
    case Nhdlc =>
      Nhdlc.FrameOf(0x7e, 1, OctetOf(|payload| % 0x100), OctetOf(|payload| / 0x100 % 0x100), payload)
  }

  /** dm_send_flow(): a disabled client is sent nothing. */
  function SendFlow(s: Loop, c: nat, payload: seq<byte>, flow: Option<nat>): Loop
    requires c < |s.clients| && s.clients[c].queue < |s.queues| == |s.pushed|
  {
    var client := s.clients[c];
    if client.enabled then Push(s, client.queue, Mbuf(flow, Wire(client.encoding, payload))) else s
  }

  ghost predicate ClientsOk(s: Loop) {
    && |s.queues| == |s.pushed| == |s.left|
    && forall c | 0 <= c < |s.clients| :: s.clients[c].queue < |s.queues|
  }

  /** dm_broadcast() to the first n clients. */
  function Broadcast(s: Loop, n: nat, payload: seq<byte>, flow: Option<nat>): (t: Loop)
    requires n <= |s.clients| && ClientsOk(s)
    ensures ClientsOk(t) && t.clients == s.clients && |t.queues| == |s.queues|
    ensures t.aio == s.aio && t.left == s.left && t.kernel == s.kernel && t.orphans == s.orphans
    ensures t.readers == s.readers && t.armed == s.armed
    decreases n
  {
    if n == 0 then s else SendFlow(Broadcast(s, n - 1, payload, flow), n - 1, payload, flow)
  }

  /** How many of the first n clients a broadcast reaches. */
  function EnabledCount(clients: seq<Client>, n: nat): (k: nat)
    requires n <= |clients|
    ensures k <= n
    decreases n
  {
    if n == 0 then 0 else EnabledCount(clients, n - 1) + if clients[n - 1].enabled then 1 else 0
  }

  /** A read callback that broadcasts some frames. */
  function BroadcastAll(s: Loop, payloads: seq<seq<byte>>, flow: Option<nat>): (t: Loop)
    requires ClientsOk(s)
    ensures ClientsOk(t) && t.clients == s.clients && |t.queues| == |s.queues|
    ensures t.aio == s.aio && t.left == s.left && t.kernel == s.kernel && t.orphans == s.orphans
    ensures t.readers == s.readers && t.armed == s.armed
  {
    if payloads == [] then s
    else
      var t := BroadcastAll(s, payloads[..|payloads| - 1], flow);
      Broadcast(t, |t.clients|, payloads[|payloads| - 1], flow)
  }

  lemma BroadcastOneMore(s: Loop, payloads: seq<seq<byte>>, j: nat, flow: Option<nat>)
    requires ClientsOk(s) && j < |payloads|
    ensures var t := BroadcastAll(s, payloads[..j], flow);
            BroadcastAll(s, payloads[..j + 1], flow) == Broadcast(t, |t.clients|, payloads[j], flow)
  {
    assert payloads[..j + 1][..j] == payloads[..j];
  }

  /** watch_submit_aio() on a watch with nothing pending and something queued. */
  function Submit(s: Loop, i: nat, accepted: bool): Loop
    requires i < |s.aio| && s.aio[i].queue < |s.queues| && s.queues[s.aio[i].queue] != []
  {
    var w := s.aio[i];
    var m := s.queues[w.queue][0];
    if accepted then
      s.(queues := s.queues[w.queue := s.queues[w.queue][1..]],
         aio := s.aio[i := w.(pending := Some(m))],
         kernel := s.kernel[w.fd := m])
    else s
  }

  /**
   The event of a watch's write. After EAGAIN the write is over as far as the
   kernel is concerned but stays pending; any other result frees the packet.
   */
  function Complete(s: Loop, i: nat, res: int): Loop
    requires i < |s.aio| && s.aio[i].pending.Some? && s.aio[i].queue < |s.left|
  {
    var w := s.aio[i];
    if res == -EAGAIN then s.(kernel := s.kernel - {w.fd})
    else
      s.(packets := FlowDec(s.packets, w.pending.value.flow),
         aio := s.aio[i := w.(pending := None)],
         kernel := s.kernel - {w.fd},
         left := s.left[w.queue := s.left[w.queue] + [w.pending.value]])
  }

  /** The list without the watch of a descriptor; its pending packet is never heard of again. */
  function RemoveAio(s: Loop, i: nat): Loop
    requires i < |s.aio| && s.aio[i].queue < |s.left|
  {
    var w := s.aio[i];
    var t := s.(aio := s.aio[..i] + s.aio[i + 1..]);
    if w.pending.None? then t
    else t.(orphans := s.orphans + [w.pending.value],
            left := s.left[w.queue := s.left[w.queue] + [w.pending.value]])
  }

  /** The read watches that select() is asked about. */
  function Poll(s: Loop): Loop {
    s.(armed := set r | r in s.readers && !FlowBlocked(s.packets, r.flow) :: r.fd)
  }

  /** The callback of a readable watch; at most once per turn of the loop. */
  function Callback(s: Loop, r: nat, payloads: seq<seq<byte>>): Loop
    requires r < |s.readers| && ClientsOk(s)
  {
    BroadcastAll(s.(armed := s.armed - {s.readers[r].fd}), payloads, s.readers[r].flow)
  }

  /** dm_add(): a client with its own queue and write watch, disabled at first. */
  function AddClient(s: Loop, fd: int, encoding: Encoding.EncodeType): Loop {
    s.(clients := s.clients + [Client(|s.queues|, false, encoding)],
       queues := s.queues + [[]], pushed := s.pushed + [[]], left := s.left + [[]],
       aio := s.aio + [AioWatch(fd, |s.queues|, None)])
  }

  datatype Action =
    | DoPoll
    | DoSubmit(i: nat, accepted: bool)
    | DoComplete(i: nat, res: int)
    | DoOrphanEvent(fd: int)
    | DoCallback(r: nat, payloads: seq<seq<byte>>)
    | DoPush(q: nat, data: seq<byte>)
    | DoAddQueue
    | DoAddWriteq(fd: int, q: nat)
    | DoRemoveAio(i: nat)
    | DoAddRead(fd: int, flow: Option<nat>)
    | DoRemoveRead(r: nat)
    | DoAddClient(fd: int, encoding: Encoding.EncodeType)
    | DoSetClient(c: nat, enabled: bool, encoding: Encoding.EncodeType)

  /**
   When a step can happen. A completion needs an outstanding write. New watches
   use descriptors and queues that no watch and no outstanding write uses, and
   a flow belongs to one read watch.
   */
  ghost predicate Enabled(s: Loop, a: Action, frames: nat) {
    match a
    case DoPoll => true
    case DoSubmit(i, _) =>
      i < |s.aio| && s.aio[i].pending.None? && s.aio[i].queue < |s.queues| && s.queues[s.aio[i].queue] != []
    case DoComplete(i, _) => i < |s.aio| && s.aio[i].fd in s.kernel
    case DoOrphanEvent(fd) => fd in s.kernel && forall i | 0 <= i < |s.aio| :: s.aio[i].fd != fd
    case DoCallback(r, payloads) => r < |s.readers| && s.readers[r].fd in s.armed && |payloads| <= frames
    case DoPush(q, _) => q < |s.queues|
    case DoAddQueue => true
    case DoAddWriteq(fd, q) =>
      && q < |s.queues| && fd !in s.kernel
      && forall i | 0 <= i < |s.aio| :: s.aio[i].fd != fd && s.aio[i].queue != q
    case DoRemoveAio(i) => i < |s.aio|
    case DoAddRead(fd, flow) =>
      && fd !in s.armed
      && forall i | 0 <= i < |s.readers| :: s.readers[i].fd != fd && (flow.Some? ==> s.readers[i].flow != flow)
    case DoRemoveRead(r) => r < |s.readers|
    case DoAddClient(fd, _) => fd !in s.kernel && forall i | 0 <= i < |s.aio| :: s.aio[i].fd != fd
    case DoSetClient(c, _, _) => c < |s.clients|
  }

  // ---------------------------------------------------------------- the invariant

  function Count(f: nat, s: seq<Mbuf>): nat {
    if s == [] then 0 else Count(f, s[..|s| - 1]) + (if s[|s| - 1].flow == Some(f) then 1 else 0)
  }

  function CountAll(f: nat, ss: seq<seq<Mbuf>>): nat {
    if ss == [] then 0 else CountAll(f, ss[..|ss| - 1]) + Count(f, ss[|ss| - 1])
  }

  function PendingSeq(w: AioWatch): seq<Mbuf> {
    if w.pending.Some? then [w.pending.value] else []
  }

  function Pendings(aio: seq<AioWatch>): (ss: seq<seq<Mbuf>>)
    ensures |ss| == |aio|
  {
    seq(|aio|, i requires 0 <= i < |aio| => PendingSeq(aio[i]))
  }

  /** The packets of a flow that have been pushed and not completed: queued, in flight or orphaned. */
  function Outstanding(s: Loop, f: nat): nat {
    CountAll(f, s.queues) + CountAll(f, Pendings(s.aio)) + Count(f, s.orphans)
  }

  /** What is pending for a queue, through whichever watch serves it. */
  function PendingOf(aio: seq<AioWatch>, q: nat): seq<Mbuf> {
    if aio == [] then []
    else if aio[|aio| - 1].queue == q then PendingSeq(aio[|aio| - 1])
    else PendingOf(aio[..|aio| - 1], q)
  }

  ghost predicate WatchesOk(aio: seq<AioWatch>, queues: nat) {
    && (forall i | 0 <= i < |aio| :: aio[i].queue < queues)
    && (forall i, j | 0 <= i < j < |aio| :: aio[i].fd != aio[j].fd && aio[i].queue != aio[j].queue)
  }

  ghost predicate ReadersOk(readers: seq<ReadWatch>) {
    forall i, j | 0 <= i < j < |readers| ::
      readers[i].fd != readers[j].fd && (readers[i].flow.Some? ==> readers[i].flow != readers[j].flow)
  }

  /** An outstanding write is the pending packet of its watch, if the watch is still there. */
  ghost predicate KernelOk(aio: seq<AioWatch>, kernel: map<int, Mbuf>) {
    forall i | 0 <= i < |aio| && aio[i].fd in kernel :: aio[i].pending == Some(kernel[aio[i].fd])
  }

  /** Every flow counter is the number of its packets still outstanding. */
  ghost predicate Balanced(s: Loop) {
    forall f: nat :: PacketsOf(s.packets, f) == Outstanding(s, f)
  }

  /** What was pushed on a queue has left it, is pending or is queued, in this order. */
  ghost predicate Fifo(s: Loop)
    requires |s.queues| == |s.pushed| == |s.left|
  {
    forall q | 0 <= q < |s.queues| :: s.pushed[q] == s.left[q] + PendingOf(s.aio, q) + s.queues[q]
  }

  /** Armed flows are below the watermark, and no flow is far above it. */
  ghost predicate Bounded(s: Loop, frames: nat) {
    && (forall r | r in s.readers && r.fd in s.armed :: !FlowBlocked(s.packets, r.flow))
    && (forall f: nat :: PacketsOf(s.packets, f) <= FLOW_WATERMARK + frames * |s.clients|)
  }

  ghost predicate Core(s: Loop) {
    && ClientsOk(s) && WatchesOk(s.aio, |s.queues|) && ReadersOk(s.readers) && KernelOk(s.aio, s.kernel)
    && Balanced(s) && Fifo(s)
  }

  ghost predicate Inv(s: Loop, frames: nat) {
    Core(s) && Bounded(s, frames)
  }

  ghost function Apply(s: Loop, a: Action, frames: nat): Loop
    requires Inv(s, frames) && Enabled(s, a, frames)
  {
    match a
    case DoPoll => Poll(s)
    case DoSubmit(i, accepted) => Submit(s, i, accepted)
    case DoComplete(i, res) => Complete(s, i, res)
    case DoOrphanEvent(fd) => s.(kernel := s.kernel - {fd})
    case DoCallback(r, payloads) => Callback(s, r, payloads)
    case DoPush(q, data) => Push(s, q, Mbuf(None, data))
    case DoAddQueue => s.(queues := s.queues + [[]], pushed := s.pushed + [[]], left := s.left + [[]])
    case DoAddWriteq(fd, q) => s.(aio := s.aio + [AioWatch(fd, q, None)])
    case DoRemoveAio(i) => RemoveAio(s, i)
    case DoAddRead(fd, flow) => s.(readers := s.readers + [ReadWatch(fd, flow)])
    case DoRemoveRead(r) => s.(readers := s.readers[..r] + s.readers[r + 1..])
    case DoAddClient(fd, encoding) => AddClient(s, fd, encoding)
    case DoSetClient(c, enabled, encoding) =>
      s.(clients := s.clients[c := s.clients[c].(enabled := enabled, encoding := encoding)])
  }

  // ---------------------------------------------------------------- counting

  lemma {:induction false} CountConcat(f: nat, a: seq<Mbuf>, b: seq<Mbuf>)
    ensures Count(f, a + b) == Count(f, a) + Count(f, b)
    decreases |b|
  {
    if b == [] {
      assert a + b == a;
    } else {
      assert (a + b)[..|a + b| - 1] == a + b[..|b| - 1];
      CountConcat(f, a, b[..|b| - 1]);
    }
  }

  lemma {:induction false} CountAllConcat(f: nat, a: seq<seq<Mbuf>>, b: seq<seq<Mbuf>>)
    ensures CountAll(f, a + b) == CountAll(f, a) + CountAll(f, b)
    decreases |b|
  {
    if b == [] {
      assert a + b == a;
    } else {
      assert (a + b)[..|a + b| - 1] == a + b[..|b| - 1];
      CountAllConcat(f, a, b[..|b| - 1]);
    }
  }

  lemma CountOne(f: nat, m: Mbuf)
    ensures Count(f, [m]) == if m.flow == Some(f) then 1 else 0
  {
    assert [m][..0] == [];
  }

  lemma CountAllOne(f: nat, s: seq<Mbuf>)
    ensures CountAll(f, [s]) == Count(f, s)
  {
    assert [s][..0] == [];
  }

  lemma CountAllUpdate(f: nat, ss: seq<seq<Mbuf>>, i: nat, s: seq<Mbuf>)
    requires i < |ss|
    ensures CountAll(f, ss[i := s]) + Count(f, ss[i]) == CountAll(f, ss) + Count(f, s)
  {
    assert ss == ss[..i] + [ss[i]] + ss[i + 1..];
    assert ss[i := s] == ss[..i] + [s] + ss[i + 1..];
    CountAllConcat(f, ss[..i] + [ss[i]], ss[i + 1..]);
    CountAllConcat(f, ss[..i] + [s], ss[i + 1..]);
    CountAllConcat(f, ss[..i], [ss[i]]);
    CountAllConcat(f, ss[..i], [s]);
    CountAllOne(f, ss[i]);
    CountAllOne(f, s);
  }

  lemma CountAllRemove(f: nat, ss: seq<seq<Mbuf>>, i: nat)
    requires i < |ss|
    ensures CountAll(f, ss[..i] + ss[i + 1..]) + Count(f, ss[i]) == CountAll(f, ss)
  {
    assert ss == ss[..i] + [ss[i]] + ss[i + 1..];
    CountAllConcat(f, ss[..i] + [ss[i]], ss[i + 1..]);
    CountAllConcat(f, ss[..i], [ss[i]]);
    CountAllConcat(f, ss[..i], ss[i + 1..]);
    CountAllOne(f, ss[i]);
  }

  lemma CountAppend(f: nat, s: seq<Mbuf>, m: Mbuf)
    ensures Count(f, s + [m]) == Count(f, s) + if m.flow == Some(f) then 1 else 0
  {
    CountConcat(f, s, [m]);
    CountOne(f, m);
  }

  /** The pending packet of a queue is that of its watch. */
  lemma {:induction false} PendingOfAt(aio: seq<AioWatch>, i: nat, queues: nat)
    requires WatchesOk(aio, queues) && i < |aio|
    ensures PendingOf(aio, aio[i].queue) == PendingSeq(aio[i])
    decreases |aio|
  {
    if i < |aio| - 1 {
      assert aio[..|aio| - 1][i] == aio[i];
      PendingOfAt(aio[..|aio| - 1], i, queues);
    }
  }

  lemma {:induction false} PendingOfNone(aio: seq<AioWatch>, q: nat)
    requires forall i | 0 <= i < |aio| :: aio[i].queue != q
    ensures PendingOf(aio, q) == []
    decreases |aio|
  {
    if aio != [] {
      PendingOfNone(aio[..|aio| - 1], q);
    }
  }

  /** Changing or removing one watch leaves the pending packets of other queues. */
  lemma {:induction false} PendingOfOthers(aio: seq<AioWatch>, i: nat, w: AioWatch, q: nat)
    requires i < |aio| && aio[i].queue == w.queue != q
    ensures PendingOf(aio[i := w], q) == PendingOf(aio, q)
    ensures PendingOf(aio[..i] + aio[i + 1..], q) == PendingOf(aio, q)
    decreases |aio|
  {
    var front := aio[..|aio| - 1];
    if i < |aio| - 1 {
      PendingOfOthers(front, i, w, q);
      assert aio[i := w][..|aio| - 1] == front[i := w];
      assert (aio[..i] + aio[i + 1..])[..|aio| - 2] == front[..i] + front[i + 1..];
    } else {
      assert aio[i := w][..|aio| - 1] == front;
      assert aio[..i] + aio[i + 1..] == front;
    }
  }

  // ---------------------------------------------------------------- every step keeps the invariant

  lemma PushCore(s: Loop, q: nat, m: Mbuf)
    requires Core(s) && q < |s.queues|
    ensures Core(Push(s, q, m))
  {
    var t := Push(s, q, m);
    forall f: nat ensures PacketsOf(t.packets, f) == Outstanding(t, f) {
      CountAllUpdate(f, s.queues, q, s.queues[q] + [m]);
      CountAppend(f, s.queues[q], m);
      assert PacketsOf(s.packets, f) == Outstanding(s, f);
    }
    forall k | 0 <= k < |t.queues| ensures t.pushed[k] == t.left[k] + PendingOf(t.aio, k) + t.queues[k] {
      assert s.pushed[k] == s.left[k] + PendingOf(s.aio, k) + s.queues[k];
      if k == q {
        var before := s.left[q] + PendingOf(s.aio, q);
        assert t.pushed[q] == s.pushed[q] + [m];
        assert t.queues[q] == s.queues[q] + [m];
        ConcatAssociative(before, s.queues[q], [m]);
        assert t.pushed[q] == before + t.queues[q];
      } else {
        assert t.pushed[k] == s.pushed[k];
        assert t.queues[k] == s.queues[k];
      }
    }
  }

  /** t is s after n packets of a flow were pushed. */
  ghost predicate Raised(s: Loop, t: Loop, flow: Option<nat>, n: nat) {
    && t.readers == s.readers && t.armed == s.armed
    && forall f: nat :: PacketsOf(t.packets, f) == PacketsOf(s.packets, f) + if flow == Some(f) then n else 0
  }

  lemma SendFlowCore(s: Loop, c: nat, payload: seq<byte>, flow: Option<nat>)
    requires Core(s) && c < |s.clients|
    ensures Core(SendFlow(s, c, payload, flow))
  {
    var client := s.clients[c];
    if client.enabled {
      PushCore(s, client.queue, Mbuf(flow, Wire(client.encoding, payload)));
    }
  }

  lemma {:induction false} BroadcastCore(s: Loop, n: nat, payload: seq<byte>, flow: Option<nat>)
    requires Core(s) && n <= |s.clients|
    ensures Core(Broadcast(s, n, payload, flow))
    decreases n
  {
    if n > 0 {
      BroadcastCore(s, n - 1, payload, flow);
      SendFlowCore(Broadcast(s, n - 1, payload, flow), n - 1, payload, flow);
    }
  }

  lemma {:induction false} BroadcastRaises(s: Loop, n: nat, payload: seq<byte>, flow: Option<nat>)
    requires ClientsOk(s) && n <= |s.clients|
    ensures Raised(s, Broadcast(s, n, payload, flow), flow, EnabledCount(s.clients, n))
    decreases n
  {
    if n > 0 {
      BroadcastRaises(s, n - 1, payload, flow);
      var t := Broadcast(s, n - 1, payload, flow);
      RaisedTwice(s, t, SendFlow(t, n - 1, payload, flow), flow,
                  EnabledCount(s.clients, n - 1), if t.clients[n - 1].enabled then 1 else 0);
    }
  }

  lemma RaisedTwice(s: Loop, t: Loop, u: Loop, flow: Option<nat>, m: nat, n: nat)
    requires Raised(s, t, flow, m) && Raised(t, u, flow, n)
    ensures Raised(s, u, flow, m + n)
  {
  }

  lemma {:induction false} BroadcastAllCore(s: Loop, payloads: seq<seq<byte>>, flow: Option<nat>)
    requires Core(s)
    ensures Core(BroadcastAll(s, payloads, flow))
    ensures Raised(s, BroadcastAll(s, payloads, flow), flow, |payloads| * EnabledCount(s.clients, |s.clients|))
    decreases |payloads|
  {
    if payloads != [] {
      var front := payloads[..|payloads| - 1];
      BroadcastAllCore(s, front, flow);
      BroadcastCore(BroadcastAll(s, front, flow), |s.clients|, payloads[|payloads| - 1], flow);
      BroadcastRaises(BroadcastAll(s, front, flow), |s.clients|, payloads[|payloads| - 1], flow);
      var n := EnabledCount(s.clients, |s.clients|);
      assert (|payloads| - 1) * n + n == |payloads| * n;
    }
  }

  lemma PendingsUpdate(aio: seq<AioWatch>, i: nat, w: AioWatch)
    requires i < |aio|
    ensures Pendings(aio[i := w]) == Pendings(aio)[i := PendingSeq(w)]
    ensures Pendings(aio[..i] + aio[i + 1..]) == Pendings(aio)[..i] + Pendings(aio)[i + 1..]
  {
  }

  lemma SubmitCore(s: Loop, i: nat, accepted: bool, frames: nat)
    requires Core(s) && Enabled(s, DoSubmit(i, accepted), frames)
    ensures Core(Submit(s, i, accepted))
  {
    if accepted {
      var w, t := s.aio[i], Submit(s, i, accepted);
      var m := s.queues[w.queue][0];
      forall f: nat ensures PacketsOf(t.packets, f) == Outstanding(t, f) {
        SubmitCount(s, i, f);
      }
      forall k | 0 <= k < |t.queues| ensures t.pushed[k] == t.left[k] + PendingOf(t.aio, k) + t.queues[k] {
        if k == w.queue {
          PendingOfAt(s.aio, i, |s.queues|);
          PendingOfAt(t.aio, i, |s.queues|);
          assert s.queues[k] == [m] + s.queues[k][1..];
        } else {
          PendingOfOthers(s.aio, i, t.aio[i], k);
        }
      }
    }
  }

  /** Handing a packet to the kernel moves it from the queue to the watch. */
  lemma SubmitCount(s: Loop, i: nat, f: nat)
    requires Core(s) && Enabled(s, DoSubmit(i, true), 0)
    ensures Outstanding(Submit(s, i, true), f) == Outstanding(s, f)
  {
    var w := s.aio[i];
    var queue := s.queues[w.queue];
    CountAllUpdate(f, s.queues, w.queue, queue[1..]);
    PendingsUpdate(s.aio, i, w.(pending := Some(queue[0])));
    CountAllUpdate(f, Pendings(s.aio), i, [queue[0]]);
    assert queue == [queue[0]] + queue[1..];
    CountConcat(f, [queue[0]], queue[1..]);
  }

  /** A completion takes the packet off the watch and off its flow's counter. */
  lemma CompleteCount(s: Loop, i: nat, f: nat)
    requires Core(s) && i < |s.aio| && s.aio[i].pending.Some?
    ensures var t := Complete(s, i, 0);
            && PacketsOf(t.packets, f) == Outstanding(t, f)
            && PacketsOf(t.packets, f) <= PacketsOf(s.packets, f)
    ensures s.aio[i].pending.value.flow == Some(f) ==> PacketsOf(s.packets, f) > 0
  {
    var m := s.aio[i].pending.value;
    PendingsUpdate(s.aio, i, s.aio[i].(pending := None));
    CountAllUpdate(f, Pendings(s.aio), i, []);
    CountOne(f, m);
    assert Outstanding(s, f) == PacketsOf(s.packets, f);
  }

  /** Leaving the pending slot for the record of what has left, in order. */
  lemma LeaveFifo(s: Loop, i: nat, aio: seq<AioWatch>, left: seq<seq<Mbuf>>)
    requires Core(s) && i < |s.aio| && s.aio[i].pending.Some?
    requires left == s.left[s.aio[i].queue := s.left[s.aio[i].queue] + [s.aio[i].pending.value]]
    requires aio == s.aio[i := s.aio[i].(pending := None)] || aio == s.aio[..i] + s.aio[i + 1..]
    ensures Fifo(s.(aio := aio, left := left))
  {
    var w := s.aio[i];
    PendingOfAt(s.aio, i, |s.queues|);
    forall k | 0 <= k < |s.queues| ensures s.pushed[k] == left[k] + PendingOf(aio, k) + s.queues[k] {
      if k != w.queue {
        PendingOfOthers(s.aio, i, w.(pending := None), k);
      } else if |aio| == |s.aio| {
        PendingOfAt(aio, i, |s.queues|);
        assert left[k] + [] == left[k];
      } else {
        PendingOfNone(aio, k);
        assert left[k] + [] == left[k];
      }
    }
  }

  lemma CompleteCore(s: Loop, i: nat, res: int)
    requires Core(s) && i < |s.aio| && s.aio[i].fd in s.kernel
    ensures s.aio[i].pending.Some? && Core(Complete(s, i, res))
    ensures forall f: nat :: PacketsOf(Complete(s, i, res).packets, f) <= PacketsOf(s.packets, f)
  {
    if res != -EAGAIN {
      forall f: nat
        ensures PacketsOf(Complete(s, i, 0).packets, f) == Outstanding(Complete(s, i, 0), f)
        ensures PacketsOf(Complete(s, i, 0).packets, f) <= PacketsOf(s.packets, f)
      {
        CompleteCount(s, i, f);
      }
      LeaveFifo(s, i, Complete(s, i, 0).aio, Complete(s, i, 0).left);
    }
  }

  /** Removing a watch orphans its packet, which stays outstanding. */
  lemma RemoveCount(s: Loop, i: nat, f: nat)
    requires i < |s.aio| && s.aio[i].queue < |s.left|
    ensures Outstanding(RemoveAio(s, i), f) == Outstanding(s, f)
  {
    var m := PendingSeq(s.aio[i]);
    PendingsUpdate(s.aio, i, s.aio[i]);
    CountAllRemove(f, Pendings(s.aio), i);
    CountConcat(f, s.orphans, m);
    assert RemoveAio(s, i).orphans == s.orphans + m;
    assert Pendings(s.aio)[i] == m;
  }

  lemma RemoveWatch(aio: seq<AioWatch>, i: nat, queues: nat, kernel: map<int, Mbuf>)
    requires i < |aio| && WatchesOk(aio, queues) && KernelOk(aio, kernel)
    ensures WatchesOk(aio[..i] + aio[i + 1..], queues) && KernelOk(aio[..i] + aio[i + 1..], kernel)
  {
  }

  lemma RemoveFifo(s: Loop, i: nat)
    requires Core(s) && i < |s.aio|
    ensures Fifo(RemoveAio(s, i))
  {
    if s.aio[i].pending.Some? {
      LeaveFifo(s, i, RemoveAio(s, i).aio, RemoveAio(s, i).left);
    } else {
      RemoveIdleFifo(s, i);
    }
  }

  lemma RemoveAioCore(s: Loop, i: nat)
    requires Core(s) && i < |s.aio|
    ensures Core(RemoveAio(s, i))
  {
    RemoveWatch(s.aio, i, |s.queues|, s.kernel);
    RemoveFifo(s, i);
    forall f: nat ensures Outstanding(RemoveAio(s, i), f) == Outstanding(s, f) {
      RemoveCount(s, i, f);
    }
  }

  lemma RemoveIdleFifo(s: Loop, i: nat)
    requires Core(s) && i < |s.aio| && s.aio[i].pending.None?
    ensures Fifo(s.(aio := s.aio[..i] + s.aio[i + 1..]))
  {
    var aio := s.aio[..i] + s.aio[i + 1..];
    forall k | 0 <= k < |s.queues| ensures PendingOf(aio, k) == PendingOf(s.aio, k) {
      if k == s.aio[i].queue {
        PendingOfAt(s.aio, i, |s.queues|);
        PendingOfNone(aio, k);
      } else {
        PendingOfOthers(s.aio, i, s.aio[i], k);
      }
    }
  }

  /** A new watch has nothing pending; a new queue has nothing at all. */
  lemma AddWriteqCore(s: Loop, fd: int, q: nat)
    requires Core(s) && Enabled(s, DoAddWriteq(fd, q), 0)
    ensures Core(s.(aio := s.aio + [AioWatch(fd, q, None)]))
  {
    var aio := s.aio + [AioWatch(fd, q, None)];
    assert aio[..|s.aio|] == s.aio;
    assert Pendings(aio) == Pendings(s.aio) + [[]];
    forall f: nat ensures CountAll(f, Pendings(aio)) == CountAll(f, Pendings(s.aio)) {
      CountAllConcat(f, Pendings(s.aio), [[]]);
      CountAllOne(f, []);
    }
    PendingOfNone(s.aio, q);
  }

  lemma AddQueueCore(s: Loop)
    requires Core(s)
    ensures Core(s.(queues := s.queues + [[]], pushed := s.pushed + [[]], left := s.left + [[]]))
  {
    forall f: nat ensures CountAll(f, s.queues + [[]]) == CountAll(f, s.queues) {
      CountAllConcat(f, s.queues, [[]]);
      CountAllOne(f, []);
    }
    PendingOfNone(s.aio, |s.queues|);
  }

  /** Steps on descriptors, readers and clients do not touch packets or queues. */
  lemma SameTraffic(s: Loop, t: Loop)
    requires Core(s) && ClientsOk(t) && ReadersOk(t.readers) && KernelOk(t.aio, t.kernel)
    requires t.packets == s.packets && t.queues == s.queues && t.aio == s.aio
    requires t.pushed == s.pushed && t.left == s.left && t.orphans == s.orphans
    ensures Core(t)
  {
    assert forall f: nat :: Outstanding(t, f) == Outstanding(s, f);
  }

  lemma StillBounded(s: Loop, t: Loop, frames: nat)
    requires Bounded(s, frames) && |t.clients| >= |s.clients|
    requires forall f: nat :: PacketsOf(t.packets, f) <= PacketsOf(s.packets, f)
    requires forall x | x in t.readers && x.fd in t.armed :: x in s.readers && x.fd in s.armed
    ensures Bounded(t, frames)
  {
    assert frames * |s.clients| <= frames * |t.clients|;
  }

  lemma PollKeeps(s: Loop, frames: nat)
    requires Inv(s, frames)
    ensures Inv(Poll(s), frames)
  {
    var t := Poll(s);
    SameTraffic(s, t);
    forall x | x in t.readers && x.fd in t.armed ensures !FlowBlocked(t.packets, x.flow) {
      var y :| y in s.readers && !FlowBlocked(s.packets, y.flow) && y.fd == x.fd;
      assert x == y;
    }
  }

  /** Its descriptor disarmed, an armed reader is still below the watermark, and no other armed one shares its flow. */
  lemma Disarm(s: Loop, r: nat, frames: nat)
    requires Inv(s, frames) && r < |s.readers| && s.readers[r].fd in s.armed
    ensures var t := s.(armed := s.armed - {s.readers[r].fd});
            && Inv(t, frames) && !FlowBlocked(s.packets, s.readers[r].flow)
            && forall x | x in t.readers && x.fd in t.armed :: x.flow.None? || x.flow != s.readers[r].flow
  {
    var t := s.(armed := s.armed - {s.readers[r].fd});
    SameTraffic(s, t);
    StillBounded(s, t, frames);
    assert s.readers[r] in s.readers;
    forall x | x in t.readers && x.fd in t.armed ensures x.flow.None? || x.flow != s.readers[r].flow {
      var i :| 0 <= i < |s.readers| && s.readers[i] == x;
      assert i != r;
    }
  }

  lemma ProductBound(a: nat, b: nat, c: nat, d: nat)
    requires a <= b && c <= d
    ensures a * c <= b * d
  {
    assert a * c <= b * c <= b * d;
  }

  lemma CallbackKeeps(s: Loop, r: nat, payloads: seq<seq<byte>>, frames: nat)
    requires Inv(s, frames) && Enabled(s, DoCallback(r, payloads), frames)
    ensures Inv(Callback(s, r, payloads), frames)
  {
    var t := s.(armed := s.armed - {s.readers[r].fd});
    Disarm(s, r, frames);
    BroadcastAllCore(t, payloads, s.readers[r].flow);
    ProductBound(|payloads|, frames, EnabledCount(s.clients, |s.clients|), |s.clients|);
  }

  lemma AddClientKeeps(s: Loop, fd: int, encoding: Encoding.EncodeType, frames: nat)
    requires Inv(s, frames) && Enabled(s, DoAddClient(fd, encoding), frames)
    ensures Inv(AddClient(s, fd, encoding), frames)
  {
    var t := s.(queues := s.queues + [[]], pushed := s.pushed + [[]], left := s.left + [[]]);
    AddQueueCore(s);
    AddWriteqCore(t, fd, |s.queues|);
    var u := t.(aio := t.aio + [AioWatch(fd, |s.queues|, None)]);
    SameTraffic(u, AddClient(s, fd, encoding));
    StillBounded(s, AddClient(s, fd, encoding), frames);
  }

  /** Every step keeps the invariant, whatever the kernel does. */
  lemma StepKeeps(s: Loop, a: Action, frames: nat)
    requires Inv(s, frames) && Enabled(s, a, frames)
    ensures Inv(Apply(s, a, frames), frames)
  {
    match a
    case DoPoll => PollKeeps(s, frames);
    case DoCallback(r, payloads) => CallbackKeeps(s, r, payloads, frames);
    case DoAddClient(fd, encoding) => AddClientKeeps(s, fd, encoding, frames);
    case _ => QuietStepKeeps(s, a, frames);
  }

  /** The steps that arm nothing and raise no counter. */
  lemma QuietStepKeeps(s: Loop, a: Action, frames: nat)
    requires Inv(s, frames) && Enabled(s, a, frames)
    requires !a.DoPoll? && !a.DoCallback? && !a.DoAddClient?
    ensures Inv(Apply(s, a, frames), frames)
  {
    QuietStepCore(s, a, frames);
    if a.DoComplete? {
      CompleteCore(s, a.i, a.res);
    }
    StillBounded(s, Apply(s, a, frames), frames);
  }

  lemma QuietStepCore(s: Loop, a: Action, frames: nat)
    requires Inv(s, frames) && Enabled(s, a, frames)
    requires !a.DoPoll? && !a.DoCallback? && !a.DoAddClient?
    ensures Core(Apply(s, a, frames))
  {
    match a
    case DoSubmit(i, accepted) => SubmitCore(s, i, accepted, frames);
    case DoComplete(i, res) => CompleteCore(s, i, res);
    case DoPush(q, data) => PushCore(s, q, Mbuf(None, data));
    case DoAddQueue => AddQueueCore(s);
    case DoAddWriteq(fd, q) => AddWriteqCore(s, fd, q);
    case DoRemoveAio(i) => RemoveAioCore(s, i);
    case DoOrphanEvent(fd) => SameTraffic(s, s.(kernel := s.kernel - {fd}));
    case DoAddRead(_, _) => SameTraffic(s, Apply(s, a, frames));
    case DoRemoveRead(_) => SameTraffic(s, Apply(s, a, frames));
    case DoSetClient(_, _, _) => SameTraffic(s, Apply(s, a, frames));
    case _ =>
  }

  // ---------------------------------------------------------------- runs

  const START: Loop := Loop(map[], [], [], [], {}, [], map[], [], [], [])

  lemma StartInv(frames: nat)
    ensures Inv(START, frames)
  {
  }

  /** Some steps lead from one state to another. */
  ghost predicate Reaches(s: Loop, acts: seq<Action>, t: Loop, frames: nat)
    requires Inv(s, frames)
    decreases |acts|
  {
    if acts == [] then s == t
    else
      Enabled(s, acts[0], frames) &&
      (StepKeeps(s, acts[0], frames); Reaches(Apply(s, acts[0], frames), acts[1..], t, frames))
  }

  lemma {:induction false} RunKeeps(s: Loop, acts: seq<Action>, t: Loop, frames: nat)
    requires Inv(s, frames) && Reaches(s, acts, t, frames)
    ensures Inv(t, frames)
    decreases |acts|
  {
    if acts != [] {
      StepKeeps(s, acts[0], frames);
      RunKeeps(Apply(s, acts[0], frames), acts[1..], t, frames);
    }
  }

  lemma {:induction false} RunSnoc(s: Loop, acts: seq<Action>, t: Loop, a: Action, frames: nat)
    requires Inv(s, frames) && Reaches(s, acts, t, frames) && Inv(t, frames) && Enabled(t, a, frames)
    ensures Reaches(s, acts + [a], Apply(t, a, frames), frames)
    ensures Inv(Apply(t, a, frames), frames)
    decreases |acts|
  {
    StepKeeps(t, a, frames);
    if acts == [] {
      assert acts + [a] == [a] && [a][1..] == [];
    } else {
      StepKeeps(s, acts[0], frames);
      RunSnoc(Apply(s, acts[0], frames), acts[1..], t, a, frames);
      assert (acts + [a])[1..] == acts[1..] + [a];
    }
  }

  ghost predicate Reachable(acts: seq<Action>, t: Loop, frames: nat) {
    StartInv(frames);
    Reaches(START, acts, t, frames)
  }

  /**
   In every run of the loop: each flow counts exactly its packets not yet
   completed; no flow exceeds the watermark by more than the frames one callback
   broadcasts to every client; and each queue's packets leave in the order they
   were pushed, at most one being in flight.
   */
  lemma LoopIsSafe(acts: seq<Action>, t: Loop, frames: nat)
    requires Reachable(acts, t, frames)
    ensures forall f: nat :: PacketsOf(t.packets, f) == Outstanding(t, f)
    ensures forall f: nat :: PacketsOf(t.packets, f) <= FLOW_WATERMARK + frames * |t.clients|
    ensures |t.pushed| == |t.left| == |t.queues|
    ensures forall q | 0 <= q < |t.queues| ::
              t.pushed[q] == t.left[q] + PendingOf(t.aio, q) + t.queues[q] && |PendingOf(t.aio, q)| <= 1
  {
    StartInv(frames);
    RunKeeps(START, acts, t, frames);
    forall q | 0 <= q < |t.queues| ensures |PendingOf(t.aio, q)| <= 1 {
      PendingOfShort(t.aio, q);
    }
  }

  lemma {:induction false} PendingOfShort(aio: seq<AioWatch>, q: nat)
    ensures |PendingOf(aio, q)| <= 1
    decreases |aio|
  {
    if aio != [] {
      PendingOfShort(aio[..|aio| - 1], q);
    }
  }

  /**
   An event finds its watch with a packet pending, whose flow still counts it:
   neither the assertion of watch_handle_eventfd() nor the unbalanced branch of
   watch_flow_dec() can fail.
   */
  lemma EventFindsItsPacket(t: Loop, i: nat, frames: nat)
    requires Inv(t, frames) && i < |t.aio| && t.aio[i].fd in t.kernel
    ensures t.aio[i].pending == Some(t.kernel[t.aio[i].fd])
    ensures t.aio[i].pending.value.flow.Some? ==> PacketsOf(t.packets, t.aio[i].pending.value.flow.value) > 0
  {
    if t.aio[i].pending.value.flow.Some? {
      CompleteCount(t, i, t.aio[i].pending.value.flow.value);
    }
  }

  /**
   The bound is attained: an armed reader at the watermark whose callback
   broadcasts its full number of frames while all clients are enabled.
   */
  lemma BoundAttained(s: Loop, r: nat, f: nat, payloads: seq<seq<byte>>, frames: nat)
    requires Inv(s, frames) && Enabled(s, DoCallback(r, payloads), frames) && |payloads| == frames
    requires s.readers[r].flow == Some(f) && PacketsOf(s.packets, f) == FLOW_WATERMARK
    requires EnabledCount(s.clients, |s.clients|) == |s.clients|
    ensures PacketsOf(Callback(s, r, payloads).packets, f) == FLOW_WATERMARK + frames * |s.clients|
  {
    Disarm(s, r, frames);
    BroadcastAllCore(s.(armed := s.armed - {s.readers[r].fd}), payloads, s.readers[r].flow);
  }

  /** A run of good states: each step is enabled where it is taken. */
  ghost predicate Ran(s: Loop, t: Loop, acts: seq<Action>, frames: nat)
    decreases |acts|
  {
    Inv(s, frames) &&
    if acts == [] then s == t
    else Enabled(s, acts[0], frames) && Ran(Apply(s, acts[0], frames), t, acts[1..], frames)
  }

  lemma {:induction false} RanReaches(s: Loop, t: Loop, acts: seq<Action>, frames: nat)
    requires Ran(s, t, acts, frames)
    ensures Inv(s, frames) && Inv(t, frames) && Reaches(s, acts, t, frames)
    decreases |acts|
  {
    if acts != [] { RanReaches(Apply(s, acts[0], frames), t, acts[1..], frames); }
  }

  lemma {:induction false} ReachesRan(s: Loop, t: Loop, acts: seq<Action>, frames: nat)
    requires Inv(s, frames) && Reaches(s, acts, t, frames)
    ensures Ran(s, t, acts, frames)
    decreases |acts|
  {
    if acts != [] {
      StepKeeps(s, acts[0], frames);
      ReachesRan(Apply(s, acts[0], frames), t, acts[1..], frames);
    }
  }

  lemma OneMore(s: Loop, t: Loop, acts: seq<Action>, a: Action, next: Loop, more: seq<Action>, frames: nat)
    requires Ran(s, t, acts, frames)
    requires (RanReaches(s, t, acts, frames); Enabled(t, a, frames) && next == Apply(t, a, frames)) && more == acts + [a]
    ensures Ran(s, next, more, frames)
  {
    RanReaches(s, t, acts, frames);
    RunSnoc(s, acts, t, a, frames);
    ReachesRan(s, next, more, frames);
  }

  lemma {:induction false} RanTwice(s: Loop, t: Loop, u: Loop, a: seq<Action>, b: seq<Action>, frames: nat)
    requires Ran(s, t, a, frames) && Ran(t, u, b, frames)
    ensures Ran(s, u, a + b, frames)
    decreases |a|
  {
    if a == [] {
      assert a + b == b;
    } else {
      var rest := a[1..] + b;
      RanTwice(Apply(s, a[0], frames), t, u, a[1..], b, frames);
      assert a + b == [a[0]] + rest;
      RanFirst(s, a[0], Apply(s, a[0], frames), u, rest, frames);
    }
  }

  lemma RanFirst(s: Loop, a: Action, t: Loop, u: Loop, rest: seq<Action>, frames: nat)
    requires Inv(s, frames) && Enabled(s, a, frames) && t == Apply(s, a, frames) && Ran(t, u, rest, frames)
    ensures Ran(s, u, [a] + rest, frames)
  {
    assert ([a] + rest)[1..] == rest;
  }

  // ---------------------------------------------------------------- arming

  /** select() is asked about a reader exactly when it has no flow or at most ten packets of its flow are counted. */
  lemma PollArms(s: Loop)
    requires ReadersOk(s.readers)
    ensures forall r | r in s.readers ::
              r.fd in Poll(s).armed <==> (r.flow.None? || PacketsOf(s.packets, r.flow.value) <= 10)
  {
    forall r | r in s.readers
      ensures r.fd in Poll(s).armed <==> (r.flow.None? || PacketsOf(s.packets, r.flow.value) <= 10)
    {
      if r.fd in Poll(s).armed {
        var x :| x in s.readers && !FlowBlocked(s.packets, x.flow) && x.fd == r.fd;
        assert x == r;
      }
    }
  }

  // ---------------------------------------------------------------- EAGAIN

  /** A packet that stays pending although the kernel has no write outstanding for its watch. */
  predicate Wedged(s: Loop, fd: int, q: nat, m: Mbuf) {
    AioWatch(fd, q, Some(m)) in s.aio && fd !in s.kernel
  }

  /** That is how EAGAIN leaves a watch. */
  lemma EagainWedges(s: Loop, i: nat, frames: nat)
    requires Inv(s, frames) && i < |s.aio| && s.aio[i].fd in s.kernel
    ensures var w := s.aio[i];
            w.pending.Some? && Wedged(Complete(s, i, -EAGAIN), w.fd, w.queue, w.pending.value)
  {
  }

  predicate Removes(s: Loop, a: Action, fd: int) {
    a.DoRemoveAio? && a.i < |s.aio| && s.aio[a.i].fd == fd
  }

  lemma WedgedStep(s: Loop, a: Action, frames: nat, fd: int, q: nat, m: Mbuf)
    requires Inv(s, frames) && Enabled(s, a, frames) && !Removes(s, a, fd) && Wedged(s, fd, q, m)
    ensures Wedged(Apply(s, a, frames), fd, q, m)
    ensures q < |s.left| && q < |Apply(s, a, frames).left| && Apply(s, a, frames).left[q] == s.left[q]
  {
    var w, t := AioWatch(fd, q, Some(m)), Apply(s, a, frames);
    var j :| 0 <= j < |s.aio| && s.aio[j] == w;
    match a
    case DoRemoveAio(i) => KeptElement(s.aio, i, j);
    case DoAddWriteq(_, _) => assert t.aio[j] == w;
    case DoAddClient(_, _) => assert t.aio[j] == w;
    case DoSubmit(i, _) => assert i != j && t.aio[j] == w;
    case DoComplete(i, _) => assert i != j && t.aio[j] == w;
    case _ =>
  }

  lemma KeptElement(aio: seq<AioWatch>, i: nat, j: nat)
    requires i < |aio| && j < |aio| && i != j
    ensures aio[j] in aio[..i] + aio[i + 1..]
  {
    if j < i {
      assert (aio[..i] + aio[i + 1..])[j] == aio[j];
    } else {
      assert (aio[..i] + aio[i + 1..])[j - 1] == aio[j];
    }
  }

  ghost predicate NeverRemoves(s: Loop, acts: seq<Action>, fd: int, frames: nat)
    requires Inv(s, frames)
    decreases |acts|
  {
    acts == [] || !Enabled(s, acts[0], frames) ||
    (!Removes(s, acts[0], fd) &&
     (StepKeeps(s, acts[0], frames); NeverRemoves(Apply(s, acts[0], frames), acts[1..], fd, frames)))
  }

  /**
   After an EAGAIN no packet of that queue is completed any more, however long
   the loop runs, unless the watch is removed.
   */
  lemma {:induction false} WedgedForever(s: Loop, acts: seq<Action>, t: Loop, frames: nat, fd: int, q: nat, m: Mbuf)
    requires Inv(s, frames) && Wedged(s, fd, q, m)
    requires Reaches(s, acts, t, frames) && NeverRemoves(s, acts, fd, frames)
    ensures Wedged(t, fd, q, m)
    ensures q < |s.left| && q < |t.left| && t.left[q] == s.left[q]
    decreases |acts|
  {
    if acts == [] {
      assert q < |s.left|;
    } else {
      StepKeeps(s, acts[0], frames);
      WedgedStep(s, acts[0], frames, fd, q, m);
      WedgedForever(Apply(s, acts[0], frames), acts[1..], t, frames, fd, q, m);
    }
  }

  /** Something is queued or pending on a watch. */
  predicate Busy(s: Loop, i: nat)
    requires i < |s.aio| && s.aio[i].queue < |s.queues|
  {
    s.aio[i].pending.Some? || s.queues[s.aio[i].queue] != []
  }

  /** A watch whose packet is pending without an outstanding write. */
  predicate Stuck(s: Loop, i: nat)
    requires i < |s.aio|
  {
    s.aio[i].pending.Some? && s.aio[i].fd !in s.kernel
  }

  /** A busy watch that is not stuck completes a packet in at most two steps, neither of which removes a watch. */
  lemma NotStuckMoves(s: Loop, i: nat, frames: nat) returns (acts: seq<Action>, t: Loop)
    requires Inv(s, frames) && i < |s.aio| && Busy(s, i) && !Stuck(s, i)
    ensures Reaches(s, acts, t, frames) && NeverRemoves(s, acts, s.aio[i].fd, frames)
    ensures var q := s.aio[i].queue;
            q < |s.left| && q < |t.left| && |t.left[q]| == |s.left[q]| + 1
  {
    var complete := DoComplete(i, 0);
    if s.aio[i].pending.Some? {
      acts, t := [complete], Apply(s, complete, frames);
      OneStep(s, complete, frames);
    } else {
      var submit := DoSubmit(i, true);
      StepKeeps(s, submit, frames);
      var u := Apply(s, submit, frames);
      acts, t := [submit, complete], Apply(u, complete, frames);
      OneStep(u, complete, frames);
      assert acts[1..] == [complete];
    }
  }

  lemma OneStep(s: Loop, a: Action, frames: nat)
    requires Inv(s, frames) && Enabled(s, a, frames)
    ensures Reaches(s, [a], Apply(s, a, frames), frames)
    ensures forall fd :: NeverRemoves(s, [a], fd, frames) <==> !Removes(s, a, fd)
  {
    StepKeeps(s, a, frames);
    assert [a][1..] == [];
  }

  /** No packet of a queue leaves it in any run that keeps the watch of a descriptor. */
  ghost predicate Stops(s: Loop, fd: int, q: nat, frames: nat)
    requires Inv(s, frames) && q < |s.left|
  {
    forall acts, t | Reaches(s, acts, t, frames) && NeverRemoves(s, acts, fd, frames) ::
      q < |t.left| && t.left[q] == s.left[q]
  }

  /**
   Packets of a watch with something to write stop completing, in all runs that
   keep the watch, exactly when its packet is pending without an outstanding write.
   */
  lemma StopsIffStuck(s: Loop, i: nat, frames: nat)
    requires Inv(s, frames) && i < |s.aio| && Busy(s, i)
    ensures s.aio[i].queue < |s.left|
    ensures Stops(s, s.aio[i].fd, s.aio[i].queue, frames) <==> Stuck(s, i)
  {
    var fd, q := s.aio[i].fd, s.aio[i].queue;
    if Stuck(s, i) {
      forall acts, t | Reaches(s, acts, t, frames) && NeverRemoves(s, acts, fd, frames)
        ensures q < |t.left| && t.left[q] == s.left[q]
      {
        WedgedForever(s, acts, t, frames, fd, q, s.aio[i].pending.value);
      }
    } else {
      var acts, t := NotStuckMoves(s, i, frames);
      assert Reaches(s, acts, t, frames) && NeverRemoves(s, acts, fd, frames) && t.left[q] != s.left[q];
    }
  }

  /** The watch of a descriptor is stuck. */
  predicate StuckFd(s: Loop, fd: int) {
    fd !in s.kernel && exists w | w in s.aio :: w.fd == fd && w.pending.Some?
  }

  /** A watch gets stuck by one step only: the completion of its write with EAGAIN. */
  lemma OnlyEagainSticks(s: Loop, a: Action, frames: nat, fd: int)
    requires Inv(s, frames) && Enabled(s, a, frames) && !StuckFd(s, fd)
    ensures StuckFd(Apply(s, a, frames), fd) <==> a.DoComplete? && a.res == -EAGAIN && s.aio[a.i].fd == fd
  {
    if a.DoComplete? && a.res == -EAGAIN && s.aio[a.i].fd == fd {
      EagainSticks(s, a.i, frames);
    } else {
      OthersDoNotStick(s, a, frames, fd);
    }
  }

  lemma EagainSticks(s: Loop, i: nat, frames: nat)
    requires Inv(s, frames) && Enabled(s, DoComplete(i, -EAGAIN), frames)
    ensures StuckFd(Apply(s, DoComplete(i, -EAGAIN), frames), s.aio[i].fd)
  {
    var t := Apply(s, DoComplete(i, -EAGAIN), frames);
    EventFindsItsPacket(s, i, frames);
    assert t == s.(kernel := s.kernel - {s.aio[i].fd});
    assert s.aio[i] in t.aio && s.aio[i].pending.Some?;
  }

  lemma OthersDoNotStick(s: Loop, a: Action, frames: nat, fd: int)
    requires Inv(s, frames) && Enabled(s, a, frames) && !StuckFd(s, fd)
    requires !(a.DoComplete? && a.res == -EAGAIN && s.aio[a.i].fd == fd)
    ensures !StuckFd(Apply(s, a, frames), fd)
  {
  }

  // ---------------------------------------------------------------- a run that reaches the bound

  /** One reader, and clients of which the first k are enabled, with p packets counted. */
  ghost predicate Staged(t: Loop, n: nat, k: nat, p: nat) {
    && t.readers == [ReadWatch(0, Some(0))] && |t.clients| == |t.aio| == |t.queues| == n
    && t.kernel == map[] && t.orphans == []
    && (forall i | 0 <= i < n :: t.aio[i] == AioWatch(i, i, None))
    && (forall c | 0 <= c < n :: t.clients[c].enabled <==> c < k)
    && PacketsOf(t.packets, 0) == p
  }

  lemma {:induction false} FirstEnabled(clients: seq<Client>, n: nat, k: nat)
    requires k <= n <= |clients| && forall c | 0 <= c < n :: clients[c].enabled <==> c < k
    ensures EnabledCount(clients, n) == k
    decreases n
  {
    if n > k { FirstEnabled(clients, n - 1, k); } else if n > 0 { FirstEnabled(clients, n - 1, n - 1); }
  }

  lemma Extend(acts: seq<Action>, t: Loop, a: Action, frames: nat) returns (more: seq<Action>, u: Loop)
    requires Reachable(acts, t, frames) && Inv(t, frames) && Enabled(t, a, frames)
    ensures Inv(u, frames) && u == Apply(t, a, frames) && Reachable(more, u, frames)
  {
    StartInv(frames);
    RunSnoc(START, acts, t, a, frames);
    more, u := acts + [a], Apply(t, a, frames);
  }

  lemma StageReader(frames: nat) returns (acts: seq<Action>, t: Loop)
    ensures Inv(t, frames) && Reachable(acts, t, frames) && Staged(t, 0, 0, 0)
  {
    StartInv(frames);
    acts, t := Extend([], START, DoAddRead(0, Some(0)), frames);
  }

  lemma {:induction false} StageClients(n: nat, frames: nat) returns (acts: seq<Action>, t: Loop)
    ensures Inv(t, frames) && Reachable(acts, t, frames) && Staged(t, n, 0, 0)
    decreases n
  {
    if n == 0 {
      acts, t := StageReader(frames);
    } else {
      acts, t := StageClients(n - 1, frames);
      acts, t := Extend(acts, t, DoAddClient(n - 1, Encoding.Raw), frames);
    }
  }

  lemma EnableNext(acts: seq<Action>, t: Loop, n: nat, k: nat, p: nat, frames: nat) returns (more: seq<Action>, u: Loop)
    requires Inv(t, frames) && Reachable(acts, t, frames) && Staged(t, n, k, p) && k < n
    ensures Inv(u, frames) && Reachable(more, u, frames) && Staged(u, n, k + 1, p)
  {
    more, u := Extend(acts, t, DoSetClient(k, true, Encoding.Raw), frames);
  }

  /** A turn of the loop in which the reader broadcasts. */
  lemma BroadcastTurn(acts: seq<Action>, t: Loop, n: nat, k: nat, p: nat, payloads: seq<seq<byte>>, frames: nat)
    returns (more: seq<Action>, u: Loop)
    requires Inv(t, frames) && Reachable(acts, t, frames) && Staged(t, n, k, p) && k <= n
    requires p <= FLOW_WATERMARK && |payloads| <= frames
    ensures Inv(u, frames) && Reachable(more, u, frames) && Staged(u, n, k, p + |payloads| * k)
  {
    more, u := Extend(acts, t, DoPoll, frames);
    assert t.readers[0] in t.readers && 0 in u.armed;
    var polled := u;
    more, u := Extend(more, polled, DoCallback(0, payloads), frames);
    FirstEnabled(t.clients, n, k);
    CallbackRaises(polled, payloads, frames);
  }

  lemma CallbackRaises(s: Loop, payloads: seq<seq<byte>>, frames: nat)
    requires Inv(s, frames) && Enabled(s, DoCallback(0, payloads), frames)
    ensures var t := Callback(s, 0, payloads);
            && t.readers == s.readers && t.clients == s.clients && t.aio == s.aio && t.kernel == s.kernel
            && |t.queues| == |s.queues| && t.orphans == s.orphans
            && forall f: nat :: PacketsOf(t.packets, f) == PacketsOf(s.packets, f)
                 + if s.readers[0].flow == Some(f) then |payloads| * EnabledCount(s.clients, |s.clients|) else 0
  {
    Disarm(s, 0, frames);
    BroadcastAllCore(s.(armed := s.armed - {s.readers[0].fd}), payloads, s.readers[0].flow);
  }

  /** For every number of clients and of frames a callback may broadcast there is a run from the start that reaches the bound. */
  lemma BoundReached(n: nat, frames: nat) returns (acts: seq<Action>, t: Loop)
    requires n > 0 && frames > 0
    ensures Reachable(acts, t, frames) && |t.clients| == n
    ensures PacketsOf(t.packets, 0) == FLOW_WATERMARK + frames * |t.clients|
  {
    acts, t := StageClients(n, frames);
    acts, t := EnableNext(acts, t, n, 0, 0, frames);
    acts, t := FillToWatermark(acts, t, n, frames);
    acts, t := EnableOthers(acts, t, n, frames);
    var payloads: seq<seq<byte>> := seq(frames, _ => []);
    acts, t := BroadcastTurn(acts, t, n, n, FLOW_WATERMARK, payloads, frames);
  }

  /** With one client enabled, one frame after another up to the watermark. */
  lemma FillToWatermark(was: seq<Action>, s: Loop, n: nat, frames: nat) returns (acts: seq<Action>, t: Loop)
    requires n > 0 && frames > 0 && Inv(s, frames) && Reachable(was, s, frames) && Staged(s, n, 1, 0)
    ensures Inv(t, frames) && Reachable(acts, t, frames) && Staged(t, n, 1, FLOW_WATERMARK)
  {
    acts, t := was, s;
    var p := 0;
    while p < FLOW_WATERMARK
      invariant p <= FLOW_WATERMARK && Inv(t, frames) && Reachable(acts, t, frames) && Staged(t, n, 1, p)
    {
      acts, t := BroadcastTurn(acts, t, n, 1, p, [[]], frames);
      p := p + 1;
    }
  }

  /** The other clients, enabled one after another. */
  lemma EnableOthers(was: seq<Action>, s: Loop, n: nat, frames: nat) returns (acts: seq<Action>, t: Loop)
    requires n > 0 && Inv(s, frames) && Reachable(was, s, frames) && Staged(s, n, 1, FLOW_WATERMARK)
    ensures Inv(t, frames) && Reachable(acts, t, frames) && Staged(t, n, n, FLOW_WATERMARK)
  {
    acts, t := was, s;
    var k := 1;
    while k < n
      invariant k <= n && Inv(t, frames) && Reachable(acts, t, frames) && Staged(t, n, k, FLOW_WATERMARK)
    {
      acts, t := EnableNext(acts, t, n, k, FLOW_WATERMARK, frames);
      k := k + 1;
    }
  }

  // ---------------------------------------------------------------- delivery to a client

  function Data(ms: seq<Mbuf>): (ds: seq<seq<byte>>)
    ensures |ds| == |ms|
  {
    seq(|ms|, i requires 0 <= i < |ms| => ms[i].data)
  }

  /**
   End to end: on a queue that was given one HDLC frame per message, the octets
   that have left it, decoded, are a prefix of those messages, and all of them
   once nothing is pending or queued.
   */
  lemma ClientReceives(t: Loop, q: nat, msgs: seq<seq<byte>>, frames: nat)
    requires Inv(t, frames) && q < |t.queues|
    requires Data(t.pushed[q]) == Frames(msgs)
    ensures |t.left[q]| <= |msgs|
    ensures Decode(FRESH, Flatten(Data(t.left[q]))) == Decoded(FRESH, msgs[..|t.left[q]|])
    ensures PendingOf(t.aio, q) == [] && t.queues[q] == [] ==> |t.left[q]| == |msgs|
  {
    var n := |t.left[q]|;
    assert t.pushed[q] == t.left[q] + PendingOf(t.aio, q) + t.queues[q];
    forall i | 0 <= i < n ensures Data(t.left[q])[i] == Frames(msgs)[i] {
      assert t.left[q][i] == t.pushed[q][i];
      assert Data(t.pushed[q])[i] == t.pushed[q][i].data;
    }
    assert Data(t.left[q]) == Frames(msgs[..n]);
    DecodeEncodeAll(msgs[..n]);
  }
}
