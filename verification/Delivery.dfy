/**
 What a broadcast puts on the queues of clients: one packet for each enabled
 client and frame, in order, in the encoding of the client, and nothing on any
 other queue (router/dm.c); and what a client therefore receives over a run.
 */
module Delivery {
  import opened Bytes
  import opened Hdlc
  import opened Watch
  import Nhdlc
  import Crc

  // ---------------------------------------------------------------- one packet

  /** Octets as numbers. */
  function Numbers(s: seq<byte>): (ns: seq<uint8>)
    ensures |ns| == |s|
  {
    seq(|s|, i requires 0 <= i < |s| => s[i] as nat)
  }

  /** What is sent to a client with an encoding for a payload. */
  ghost predicate Carries(encoding: Encoding.EncodeType, data: seq<byte>, payload: seq<byte>) {
    match encoding
    case Raw => data == payload
    case Hdlc => data == Encode(payload) && Decode(FRESH, data) == Decoded(FRESH, [payload])
    case Nhdlc => Numbers(data) == Nhdlc.Frame(Numbers(payload))
  }

  lemma FrameNumbers(payload: seq<byte>)
    ensures Numbers(Wire(Encoding.Nhdlc, payload)) == Nhdlc.Frame(Numbers(payload))
  {
    var n := |payload|;
    OctetIs(n % 0x100);
    OctetIs(n / 0x100 % 0x100);
    var data, frame := Wire(Encoding.Nhdlc, payload), Nhdlc.Frame(Numbers(payload));
    assert |data| == |frame|;
    forall i | 0 <= i < |data| ensures Numbers(data)[i] == frame[i] {
      if 4 <= i < 4 + n { assert data[i] == payload[i - 4]; }
    }
  }

  /** dm_send_flow() queues the payload in the encoding of the client. */
  lemma WireCarries(encoding: Encoding.EncodeType, payload: seq<byte>)
    ensures Carries(encoding, Wire(encoding, payload), payload)
  {
    match encoding
    case Raw =>
    case Hdlc => DecodeEncode(payload);
    case Nhdlc => FrameNumbers(payload);
  }

  /**
   What each encoding is, in octets: raw payloads are not framed; an HDLC frame
   has its one flag at the end, escaped octets before it, and decodes to just
   the payload; the newer frame gives length and payload between its control
   characters, and is taken for the payload exactly when the length fits.
   */
  lemma CarriesIs(encoding: Encoding.EncodeType, data: seq<byte>, payload: seq<byte>)
    requires Carries(encoding, data, payload)
    ensures encoding.Raw? ==> data == payload
    ensures encoding.Hdlc? ==>
              && data != [] && data[|data| - 1] == 0x7e && Transparent(data[..|data| - 1])
              && |data| == |payload| + 3 + CountSpecial(payload + Crc.Fcs(payload))
              && Decode(FRESH, data) == Decoded(FRESH, [payload])
    ensures encoding.Nhdlc? ==>
              && |data| == |payload| + 5 && data[0] == 0x7e && data[1] == 1 && data[|data| - 1] == 0x7e
              && data[2] as nat + 0x100 * data[3] as nat == |payload| % 0x1_0000
              && data[4..|data| - 1] == payload
              && (Nhdlc.Unframe(Numbers(data)) == Some(Numbers(payload)) <==> |payload| < 0x1_0000)
  {
    match encoding
    case Raw =>
    case Hdlc => FrameShape(payload);
    case Nhdlc => NhdlcShape(data, payload);
  }

  lemma NhdlcShape(data: seq<byte>, payload: seq<byte>)
    requires Numbers(data) == Nhdlc.Frame(Numbers(payload))
    ensures |data| == |payload| + 5 && data[0] == 0x7e && data[1] == 1 && data[|data| - 1] == 0x7e
    ensures data[2] as nat + 0x100 * data[3] as nat == |payload| % 0x1_0000
    ensures data[4..|data| - 1] == payload
    ensures Nhdlc.Unframe(Numbers(data)) == Some(Numbers(payload)) <==> |payload| < 0x1_0000
  {
    var numbers, frame := Numbers(data), Nhdlc.Frame(Numbers(payload));
    assert |data| == |frame| == |payload| + 5;
    assert forall i | 0 <= i < |data| :: data[i] as nat == numbers[i];
    assert data[0] as nat == frame[0] && data[1] as nat == frame[1] && data[2] as nat == frame[2] && data[3] as nat == frame[3];
    assert data[|data| - 1] as nat == frame[|data| - 1];
    SameOctet(data[0], 0x7e);
    SameOctet(data[1], 1);
    SameOctet(data[|data| - 1], 0x7e);
    Nhdlc.LowAndHigh(|payload|);
    forall i | 0 <= i < |payload| ensures data[i + 4] == payload[i] {
      assert frame[i + 4] == Numbers(payload)[i];
      SameOctet(data[i + 4], payload[i]);
    }
    assert data[4..|data| - 1] == payload;
    assert frame + [] == frame;
    Nhdlc.UnframeFrameIff(Numbers(payload), []);
  }

  // ---------------------------------------------------------------- one broadcast, queue by queue

  /** What a broadcast to the first n clients puts on a queue: a packet for each enabled client whose queue it is, in order. */
  function Shares(clients: seq<Client>, n: nat, q: nat, payload: seq<byte>, flow: Option<nat>): seq<Mbuf>
    requires n <= |clients|
  {
    if n == 0 then []
    else
      Shares(clients, n - 1, q, payload, flow)
      + if clients[n - 1].enabled && clients[n - 1].queue == q then [Mbuf(flow, Wire(clients[n - 1].encoding, payload))] else []
  }

  /** Every queue is as before, with just its packets after that. */
  lemma {:induction false} BroadcastPerQueue(s: Loop, n: nat, payload: seq<byte>, flow: Option<nat>, q: nat)
    requires n <= |s.clients| && ClientsOk(s) && q < |s.queues|
    ensures var t := Broadcast(s, n, payload, flow);
            && t.queues[q] == s.queues[q] + Shares(s.clients, n, q, payload, flow)
            && |t.pushed| == |s.pushed| && t.pushed[q] == s.pushed[q] + Shares(s.clients, n, q, payload, flow)
    decreases n
  {
    if n > 0 {
      BroadcastPerQueue(s, n - 1, payload, flow, q);
      var more := if s.clients[n - 1].enabled && s.clients[n - 1].queue == q
                  then [Mbuf(flow, Wire(s.clients[n - 1].encoding, payload))] else [];
      ConcatAssociative(s.queues[q], Shares(s.clients, n - 1, q, payload, flow), more);
      ConcatAssociative(s.pushed[q], Shares(s.clients, n - 1, q, payload, flow), more);
    }
  }

  /** Clients each have a queue to themselves. */
  ghost predicate OwnQueues(clients: seq<Client>) {
    forall c, d | 0 <= c < d < |clients| :: clients[c].queue != clients[d].queue
  }

  /** A queue that is no client's. */
  ghost predicate NoClients(clients: seq<Client>, q: nat) {
    forall c | 0 <= c < |clients| :: clients[c].queue != q
  }

  lemma {:induction false} OwnShare(clients: seq<Client>, n: nat, c: nat, payload: seq<byte>, flow: Option<nat>)
    requires n <= |clients| && c < |clients| && OwnQueues(clients)
    ensures Shares(clients, n, clients[c].queue, payload, flow)
         == if c < n && clients[c].enabled then [Mbuf(flow, Wire(clients[c].encoding, payload))] else []
    decreases n
  {
    if n > 0 { OwnShare(clients, n - 1, c, payload, flow); }
  }

  lemma {:induction false} NoShare(clients: seq<Client>, n: nat, q: nat, payload: seq<byte>, flow: Option<nat>)
    requires n <= |clients| && NoClients(clients, q)
    ensures Shares(clients, n, q, payload, flow) == []
    decreases n
  {
    if n > 0 { NoShare(clients, n - 1, q, payload, flow); }
  }

  // ---------------------------------------------------------------- broadcasts, client by client

  ghost predicate IsPacket(m: Mbuf, encoding: Encoding.EncodeType, payload: seq<byte>, flow: Option<nat>) {
    m.flow == flow && Carries(encoding, m.data, payload)
  }

  /** dm_send_flow() appends one packet to the queue of an enabled client, touches no other queue, and does nothing else for a disabled one. */
  lemma SendFlowIs(s: Loop, c: nat, payload: seq<byte>, flow: Option<nat>)
    requires ClientsOk(s) && c < |s.clients|
    ensures !s.clients[c].enabled ==> SendFlow(s, c, payload, flow) == s
    ensures s.clients[c].enabled ==>
              var t, q := SendFlow(s, c, payload, flow), s.clients[c].queue;
              && |t.queues| == |s.queues| == |t.pushed| == |s.pushed| && t.clients == s.clients
              && (forall p | 0 <= p < |s.queues| && p != q :: t.queues[p] == s.queues[p] && t.pushed[p] == s.pushed[p])
              && Gained(s.queues[q], t.queues[q], s.clients[c].encoding, [payload], flow)
              && Gained(s.pushed[q], t.pushed[q], s.clients[c].encoding, [payload], flow)
  {
    WireCarries(s.clients[c].encoding, payload);
  }

  /** A list grew by one packet for each payload, in order, of this flow and in this encoding. */
  ghost predicate Gained(was: seq<Mbuf>, now: seq<Mbuf>, encoding: Encoding.EncodeType, payloads: seq<seq<byte>>, flow: Option<nat>) {
    && |now| == |was| + |payloads| && now[..|was|] == was
    && forall i | 0 <= i < |payloads| :: IsPacket(now[|was| + i], encoding, payloads[i], flow)
  }

  ghost predicate ClientReached(s: Loop, t: Loop, client: Client, payloads: seq<seq<byte>>, flow: Option<nat>)
    requires client.queue < |s.queues| == |t.queues| == |s.pushed| == |t.pushed|
  {
    if client.enabled then
      && Gained(s.queues[client.queue], t.queues[client.queue], client.encoding, payloads, flow)
      && Gained(s.pushed[client.queue], t.pushed[client.queue], client.encoding, payloads, flow)
    else t.queues[client.queue] == s.queues[client.queue] && t.pushed[client.queue] == s.pushed[client.queue]
  }

  /**
   Broadcasts reached each enabled client once, with every payload in order and
   in the client's encoding; queues of disabled clients and queues that are no
   client's are as they were.
   */
  ghost predicate Reached(s: Loop, t: Loop, payloads: seq<seq<byte>>, flow: Option<nat>)
    requires ClientsOk(s) && ClientsOk(t)
  {
    && t.clients == s.clients && |t.queues| == |s.queues|
    && (forall c | 0 <= c < |s.clients| :: ClientReached(s, t, s.clients[c], payloads, flow))
    && forall q | 0 <= q < |s.queues| && NoClients(s.clients, q) :: t.queues[q] == s.queues[q] && t.pushed[q] == s.pushed[q]
  }

  lemma GainedOne(was: seq<Mbuf>, now: seq<Mbuf>, encoding: Encoding.EncodeType, payload: seq<byte>, flow: Option<nat>)
    requires now == was + [Mbuf(flow, Wire(encoding, payload))]
    ensures Gained(was, now, encoding, [payload], flow)
  {
    WireCarries(encoding, payload);
  }

  /** After dm_broadcast() of one payload. */
  lemma BroadcastReaches(s: Loop, payload: seq<byte>, flow: Option<nat>)
    requires ClientsOk(s) && OwnQueues(s.clients)
    ensures Reached(s, Broadcast(s, |s.clients|, payload, flow), [payload], flow)
  {
    var t := Broadcast(s, |s.clients|, payload, flow);
    forall c | 0 <= c < |s.clients| ensures ClientReached(s, t, s.clients[c], [payload], flow) {
      var client := s.clients[c];
      BroadcastPerQueue(s, |s.clients|, payload, flow, client.queue);
      OwnShare(s.clients, |s.clients|, c, payload, flow);
      if client.enabled {
        GainedOne(s.queues[client.queue], t.queues[client.queue], client.encoding, payload, flow);
        GainedOne(s.pushed[client.queue], t.pushed[client.queue], client.encoding, payload, flow);
      }
    }
    forall q | 0 <= q < |s.queues| && NoClients(s.clients, q)
      ensures t.queues[q] == s.queues[q] && t.pushed[q] == s.pushed[q]
    {
      BroadcastPerQueue(s, |s.clients|, payload, flow, q);
      NoShare(s.clients, |s.clients|, q, payload, flow);
    }
  }

  lemma GainedTwice(was: seq<Mbuf>, between: seq<Mbuf>, now: seq<Mbuf>, encoding: Encoding.EncodeType,
                    a: seq<seq<byte>>, b: seq<seq<byte>>, flow: Option<nat>)
    requires Gained(was, between, encoding, a, flow) && Gained(between, now, encoding, b, flow)
    ensures Gained(was, now, encoding, a + b, flow)
  {
    forall i | 0 <= i < |a + b|
      ensures IsPacket(now[|was| + i], encoding, (a + b)[i], flow)
    {
      if i < |a| {
        assert now[|was| + i] == now[..|between|][|was| + i] == between[|was| + i] && (a + b)[i] == a[i];
      } else {
        assert now[|was| + i] == now[|between| + (i - |a|)] && (a + b)[i] == b[i - |a|];
      }
    }
    assert now[..|was|] == now[..|between|][..|was|];
  }

  lemma ReachedTwice(s: Loop, t: Loop, u: Loop, a: seq<seq<byte>>, b: seq<seq<byte>>, flow: Option<nat>)
    requires ClientsOk(s) && ClientsOk(t) && ClientsOk(u)
    requires Reached(s, t, a, flow) && Reached(t, u, b, flow)
    ensures Reached(s, u, a + b, flow)
  {
    forall c | 0 <= c < |s.clients| ensures ClientReached(s, u, s.clients[c], a + b, flow) {
      var client := s.clients[c];
      assert ClientReached(s, t, client, a, flow) && ClientReached(t, u, t.clients[c], b, flow);
      if client.enabled {
        var q := client.queue;
        GainedTwice(s.queues[q], t.queues[q], u.queues[q], client.encoding, a, b, flow);
        GainedTwice(s.pushed[q], t.pushed[q], u.pushed[q], client.encoding, a, b, flow);
      }
    }
  }

  lemma ReachedNone(s: Loop, flow: Option<nat>)
    requires ClientsOk(s)
    ensures Reached(s, s, [], flow)
  {
    forall c | 0 <= c < |s.clients| ensures ClientReached(s, s, s.clients[c], [], flow) {
      var q := s.clients[c].queue;
      assert s.queues[q][..|s.queues[q]|] == s.queues[q] && s.pushed[q][..|s.pushed[q]|] == s.pushed[q];
    }
  }

  /** After all broadcasts of a callback. */
  lemma {:induction false} BroadcastAllReaches(s: Loop, payloads: seq<seq<byte>>, flow: Option<nat>)
    requires ClientsOk(s) && OwnQueues(s.clients)
    ensures Reached(s, BroadcastAll(s, payloads, flow), payloads, flow)
    decreases |payloads|
  {
    if payloads == [] {
      ReachedNone(s, flow);
    } else {
      var front, last := payloads[..|payloads| - 1], payloads[|payloads| - 1];
      var t := BroadcastAll(s, front, flow);
      BroadcastAllReaches(s, front, flow);
      BroadcastReaches(t, last, flow);
      ReachedTwice(s, t, Broadcast(t, |t.clients|, last, flow), front, [last], flow);
      assert payloads == front + [last];
    }
  }

  /** After a callback, which broadcasts on the flow of its reader. */
  lemma CallbackReaches(s: Loop, r: nat, payloads: seq<seq<byte>>)
    requires ClientsOk(s) && OwnQueues(s.clients) && r < |s.readers|
    ensures Reached(s, Callback(s, r, payloads), payloads, s.readers[r].flow)
  {
    var t := s.(armed := s.armed - {s.readers[r].fd});
    BroadcastAllReaches(t, payloads, s.readers[r].flow);
    SameLists(s, t, Callback(s, r, payloads), payloads, s.readers[r].flow);
  }

  lemma SameLists(s: Loop, t: Loop, u: Loop, payloads: seq<seq<byte>>, flow: Option<nat>)
    requires ClientsOk(s) && ClientsOk(t) && ClientsOk(u) && Reached(t, u, payloads, flow)
    requires t.queues == s.queues && t.pushed == s.pushed && t.clients == s.clients
    ensures Reached(s, u, payloads, flow)
  {
    forall c | 0 <= c < |s.clients| ensures ClientReached(s, u, s.clients[c], payloads, flow) {
      assert ClientReached(t, u, t.clients[c], payloads, flow);
    }
  }

  // ---------------------------------------------------------------- runs

  /** All payloads that the callbacks of a run broadcast, in order. */
  function Broadcasts(acts: seq<Action>): seq<seq<byte>> {
    if acts == [] then []
    else (if acts[0].DoCallback? then acts[0].payloads else []) + Broadcasts(acts[1..])
  }

  /** A run in which a client is not switched and nothing else is pushed on its queue. */
  predicate Undisturbed(acts: seq<Action>, c: nat, q: nat) {
    forall a | a in acts :: !(a.DoSetClient? && a.c == c) && !(a.DoPush? && a.q == q)
  }

  /** What was pushed on the queue of a client grew by the payloads, in its encoding, if it is enabled, and not at all if not. */
  ghost predicate Sent(was: seq<Mbuf>, now: seq<Mbuf>, client: Client, payloads: seq<seq<byte>>) {
    if client.enabled then
      && |now| == |was| + |payloads| && now[..|was|] == was
      && forall i | 0 <= i < |payloads| :: Carries(client.encoding, now[|was| + i].data, payloads[i])
    else now == was
  }

  lemma SentNone(was: seq<Mbuf>, client: Client)
    ensures Sent(was, was, client, [])
  {
    assert was[..|was|] == was;
  }

  lemma SentTwice(was: seq<Mbuf>, between: seq<Mbuf>, now: seq<Mbuf>, client: Client, a: seq<seq<byte>>, b: seq<seq<byte>>)
    requires Sent(was, between, client, a) && Sent(between, now, client, b)
    ensures Sent(was, now, client, a + b)
  {
    if client.enabled {
      forall i | 0 <= i < |a + b| ensures Carries(client.encoding, now[|was| + i].data, (a + b)[i]) {
        if i < |a| {
          assert now[|was| + i] == now[..|between|][|was| + i] == between[|was| + i] && (a + b)[i] == a[i];
        } else {
          assert now[|was| + i] == now[|between| + (i - |a|)] && (a + b)[i] == b[i - |a|];
        }
      }
      assert now[..|was|] == now[..|between|][..|was|];
    }
  }

  lemma ReachedSends(s: Loop, t: Loop, c: nat, payloads: seq<seq<byte>>, flow: Option<nat>)
    requires ClientsOk(s) && ClientsOk(t) && c < |s.clients| && Reached(s, t, payloads, flow)
    ensures Sent(s.pushed[s.clients[c].queue], t.pushed[s.clients[c].queue], s.clients[c], payloads)
  {
    assert ClientReached(s, t, s.clients[c], payloads, flow);
  }

  /** What one step does to a client. */
  lemma StepSends(s: Loop, a: Action, t: Loop, frames: nat, c: nat, q: nat)
    requires Inv(s, frames) && Enabled(s, a, frames) && t == Apply(s, a, frames) && OwnQueues(s.clients)
    requires c < |s.clients| && q == s.clients[c].queue
    requires !(a.DoSetClient? && a.c == c) && !(a.DoPush? && a.q == q)
    ensures c < |t.clients| && t.clients[c] == s.clients[c] && q < |s.pushed| && q < |t.pushed|
    ensures Sent(s.pushed[q], t.pushed[q], s.clients[c], if a.DoCallback? then a.payloads else [])
  {
    SentNone(s.pushed[q], s.clients[c]);
    if a.DoCallback? {
      CallbackReaches(s, a.r, a.payloads);
      ReachedSends(s, t, c, a.payloads, s.readers[a.r].flow);
    }
  }

  lemma StepKeepsOwn(s: Loop, a: Action, t: Loop, frames: nat)
    requires Inv(s, frames) && Enabled(s, a, frames) && t == Apply(s, a, frames) && OwnQueues(s.clients)
    ensures OwnQueues(t.clients)
  {
  }

  /** Clients have a queue to themselves in every run. */
  lemma {:induction false} RunKeepsOwn(s: Loop, acts: seq<Action>, t: Loop, frames: nat)
    requires Ran(s, t, acts, frames) && OwnQueues(s.clients)
    ensures OwnQueues(t.clients)
    decreases |acts|
  {
    if acts != [] {
      var u := Apply(s, acts[0], frames);
      StepKeepsOwn(s, acts[0], u, frames);
      RunKeepsOwn(u, acts[1..], t, frames);
    }
  }

  lemma AlwaysOwnQueues(acts: seq<Action>, t: Loop, frames: nat)
    requires Reachable(acts, t, frames)
    ensures OwnQueues(t.clients)
  {
    StartInv(frames);
    ReachesRan(START, t, acts, frames);
    RunKeepsOwn(START, acts, t, frames);
  }

  /**
   Over a run that leaves a client alone, an enabled client is sent every
   payload that was broadcast, each once, in order and in its encoding; a
   disabled one is sent nothing.
   */
  lemma {:induction false} ClientIsSent(s: Loop, acts: seq<Action>, t: Loop, frames: nat, c: nat, q: nat)
    requires Ran(s, t, acts, frames) && OwnQueues(s.clients)
    requires c < |s.clients| && q == s.clients[c].queue && Undisturbed(acts, c, q)
    ensures c < |t.clients| && t.clients[c] == s.clients[c] && q < |s.pushed| && q < |t.pushed|
    ensures Sent(s.pushed[q], t.pushed[q], s.clients[c], Broadcasts(acts))
    decreases |acts|
  {
    if acts == [] {
      SentNone(s.pushed[q], s.clients[c]);
    } else {
      var u := Apply(s, acts[0], frames);
      assert acts[0] in acts && Undisturbed(acts[1..], c, q);
      StepSends(s, acts[0], u, frames, c, q);
      StepKeepsOwn(s, acts[0], u, frames);
      ClientIsSent(u, acts[1..], t, frames, c, q);
      SentTwice(s.pushed[q], u.pushed[q], t.pushed[q], s.clients[c],
                if acts[0].DoCallback? then acts[0].payloads else [], Broadcasts(acts[1..]));
    }
  }

  /** A client that was added and not enabled is sent nothing, in any run that pushes nothing else on its queue. */
  lemma AddedGetsNothing(s: Loop, fd: int, encoding: Encoding.EncodeType, acts: seq<Action>, t: Loop, frames: nat)
    requires Inv(s, frames) && OwnQueues(s.clients) && Enabled(s, DoAddClient(fd, encoding), frames)
    requires Ran(AddClient(s, fd, encoding), t, acts, frames) && Undisturbed(acts, |s.clients|, |s.queues|)
    ensures |s.clients| < |t.clients| && t.clients[|s.clients|] == Client(|s.queues|, false, encoding)
    ensures |s.queues| < |t.pushed| && t.pushed[|s.queues|] == []
  {
    var u := AddClient(s, fd, encoding);
    StepKeepsOwn(s, DoAddClient(fd, encoding), u, frames);
    ClientIsSent(u, acts, t, frames, |s.clients|, |s.queues|);
  }

  /**
   End to end: what has left the queue of an enabled HDLC client, decoded, is a
   prefix of what was broadcast since it was added, and all of it once nothing
   is pending or queued.
   */
  lemma BroadcastsReceived(s: Loop, acts: seq<Action>, t: Loop, frames: nat, c: nat, q: nat)
    requires Ran(s, t, acts, frames) && OwnQueues(s.clients)
    requires c < |s.clients| && s.clients[c] == Client(q, true, Encoding.Hdlc) && Undisturbed(acts, c, q)
    requires q < |s.pushed| && s.pushed[q] == []
    ensures q < |t.left| == |t.queues|
    ensures var sent, got := Broadcasts(acts), |t.left[q]|;
            && got <= |sent| && Decode(FRESH, Flatten(Data(t.left[q]))) == Decoded(FRESH, sent[..got])
            && (PendingOf(t.aio, q) == [] && t.queues[q] == [] ==> got == |sent|)
  {
    var sent := Broadcasts(acts);
    ClientIsSent(s, acts, t, frames, c, q);
    RanReaches(s, t, acts, frames);
    assert t.pushed[q][..0] == [];
    forall i | 0 <= i < |sent| ensures Data(t.pushed[q])[i] == Frames(sent)[i] {
      assert Carries(Encoding.Hdlc, t.pushed[q][|s.pushed[q]| + i].data, sent[i]);
    }
    assert Data(t.pushed[q]) == Frames(sent);
    ClientReceives(t, q, sent, frames);
  }

  // ---------------------------------------------------------------- any run

  /** What a packet on the queue of a client is: a payload that was broadcast, in the encoding of the moment, or octets pushed as they are. */
  datatype Item = Payload(encoding: Encoding.EncodeType, payload: seq<byte>) | Plain(data: seq<byte>)

  ghost predicate IsItem(m: Mbuf, item: Item) {
    match item
    case Payload(encoding, payload) => Carries(encoding, m.data, payload)
    case Plain(data) => m.data == data
  }

  function Payloads(encoding: Encoding.EncodeType, payloads: seq<seq<byte>>): (items: seq<Item>)
    ensures |items| == |payloads|
  {
    seq(|payloads|, i requires 0 <= i < |payloads| => Payload(encoding, payloads[i]))
  }

  /** What a step puts on the queue of a client. */
  function StepItems(client: Client, a: Action): seq<Item> {
    match a
    case DoCallback(_, payloads) => if client.enabled then Payloads(client.encoding, payloads) else []
    case DoPush(q, data) => if q == client.queue then [Plain(data)] else []
    case _ => []
  }

  /** Client c after a step. */
  function StepClient(client: Client, c: nat, a: Action): Client {
    if a.DoSetClient? && a.c == c then client.(enabled := a.enabled, encoding := a.encoding) else client
  }

  /** What a run puts on the queue of client c, in order. */
  function RunItems(client: Client, c: nat, acts: seq<Action>): seq<Item>
    decreases |acts|
  {
    if acts == [] then []
    else StepItems(client, acts[0]) + RunItems(StepClient(client, c, acts[0]), c, acts[1..])
  }

  ghost predicate SentItems(was: seq<Mbuf>, now: seq<Mbuf>, items: seq<Item>) {
    && |now| == |was| + |items| && now[..|was|] == was
    && forall i | 0 <= i < |items| :: IsItem(now[|was| + i], items[i])
  }

  lemma ItemsTwice(was: seq<Mbuf>, between: seq<Mbuf>, now: seq<Mbuf>, a: seq<Item>, b: seq<Item>)
    requires SentItems(was, between, a) && SentItems(between, now, b)
    ensures SentItems(was, now, a + b)
  {
    forall i | 0 <= i < |a + b| ensures IsItem(now[|was| + i], (a + b)[i]) {
      if i < |a| {
        assert now[|was| + i] == now[..|between|][|was| + i] == between[|was| + i] && (a + b)[i] == a[i];
      } else {
        assert now[|was| + i] == now[|between| + (i - |a|)] && (a + b)[i] == b[i - |a|];
      }
    }
    assert now[..|was|] == now[..|between|][..|was|];
  }

  lemma NoItems(was: seq<Mbuf>)
    ensures SentItems(was, was, [])
  {
    assert was[..|was|] == was;
  }

  lemma SentAsItems(was: seq<Mbuf>, now: seq<Mbuf>, client: Client, payloads: seq<seq<byte>>)
    requires Sent(was, now, client, payloads)
    ensures SentItems(was, now, if client.enabled then Payloads(client.encoding, payloads) else [])
  {
    NoItems(was);
  }

  lemma StepSendsItems(s: Loop, a: Action, t: Loop, frames: nat, c: nat, q: nat)
    requires Inv(s, frames) && Enabled(s, a, frames) && t == Apply(s, a, frames) && OwnQueues(s.clients)
    requires c < |s.clients| && q == s.clients[c].queue
    ensures c < |t.clients| && t.clients[c] == StepClient(s.clients[c], c, a) && q < |s.pushed| && q < |t.pushed|
    ensures SentItems(s.pushed[q], t.pushed[q], StepItems(s.clients[c], a))
  {
    NoItems(s.pushed[q]);
    if a.DoCallback? {
      CallbackReaches(s, a.r, a.payloads);
      ReachedSends(s, t, c, a.payloads, s.readers[a.r].flow);
      SentAsItems(s.pushed[q], t.pushed[q], s.clients[c], a.payloads);
    }
  }

  /**
   Over any run, what was pushed on the queue of a client grew by exactly the
   payloads broadcast while it was enabled, each in the encoding it had then,
   and by what was pushed on its queue otherwise, in the order of the run.
   */
  lemma {:induction false} ClientIsSentAll(s: Loop, acts: seq<Action>, t: Loop, frames: nat, c: nat, q: nat)
    requires Ran(s, t, acts, frames) && OwnQueues(s.clients) && c < |s.clients| && q == s.clients[c].queue
    ensures q < |s.pushed| && q < |t.pushed| && SentItems(s.pushed[q], t.pushed[q], RunItems(s.clients[c], c, acts))
    decreases |acts|
  {
    if acts == [] {
      NoItems(s.pushed[q]);
    } else {
      var u := Apply(s, acts[0], frames);
      StepSendsItems(s, acts[0], u, frames, c, q);
      StepKeepsOwn(s, acts[0], u, frames);
      ClientIsSentAll(u, acts[1..], t, frames, c, q);
      ItemsTwice(s.pushed[q], u.pushed[q], t.pushed[q], StepItems(s.clients[c], acts[0]), RunItems(u.clients[c], c, acts[1..]));
    }
  }
}
