/**
 The control channel of a peripheral: the methods of router/diag_cntl.c that
 queue messages on it and handle what arrives from it.
 */
module Channels {
  import opened Bytes
  import opened BitOps
  import opened Memory
  import opened ControlStream
  import opened ControlMessages
  import opened Control
  import Router
  import Registrations
  import DiagIds
  import LogMasks
  import EventMasks
  import MsgMasks

  /** The queue holds the octets of these messages. */
  predicate Queued(queue: seq<seq<uint8>>, sent: seq<Message>) {
    |queue| == |sent| && forall i | 0 <= i < |sent| :: queue[i] == Octets(sent[i]) && Sendable(sent[i])
  }

  lemma QueuedMore(queue: seq<seq<uint8>>, sent: seq<Message>, m: Message)
    requires Queued(queue, sent) && Sendable(m)
    ensures Queued(queue + [Octets(m)], sent + [m])
  {
  }

  function Concat(queue: seq<seq<uint8>>): seq<uint8>
    decreases |queue|
  {
    if queue == [] then [] else queue[0] + Concat(queue[1..])
  }

  /** The peripheral reads the queue as the messages that were sent. */
  lemma QueueIsReadBack(queue: seq<seq<uint8>>, sent: seq<Message>)
    requires Queued(queue, sent)
    ensures Tell(Split(Concat(queue)), sent) && Remainder(Concat(queue)) == []
  {
    ConcatIsOctets(queue, sent);
    forall m | m in sent ensures Sendable(m) {
      var i :| 0 <= i < |sent| && sent[i] == m;
    }
    ReadBackAll(sent);
  }

  lemma {:induction false} ConcatIsOctets(queue: seq<seq<uint8>>, sent: seq<Message>)
    requires Queued(queue, sent)
    ensures Concat(queue) == OctetsOfAll(sent)
    decreases |queue|
  {
    if queue != [] { ConcatIsOctets(queue[1..], sent[1..]); }
  }

  class Channel {
    const p: nat
    const hasCmd: bool
    const sockets: bool
    const ssids: seq<MsgMasks.SsidRange>
    const router: Router.Router
    const ids: DiagIds.DiagIdTable
    const logs: LogMasks.LogTable
    const events: EventMasks.EventMask
    const msgs: MsgMasks.MsgTable
    var open: bool
    var diagId: uint8
    var features: uint32
    var cntlq: seq<seq<uint8>>
    ghost var sent: seq<Message>

    constructor (p: nat, hasCmd: bool, sockets: bool, ssids: seq<MsgMasks.SsidRange>, router: Router.Router,
                 ids: DiagIds.DiagIdTable, logs: LogMasks.LogTable, events: EventMasks.EventMask, msgs: MsgMasks.MsgTable)
      requires logs.Valid() && events.Valid() && msgs.Valid() && msgs.windows == ssids
      ensures Valid() && sent == [] && !open && features == 0 && diagId == 0
      ensures this.p == p && this.hasCmd == hasCmd && this.sockets == sockets && this.ssids == ssids
      ensures this.router == router && this.ids == ids && this.logs == logs && this.events == events && this.msgs == msgs
    {
      this.p, this.hasCmd, this.sockets, this.ssids := p, hasCmd, sockets, ssids;
      this.router, this.ids, this.logs, this.events, this.msgs := router, ids, logs, events, msgs;
      open, diagId, features, cntlq, sent := false, 0, 0, [], [];
    }

    ghost predicate Valid()
      reads this, logs, events, msgs
    {
      && logs.Valid() && events.Valid() && msgs.Valid() && msgs.windows == ssids
      && Queued(cntlq, sent)
    }

    ghost function View(): (t: MsgView)
      reads this, msgs
      requires msgs.Valid() && msgs.windows == ssids
      ensures GoodView(t)
    {
      MsgView(msgs.table, ssids, msgs.status)
    }

    ghost function Surroundings(slack: seq<uint8>): Env
      reads this, msgs
      requires msgs.Valid() && msgs.windows == ssids
    {
      Env(p, hasCmd, sockets, open, diagId, View(), slack)
    }

    ghost function Abs(): State
      reads this, router, ids
    {
      State(router.diag, ids.State(), features, sent)
    }

    /** queue_push() of a filled-in structure. */
    method QueuePush(m: Message)
      requires Valid() && Sendable(m)
      modifies this`cntlq, this`sent
      ensures Valid() && sent == old(sent) + [m]
    {
      QueuedMore(cntlq, sent, m);
      cntlq := cntlq + [Octets(m)];
      sent := sent + [m];
    }

    /** diag_cntl_send_log_mask() */
    method SendLogMask(equipId: uint32)
      requires Valid()
      modifies this`cntlq, this`sent
      ensures Valid()
      ensures sent == old(sent) + if open then [LogReport(logs.Map(), logs.status, equipId)] else []
    {
      if !open {
        return;
      }
      var status, id, numItems: uint32, mask: seq<uint8> := logs.status, equipId, 0, [];
      if status == MASK_VALID {
        var got := logs.GetLogMask(equipId);
        if got.Some? {
          LogItemFits(logs, equipId);
          numItems, mask := got.value.numItems, got.value.mask;
        }
      } else {
        id := 0;
      }
      QueuePush(LogMask(status, id % 0x100, numItems, mask));
    }

    /** diag_cntl_send_event_mask() */
    method SendEventMask()
      requires Valid()
      modifies this`cntlq, this`sent
      ensures Valid()
      ensures sent == old(sent) + if open then [EventReport(events.Map(), events.status)] else []
    {
      if !open {
        return;
      }
      var status, mask: seq<uint8> := events.status, [];
      var config := if status == MASK_ALL_ENABLED || status == MASK_VALID then 1 else 0;
      if status == MASK_VALID {
        var got := events.GetEventMask(events.maxBits);
        mask := got.value;
        assert mask == events.Map().octets;
      }
      QueuePush(EventMask(status, config, mask));
    }

    /** diag_cntl_send_msg_mask() */
    method SendMsgMask(first: uint16, last: uint16)
      requires Valid() && Reportable(View(), first)
      modifies this`cntlq, this`sent
      ensures Valid()
      ensures sent == old(sent) + if open then [MsgReport(View(), first, last)] else []
    {
      if !open {
        return;
      }
      ghost var t := View();
      var status := msgs.status;
      var newFirst, newLast, words: seq<uint32> := first, last, [];
      if status == MASK_VALID {
        var got := msgs.GetMsgMask(first, last);
        newFirst, newLast := got.value.first, got.value.last;
        words := got.value.mask[..newLast - newFirst + 1];
        ReportOf(t, first, last, got.value, newLast - newFirst + 1);
      } else if status == MASK_ALL_DISABLED {
        newFirst, newLast := 0, 0;
      } else if status == MASK_ALL_ENABLED {
        var got := msgs.GetMsgMask(first, last);
        newFirst, newLast := got.value.first, got.value.last;
        words := got.value.mask[..1];
        ReportOf(t, first, last, got.value, 1);
      }
      var m := MsgMask(status, newFirst, newLast, words);
      assert m == MsgReport(t, first, last);
      QueuePush(m);
      assert View() == t;
    }

    /** One turn of the loop below. */
    method SendWindow(i: nat)
      requires Valid() && i < |ssids|
      modifies this`cntlq, this`sent
      ensures Valid() && View() == old(View())
      ensures sent == old(sent) + if open then [WindowReport(View(), i)] else []
    {
      WindowReportable(View(), i);
      SendMsgMask(ssids[i].first, ssids[i].last);
    }

    /** diag_cntl_send_masks(): a report for every window. */
    method SendMasks()
      requires Valid()
      modifies this`cntlq, this`sent
      ensures Valid()
      ensures sent == WithReports(old(sent), open, View(), |ssids|)
    {
      ghost var t, was := View(), sent;
      var i := 0;
      while i < |ssids|
        invariant i <= |ssids| && Valid() && View() == t
        invariant sent == WithReports(was, open, t, i)
      {
        SendWindow(i);
        OneMoreReport(was, open, t, i);
        i := i + 1;
      }
    }

    /** diag_cntl_set_diag_mode() */
    method SetDiagMode(realTime: bool)
      requires Valid()
      modifies this`cntlq, this`sent
      ensures Valid() && sent == old(sent) + [ModeMessage(diagId, realTime)]
    {
      if diagId != 0 {
        QueuePush(DiagModeFor(realTime, diagId));
      } else {
        QueuePush(DiagMode(realTime));
      }
    }

    /** diag_cntl_set_buffering_mode() */
    method SetBufferingMode(mode: uint8)
      requires Valid()
      modifies this`cntlq, this`sent
      ensures Valid() && sent == old(sent) + [BufferingMessage(diagId, mode)]
    {
      if diagId != 0 {
        QueuePush(BufferingFor(mode, diagId));
      } else {
        QueuePush(Buffering(mode));
      }
    }

    /** diag_cntl_send_feature_mask() */
    method SendFeatureMask(mask: uint32, slack: seq<uint8>)
      requires Valid() && |slack| == 2
      modifies this`cntlq, this`sent
      ensures Valid() && sent == old(sent) + Greeting(Surroundings(slack), mask)
    {
      if !open {
        return;
      }
      QueuePush(Feature(mask, slack));
      SendMasks();
      SetDiagMode(true);
      SetBufferingMode(0);
      InOrder(old(sent), [Feature(mask, slack)], MsgReports(View(), |ssids|),
              [ModeMessage(diagId, true)], [BufferingMessage(diagId, 0)]);
    }

    /** diag_cntl_feature_mask() */
    method FeatureMask(body: seq<uint8>, slack: seq<uint8>)
      requires Valid() && 8 <= |body| && |slack| == 2
      modifies this`features, this`cntlq, this`sent
      ensures Valid() && features == And(U32(body, 4), LocalFeatures(hasCmd, sockets))
      ensures sent == old(sent) + Greeting(Surroundings(slack), features)
    {
      var localMask := 0x1 + 0x2;
      if hasCmd {
        localMask := localMask + 0x10;
      }
      localMask := localMask + 0x40;
      if sockets {
        localMask := localMask + 0x2000;
      }
      localMask := localMask + 0x8000 + 0x8_0000;
      features := And(U32(body, 4), localMask);
      SendFeatureMask(features, slack);
    }

    /** The keys of one range, as the loops of both functions compute them. */
    method RangeAt(body: seq<uint8>, offset: nat) returns (first: nat, last: nat)
      requires 8 <= offset && offset + 4 <= |body|
      ensures Registrations.KeyRange(first, last) == SpanAt(body, offset)
    {
      var cmd, subsys := U16(body, 4), U16(body, 6);
      if cmd == 0xff && subsys != 0xff {
        cmd := 75;
      }
      first := Router.Join(cmd, subsys, U16(body, offset));
      last := Router.Join(cmd, subsys, U16(body, offset + 2));
    }

    /** diag_cntl_register() */
    method Register(body: seq<uint8>)
      requires RangesFit(body, REGISTER_RANGES, REGISTER_RANGE)
      modifies router`diag
      ensures router.diag == Registrations.Table(old(router.diag), Registrations.Adds(p, Spans(body, REGISTER_RANGES, REGISTER_RANGE)))
    {
      ghost var events := Registrations.Adds(p, Spans(body, REGISTER_RANGES, REGISTER_RANGE));
      var i := 0;
      while i < U16(body, 8)
        invariant i <= U16(body, 8) && router.diag == Registrations.Table(old(router.diag), events[..i])
      {
        SpanFits(body, REGISTER_RANGES, REGISTER_RANGE, i);
        var first, last := RangeAt(body, REGISTER_RANGES + REGISTER_RANGE * i);
        router.diag := router.diag + [Router.Cmd(first, last, Router.ToPeripheral(p))];
        assert events[i] == Registrations.Add(Router.Cmd(first, last, Router.ToPeripheral(p)));
        Registrations.TableNext(old(router.diag), events, i);
        i := i + 1;
      }
      assert events[..i] == events;
    }

    /** A list_for_each_safe pass that deletes the entries an event removes. */
    method DeleteMatching(ghost e: Registrations.Event, all: bool, first: nat, last: nat)
      requires e == if all then Registrations.Close(p) else Registrations.Withdraw(p, first, last)
      modifies router`diag
      ensures router.diag == Registrations.Without(old(router.diag), e)
      ensures forall c :: c in router.diag
                <==> c in old(router.diag) && !(c.handler == Router.ToPeripheral(p) && (all || (c.first == first && c.last == last)))
    {
      ghost var was, j := router.diag, 0;
      var i := 0;
      while i < |router.diag|
        invariant j <= |was| && i == |Registrations.Without(was[..j], e)|
        invariant router.diag == Registrations.Without(was[..j], e) + was[j..]
        decreases |was| - j
      {
        var dc := router.diag[i];
        PassStep(was, j, e);
        if dc.handler == Router.ToPeripheral(p) && (all || (dc.first == first && dc.last == last)) {
          router.diag := router.diag[..i] + router.diag[i + 1..];
        } else {
          i := i + 1;
        }
        j := j + 1;
      }
      assert was[..j] == was;
      RemainingEntries(was, e, p, all, first, last);
    }

    /** diag_cntl_deregister() */
    method Deregister(body: seq<uint8>)
      requires RangesFit(body, DEREGISTER_RANGES, DEREGISTER_RANGE)
      modifies router`diag
      ensures router.diag
           == Registrations.Table(old(router.diag), Registrations.Withdrawals(p, Spans(body, DEREGISTER_RANGES, DEREGISTER_RANGE)))
    {
      ghost var events := Registrations.Withdrawals(p, Spans(body, DEREGISTER_RANGES, DEREGISTER_RANGE));
      var i := 0;
      while i < U16(body, 8)
        invariant i <= U16(body, 8) && router.diag == Registrations.Table(old(router.diag), events[..i])
      {
        SpanFits(body, DEREGISTER_RANGES, DEREGISTER_RANGE, i);
        var first, last := RangeAt(body, DEREGISTER_RANGES + DEREGISTER_RANGE * i);
        assert events[i] == Registrations.Withdraw(p, first, last);
        DeleteMatching(events[i], false, first, last);
        Registrations.TableNext(old(router.diag), events, i);
        i := i + 1;
      }
      assert events[..i] == events;
    }

    /** diag_cntl_close() */
    method Close()
      modifies router`diag
      ensures router.diag == Registrations.After(old(router.diag), Registrations.Close(p))
      ensures router.diag == Registrations.NotOf(p, old(router.diag))
    {
      Registrations.CloseTakesOwn(router.diag, p);
      DeleteMatching(Registrations.Close(p), true, 0, 0);
    }

    /** diag_cntl_process_diag_id() of a packet in a buffer of n octets. */
    method ProcessDiagId(body: seq<uint8>, n: nat)
      requires Valid() && IdFits(features, body, n)
      modifies this`cntlq, this`sent, ids
      ensures Valid() && Abs() == HandleDiagId(old(Abs()), body, n)
    {
      var version, start := U32(body, 0), 0;
      if HasBit(features, FEATURE_DIAG_ID_FEATURE_MASK) && version >= 2 {
        if n < 28 {
          return;
        }
        start := 12 + U32(body, 8);
      } else {
        if n < 16 {
          return;
        }
        start := 8;
      }
      var name := NameOf(body, start);
      var q := DiagIds.Request(name, version, U32(body, 4));
      assert q == RequestOf(features, body);
      var answer := ids.ProcessDiagId(q);
      if answer.Some? {
        QueuePush(DiagId(answer.value, name));
      }
    }

    /** The switch of diag_cntl_recv(). */
    method HandlePacket(packet: Packet, n: nat, slack: seq<uint8>)
      requires Valid() && |slack| == 2 && WellFormed(features, packet, n)
      modifies this`features, this`cntlq, this`sent, router`diag, ids
      ensures Valid() && Abs() == Handle(old(Surroundings(slack)), old(Abs()), packet, n)
    {
      if packet.cmd == CMD_REGISTER {
        Register(packet.body);
      } else if packet.cmd == CMD_FEATURE_MASK {
        FeatureMask(packet.body, slack);
      } else if packet.cmd == CMD_DIAG_ID {
        ProcessDiagId(packet.body, n);
      } else if packet.cmd == CMD_DEREGISTER {
        Deregister(packet.body);
      }
    }

    /** diag_cntl_recv(): the packets of a buffer are handled in order, up to the first that is not all there. */
    method Recv(buf: seq<uint8>, slack: seq<uint8>)
      requires Valid() && |slack| == 2
      requires AllWellFormed(Surroundings(slack), Abs(), Split(buf), |buf|)
      modifies this`features, this`cntlq, this`sent, router`diag, ids
      ensures Valid()
      ensures Abs() == HandleAll(old(Surroundings(slack)), old(Abs()), Split(buf), |buf|)
    {
      ghost var env, was := Surroundings(slack), Abs();
      var offset := 0;
      assert buf[0..] == buf;
      while offset + HEADER <= |buf|
        invariant offset <= |buf| && Valid() && Surroundings(slack) == env
        invariant AllWellFormed(env, Abs(), Split(buf[offset..]), |buf|)
        invariant HandleAll(env, was, Split(buf), |buf|) == HandleAll(env, Abs(), Split(buf[offset..]), |buf|)
        decreases |buf| - offset
      {
        var rest := buf[offset..];
        if offset + HEADER + BodyLength(rest) > |buf| {
          break;
        }
        var next := offset + HEADER + BodyLength(rest);
        assert rest[HEADER + BodyLength(rest)..] == buf[next..];
        HandleFirst(env, Abs(), rest, buf[next..], |buf|);
        HandlePacket(Head(rest), |buf|, slack);
        offset := next;
      }
    }
  }

  /** The first words of the window that a get request returned are those of the report. */
  lemma ReportOf(t: MsgView, first: uint16, last: uint16, got: MsgMasks.MsgWindow, n: nat)
    requires Reportable(t, first) && (t.status == MASK_VALID || t.status == MASK_ALL_ENABLED)
    requires MsgMasks.IsAnswer(t.table, t.windows, first, got)
    requires n == (if t.status == MASK_VALID then got.last - got.first + 1 else 1)
    ensures n <= |got.mask| && got.first < 0x1_0000 && got.last < 0x1_0000
    ensures MsgReport(t, first, last) == MsgMask(t.status, got.first, got.last, got.mask[..n])
  {
    var i := MsgMasks.Window(t.windows, first).value;
    var w := t.windows[i];
    assert w.first <= w.last;
    forall k: nat | k < n
      ensures got.mask[k] == MsgMasks.WindowWords(t.table[i], w, n)[k]
    {
      MsgMasks.WordIs(t.table, t.windows, i, n, k);
      assert MsgMasks.Within(w, w.first + k);
    }
    assert got.mask[..n] == MsgMasks.WindowWords(t.table[i], w, n);
  }

  /** What has been sent once the first n windows have been reported. */
  function WithReports(was: seq<Message>, open: bool, t: MsgView, n: nat): seq<Message>
    requires GoodView(t) && n <= |t.windows|
  {
    was + if open then MsgReports(t, n) else []
  }

  lemma OneMoreReport(was: seq<Message>, open: bool, t: MsgView, i: nat)
    requires GoodView(t) && i < |t.windows|
    ensures WithReports(was, open, t, i + 1) == WithReports(was, open, t, i) + if open then [WindowReport(t, i)] else []
  {
  }

  lemma InOrder(s: seq<Message>, a: seq<Message>, b: seq<Message>, c: seq<Message>, d: seq<Message>)
    ensures s + a + b + c + d == s + (a + b + c + d)
  {
  }

  lemma RemainingEntries(was: seq<Router.Cmd>, e: Registrations.Event, p: nat, all: bool, first: nat, last: nat)
    requires e == if all then Registrations.Close(p) else Registrations.Withdraw(p, first, last)
    ensures forall c :: c in Registrations.Without(was, e)
              <==> c in was && !(c.handler == Router.ToPeripheral(p) && (all || (c.first == first && c.last == last)))
  {
    forall c
      ensures c in Registrations.Without(was, e)
         <==> c in was && !(c.handler == Router.ToPeripheral(p) && (all || (c.first == first && c.last == last)))
    {
      if all {
        Registrations.CloseCounts(was, p, c);
      } else {
        Registrations.WithdrawCounts(was, p, first, last, c);
      }
    }
  }

  /** Where a deleting pass stands after j entries: what it kept of them, then the rest. */
  lemma PassStep(was: seq<Router.Cmd>, j: nat, e: Registrations.Event)
    requires j < |was|
    ensures var kept := Registrations.Without(was[..j], e);
            var now := kept + was[j..];
            && now[|kept|] == was[j]
            && Registrations.Without(was[..j + 1], e) == kept + (if Registrations.Removes(e, was[j]) then [] else [was[j]])
            && Registrations.Without(was[..j + 1], e) + was[j + 1..]
               == if Registrations.Removes(e, was[j]) then now[..|kept|] + now[|kept| + 1..] else now
  {
    assert was[..j + 1][..j] == was[..j];
    assert was[j..] == [was[j]] + was[j + 1..];
  }

  lemma LogItemFits(logs: LogMasks.LogTable, equipId: uint32)
    requires logs.Valid() && equipId in logs.Map()
    ensures logs.Map()[equipId].numItems < 0x1_0000 && |logs.Map()[equipId].mask| < 0x1_0000
  {
  }
}
