/**
 What the router makes of a control stream: how each packet of a peripheral
 changes the routing table, the diag identifiers and the peripheral's features,
 and what is sent back (router/diag_cntl.c).
 */
module Control {
  import opened Bytes
  import opened LittleEndian
  import opened BitOps
  import opened Layout
  import opened Memory
  import opened ControlStream
  import opened ControlMessages
  import opened Router
  import opened Registrations
  import opened DiagIds
  import MsgMasks
  import LogMasks
  import EventMasks

  const CMD_REGISTER: uint32 := 1
  const CMD_DEREGISTER: uint32 := 27

  function U16(s: seq<uint8>, offset: nat): uint16
    requires offset + 2 <= |s|
  {
    Limits(); ToLeLe(s[offset..offset + 2]);
    Le(s[offset..offset + 2])
  }

  function U32(s: seq<uint8>, offset: nat): uint32
    requires offset + 4 <= |s|
  {
    Limits(); ToLeLe(s[offset..offset + 4]);
    Le(s[offset..offset + 4])
  }

  // ---------------------------------------------------------------- key ranges

  /** A body whose count of ranges, of a size each, fits after a structure. */
  predicate RangesFit(body: seq<uint8>, start: nat, size: nat) {
    start <= |body| && 10 <= start && start + size * U16(body, 8) <= |body|
  }

  function SpanAt(body: seq<uint8>, offset: nat): KeyRange
    requires 8 <= offset && offset + 4 <= |body|
  {
    KeyRange(EntryKey(U16(body, 4), U16(body, 6), U16(body, offset)),
         EntryKey(U16(body, 4), U16(body, 6), U16(body, offset + 2)))
  }

  function Spans(body: seq<uint8>, start: nat, size: nat): (spans: seq<KeyRange>)
    requires RangesFit(body, start, size) && size >= 4
    ensures |spans| == U16(body, 8)
  {
    seq(U16(body, 8), i requires 0 <= i < U16(body, 8) =>
      SpanFits(body, start, size, i);
      SpanAt(body, start + size * i))
  }

  lemma SpanFits(body: seq<uint8>, start: nat, size: nat, i: nat)
    requires RangesFit(body, start, size) && size >= 4 && i < U16(body, 8)
    ensures start + size * i + 4 <= |body|
  {
    assert size * i + size == size * (i + 1) <= size * U16(body, 8);
  }

  /** Where the ranges of the two structures start, and how long a range is. */
  const REGISTER_RANGES: nat := 12
  const REGISTER_RANGE: nat := 8
  const DEREGISTER_RANGES: nat := 10
  const DEREGISTER_RANGE: nat := 4

  // ---------------------------------------------------------------- features

  const FEATURE_DIAG_ID_FEATURE_MASK: nat := 19

  /** The features this router has, for a peripheral with or without a command channel and sockets. */
  function LocalFeatures(hasCmd: bool, sockets: bool): uint32 {
    0x1 + 0x2 + (if hasCmd then 0x10 else 0) + 0x40 + (if sockets then 0x2000 else 0) + 0x8000 + 0x8_0000
  }

  // ---------------------------------------------------------------- diag identifiers

  /** Names follow a feature mask in later versions, when both sides have that feature. */
  predicate HasFeatureMask(features: uint32, version: uint32) {
    HasBit(features, FEATURE_DIAG_ID_FEATURE_MASK) && version >= 2
  }

  /** The shortest buffer that is taken for a request: the size of its structure. */
  function LeastSize(features: uint32, version: uint32): nat {
    if HasFeatureMask(features, version) then 28 else 16
  }

  predicate Readable(features: uint32, body: seq<uint8>) {
    8 <= |body| && (HasFeatureMask(features, U32(body, 0)) ==> 12 <= |body|)
  }

  function NameStart(features: uint32, body: seq<uint8>): nat
    requires Readable(features, body)
  {
    if HasFeatureMask(features, U32(body, 0)) then 12 + U32(body, 8) else 8
  }

  function NameOf(body: seq<uint8>, start: nat): seq<uint8>
    requires start <= |body|
  {
    CString(body[start..])
  }

  /** A request that is refused for the size of its buffer, or holds a terminated name of at most 254 octets. */
  predicate IdFits(features: uint32, body: seq<uint8>, n: nat) {
    8 <= |body|
    && (n >= LeastSize(features, U32(body, 0)) ==>
          Readable(features, body) &&
          var start := NameStart(features, body);
          start < |body| && |NameOf(body, start)| < |body| - start && |NameOf(body, start)| <= 254)
  }

  function RequestOf(features: uint32, body: seq<uint8>): Request
    requires Readable(features, body) && NameStart(features, body) <= |body|
  {
    Request(NameOf(body, NameStart(features, body)), U32(body, 0), U32(body, 4))
  }

  // ---------------------------------------------------------------- message masks as reported

  /** The message masks as they stand. */
  datatype MsgView = MsgView(table: seq<MsgMasks.MsgItem>, windows: seq<MsgMasks.SsidRange>, status: uint8)

  predicate GoodView(t: MsgView) { MsgMasks.GoodTable(t.table, t.windows) }

  predicate Reportable(t: MsgView, first: uint16) {
    GoodView(t) && (t.status == MASK_VALID || t.status == MASK_ALL_ENABLED ==> MsgMasks.Window(t.windows, first).Some?)
  }

  /** What a peripheral is told about the messages of a range. */
  function MsgReport(t: MsgView, first: uint16, last: uint16): (m: Message)
    requires Reportable(t, first)
    ensures m.MsgMask? && Sendable(m)
  {
    if t.status == MASK_VALID || t.status == MASK_ALL_ENABLED then
      var i := MsgMasks.Window(t.windows, first).value;
      var w := t.windows[i];
      MsgMask(t.status, w.first, w.last, MsgMasks.WindowWords(t.table[i], w, if t.status == MASK_VALID then w.last - w.first + 1 else 1))
    else if t.status == MASK_ALL_DISABLED then MsgMask(t.status, 0, 0, [])
    else MsgMask(t.status, first, last, [])
  }

  /** A valid report carries the word of every SSID in its range, as the map of masks has it. */
  lemma ReportIsMap(t: MsgView, first: uint16, last: uint16)
    requires Reportable(t, first) && t.status == MASK_VALID
    ensures var m := MsgReport(t, first, last);
            && m.first <= first <= m.last && |m.words| == m.last - m.first + 1
            && forall k | 0 <= k < |m.words| :: MsgMasks.WordOf(t.table, t.windows, m.first + k) == Some(m.words[k])
  {
    var m, i := MsgReport(t, first, last), MsgMasks.Window(t.windows, first).value;
    forall k | 0 <= k < |m.words|
      ensures MsgMasks.WordOf(t.table, t.windows, m.first + k) == Some(m.words[k])
    {
      MsgMasks.WordIs(t.table, t.windows, i, |m.words|, k);
    }
  }

  lemma WindowReportable(t: MsgView, i: nat)
    requires GoodView(t) && i < |t.windows|
    ensures MsgMasks.Window(t.windows, t.windows[i].first) == Some(i)
    ensures Reportable(t, t.windows[i].first)
  {
    MsgMasks.WindowUnique(t.windows, t.windows[i].first, i);
  }

  /** The report of the i-th window. */
  function WindowReport(t: MsgView, i: nat): (m: Message)
    requires GoodView(t) && i < |t.windows|
    ensures m.MsgMask? && Sendable(m)
  {
    WindowReportable(t, i);
    MsgReport(t, t.windows[i].first, t.windows[i].last)
  }

  /** A report for each of the first n windows. */
  function MsgReports(t: MsgView, n: nat): (ms: seq<Message>)
    requires GoodView(t) && n <= |t.windows|
    ensures |ms| == n && forall m | m in ms :: Sendable(m)
    decreases n
  {
    if n == 0 then []
    else
      MsgReports(t, n - 1) + [WindowReport(t, n - 1)]
  }

  // ---------------------------------------------------------------- log and event masks as reported

  /** What a peripheral is told about the logs of an equipment identifier; one that is not known has no items. */
  function LogReport(m: LogMasks.LogMap, status: uint8, equipId: uint32): Message {
    if status != MASK_VALID then LogMask(status, 0, 0, [])
    else if equipId in m && m[equipId].numItems < 0x1_0000_0000
    then LogMask(status, equipId % 0x100, m[equipId].numItems, m[equipId].mask)
    else LogMask(status, equipId % 0x100, 0, [])
  }

  function EventReport(m: EventMasks.EventMap, status: uint8): Message {
    EventMask(status, if status == MASK_ALL_ENABLED || status == MASK_VALID then 1 else 0,
              if status == MASK_VALID then m.octets else [])
  }

  /** A peripheral that reads the report of a mask just set sees the capped item count and exactly those octets of the mask. */
  lemma LogSetIsTold(m: LogMasks.LogMap, equipId: uint8, numItems: uint32, mask: seq<uint8>)
    requires equipId < LogMasks.MAX_EQUIP_ID
    requires BitsToBytes(Min(numItems, LogMasks.MAX_ITEMS_ALLOWED)) <= |mask|
    ensures var n := Min(numItems, LogMasks.MAX_ITEMS_ALLOWED);
            Read(PacketOf(LogReport(m[equipId as nat := LogMasks.Capped(numItems, mask)], MASK_VALID, equipId)))
            == Some(LogMask(MASK_VALID, equipId, n, mask[..BitsToBytes(n)]))
  {
    ReadPacketOf(LogReport(m[equipId as nat := LogMasks.Capped(numItems, mask)], MASK_VALID, equipId));
  }

  /** A peripheral that reads the report of an update sees the octets of the update, and after them what it left alone. */
  lemma EventUpdateIsTold(m: EventMasks.EventMap, bits: uint16, mask: seq<uint8>)
    requires EventMasks.GoodMap(m) && BitsToBytes(bits) <= |mask|
    ensures var n := BitsToBytes(bits);
            Read(PacketOf(EventReport(EventMasks.EventStep(m, EventMasks.Update(bits, mask)), MASK_VALID)))
            == Some(EventMask(MASK_VALID, 1, mask[..n] + if bits > m.bits then [] else m.octets[n..]))
  {
    assert mask[..BitsToBytes(bits)] + [] == mask[..BitsToBytes(bits)];
    ReadPacketOf(EventReport(EventMasks.EventStep(m, EventMasks.Update(bits, mask)), MASK_VALID));
  }

  // ---------------------------------------------------------------- handling packets

  /** What stays the same while a stream is handled. */
  datatype Env = Env(p: nat, hasCmd: bool, sockets: bool, open: bool, diagId: uint8, msgs: MsgView, slack: seq<uint8>)

  predicate GoodEnv(env: Env) { GoodView(env.msgs) && |env.slack| == 2 }

  datatype State = State(diag: seq<Cmd>, ids: Ids, features: uint32, sent: seq<Message>)

  function ModeMessage(diagId: uint8, realTime: bool): (m: Message)
    ensures Sendable(m)
  {
    if diagId != 0 then DiagModeFor(realTime, diagId) else DiagMode(realTime)
  }

  function BufferingMessage(diagId: uint8, mode: uint8): (m: Message)
    ensures Sendable(m)
  {
    if diagId != 0 then BufferingFor(mode, diagId) else Buffering(mode)
  }

  /** The answer to a feature mask: the features in common, and the settings that follow it. */
  function Greeting(env: Env, features: uint32): (ms: seq<Message>)
    requires GoodEnv(env)
    ensures forall m | m in ms :: Sendable(m)
  {
    if !env.open then []
    else
      [Feature(features, env.slack)] + MsgReports(env.msgs, |env.msgs.windows|)
      + [ModeMessage(env.diagId, true)] + [BufferingMessage(env.diagId, 0)]
  }

  predicate WellFormed(features: uint32, p: Packet, n: nat) {
    && (p.cmd == CMD_REGISTER ==> RangesFit(p.body, REGISTER_RANGES, REGISTER_RANGE))
    && (p.cmd == CMD_DEREGISTER ==> RangesFit(p.body, DEREGISTER_RANGES, DEREGISTER_RANGE))
    && (p.cmd == CMD_FEATURE_MASK ==> 8 <= |p.body|)
    && (p.cmd == CMD_DIAG_ID ==> IdFits(features, p.body, n))
  }

  /** The changes a packet makes to the routing table. */
  function EventsOf(peripheral: nat, p: Packet): seq<Event>
    requires p.cmd == CMD_REGISTER ==> RangesFit(p.body, REGISTER_RANGES, REGISTER_RANGE)
    requires p.cmd == CMD_DEREGISTER ==> RangesFit(p.body, DEREGISTER_RANGES, DEREGISTER_RANGE)
  {
    if p.cmd == CMD_REGISTER then Adds(peripheral, Spans(p.body, REGISTER_RANGES, REGISTER_RANGE))
    else if p.cmd == CMD_DEREGISTER then Withdrawals(peripheral, Spans(p.body, DEREGISTER_RANGES, DEREGISTER_RANGE))
    else []
  }

  /** An identifier request, from a buffer of n octets. */
  function HandleDiagId(st: State, body: seq<uint8>, n: nat): State
    requires IdFits(st.features, body, n)
  {
    if n < LeastSize(st.features, U32(body, 0)) then st
    else
      var q := RequestOf(st.features, body);
      var (ids, answer) := Process(st.ids, q);
      if answer.Some? then st.(ids := ids, sent := st.sent + [DiagId(answer.value, q.name)]) else st.(ids := ids)
  }

  /** The effect of one packet from a buffer of n octets. */
  function Handle(env: Env, st: State, p: Packet, n: nat): State
    requires GoodEnv(env) && WellFormed(st.features, p, n)
  {
    if p.cmd == CMD_REGISTER || p.cmd == CMD_DEREGISTER then st.(diag := Table(st.diag, EventsOf(env.p, p)))
    else if p.cmd == CMD_FEATURE_MASK then
      var features := And(U32(p.body, 4), LocalFeatures(env.hasCmd, env.sockets));
      st.(features := features, sent := st.sent + Greeting(env, features))
    else if p.cmd == CMD_DIAG_ID then HandleDiagId(st, p.body, n)
    else st
  }

  /** Each packet is well formed by the time it is its turn. */
  predicate AllWellFormed(env: Env, st: State, ps: seq<Packet>, n: nat)
    requires GoodEnv(env)
    decreases |ps|
  {
    ps == [] || (WellFormed(st.features, ps[0], n) && AllWellFormed(env, Handle(env, st, ps[0], n), ps[1..], n))
  }

  function HandleAll(env: Env, st: State, ps: seq<Packet>, n: nat): State
    requires GoodEnv(env) && AllWellFormed(env, st, ps, n)
    decreases |ps|
  {
    if ps == [] then st else HandleAll(env, Handle(env, st, ps[0], n), ps[1..], n)
  }

  /** The first packet of a buffer, and then the others. */
  lemma HandleFirst(env: Env, st: State, buf: seq<uint8>, rest: seq<uint8>, n: nat)
    requires GoodEnv(env) && AllWellFormed(env, st, Split(buf), n)
    requires Complete(buf) && rest == buf[HEADER + BodyLength(buf)..]
    ensures WellFormed(st.features, Head(buf), n)
    ensures var next := Handle(env, st, Head(buf), n);
            AllWellFormed(env, next, Split(rest), n)
            && HandleAll(env, st, Split(buf), n) == HandleAll(env, next, Split(rest), n)
  {
    assert Split(buf) == [Head(buf)] + Split(rest);
    assert Split(buf)[1..] == Split(rest);
  }

  predicate RangesWellFormed(ps: seq<Packet>) {
    forall p | p in ps ::
      && (p.cmd == CMD_REGISTER ==> RangesFit(p.body, REGISTER_RANGES, REGISTER_RANGE))
      && (p.cmd == CMD_DEREGISTER ==> RangesFit(p.body, DEREGISTER_RANGES, DEREGISTER_RANGE))
  }

  /** The changes a stream makes to the routing table. */
  function EventsOfAll(peripheral: nat, ps: seq<Packet>): seq<Event>
    requires RangesWellFormed(ps)
    decreases |ps|
  {
    if ps == [] then []
    else
      assert ps[0] in ps;
      EventsOf(peripheral, ps[0]) + EventsOfAll(peripheral, ps[1..])
  }

  /** A stream changes the routing table by the events of its packets, whatever else is in it. */
  lemma {:induction false} StreamChangesTable(env: Env, st: State, ps: seq<Packet>, n: nat)
    requires GoodEnv(env) && AllWellFormed(env, st, ps, n)
    ensures RangesWellFormed(ps)
    ensures HandleAll(env, st, ps, n).diag == Table(st.diag, EventsOfAll(env.p, ps))
    decreases |ps|
  {
    if ps != [] {
      var next := Handle(env, st, ps[0], n);
      StreamChangesTable(env, next, ps[1..], n);
      assert forall p | p in ps :: p == ps[0] || p in ps[1..];
      TableConcat(st.diag, EventsOf(env.p, ps[0]), EventsOfAll(env.p, ps[1..]));
      HandleTable(env, st, ps[0], n);
    }
  }

  /**
   Streams of several peripherals one after the other make one run of events,
   so what RouteOverRun says of runs holds for whatever arrived so far.
   */
  lemma StreamExtendsRun(env: Env, st: State, ps: seq<Packet>, n: nat, history: seq<Event>)
    requires GoodEnv(env) && AllWellFormed(env, st, ps, n) && st.diag == Table([], history)
    ensures RangesWellFormed(ps)
    ensures HandleAll(env, st, ps, n).diag == Table([], history + EventsOfAll(env.p, ps))
  {
    StreamChangesTable(env, st, ps, n);
    TableConcat([], history, EventsOfAll(env.p, ps));
  }

  lemma HandleTable(env: Env, st: State, p: Packet, n: nat)
    requires GoodEnv(env) && WellFormed(st.features, p, n)
    ensures Handle(env, st, p, n).diag == Table(st.diag, EventsOf(env.p, p))
  {
  }
}
