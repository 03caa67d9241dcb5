/**
 The messages that the router sends on a control channel, laid out as the
 structures of router/diag_cntl.c, and read back as a peripheral would.
 */
module ControlMessages {
  import opened Bytes
  import opened LittleEndian
  import opened Layout
  import opened ControlStream

  const CMD_DIAG_MODE: uint32 := 3
  const CMD_FEATURE_MASK: uint32 := 8
  const CMD_LOG_MASK: uint32 := 9
  const CMD_EVENT_MASK: uint32 := 10
  const CMD_MSG_MASK: uint32 := 11
  const CMD_BUFFERING_TX_MODE: uint32 := 17
  const CMD_DIAG_ID: uint32 := 33

  datatype Message =
    | LogMask(status: uint8, equipId: uint8, numItems: uint32, mask: seq<uint8>)
    | EventMask(status: uint8, config: uint8, mask: seq<uint8>)
    | MsgMask(status: uint8, first: uint16, last: uint16, words: seq<uint32>)
      /** Two octets beyond the structure are sent as they happen to be. */
    | Feature(features: uint32, slack: seq<uint8>)
    | DiagMode(realTime: bool)
    | DiagModeFor(realTime: bool, diagId: uint8)
    | Buffering(mode: uint8)
    | BufferingFor(mode: uint8, diagId: uint8)
    | DiagId(id: uint32, name: seq<uint8>)

  /** Lengths are below what their fields hold, and names are C strings. */
  predicate Sendable(m: Message) {
    match m
    case LogMask(_, _, _, mask) => |mask| < 0x1_0000
    case EventMask(_, _, mask) => |mask| < 0x1_0000
    case MsgMask(_, _, _, words) => |words| < 0x1_0000
    case Feature(_, slack) => |slack| == 2
    case DiagId(_, name) => |name| < 0x1_0000 && 0 !in name
    case _ => true
  }

  function CmdOf(m: Message): uint32 {
    match m
    case LogMask(_, _, _, _) => CMD_LOG_MASK
    case EventMask(_, _, _) => CMD_EVENT_MASK
    case MsgMask(_, _, _, _) => CMD_MSG_MASK
    case Feature(_, _) => CMD_FEATURE_MASK
    case DiagMode(_) => CMD_DIAG_MODE
    case DiagModeFor(_, _) => CMD_DIAG_MODE
    case Buffering(_) => CMD_BUFFERING_TX_MODE
    case BufferingFor(_, _) => CMD_BUFFERING_TX_MODE
    case DiagId(_, _) => CMD_DIAG_ID
  }

  function Flag(b: bool): nat { if b then 1 else 0 }

  /** The fields of the structure after its header. */
  function FieldsOf(m: Message): seq<Field> {
    match m
    case LogMask(status, equipId, numItems, mask) =>
      [Field(1, 1), Field(status, 1), Field(equipId, 1), Field(numItems, 4), Field(|mask|, 4)]
    case EventMask(status, config, mask) =>
      [Field(1, 1), Field(status, 1), Field(config, 1), Field(|mask|, 4)]
    case MsgMask(status, first, last, words) =>
      [Field(1, 1), Field(status, 1), Field(0, 1), Field(first, 2), Field(last, 2), Field(|words|, 4)]
    case Feature(features, _) => [Field(4, 4), Field(features, 4)]
    case DiagMode(realTime) => ModeFields(1, realTime)
    case DiagModeFor(realTime, diagId) => ModeFields(2, realTime) + [Field(diagId, 1)]
    case Buffering(mode) => [Field(1, 4), Field(0, 1), Field(mode, 1)]
    case BufferingFor(mode, diagId) => [Field(2, 4), Field(diagId, 1), Field(0, 1), Field(mode, 1)]
    case DiagId(id, _) => [Field(1, 4), Field(id, 4)]
  }

  function ModeFields(version: nat, realTime: bool): seq<Field> {
    [Field(version, 4), Field(Flag(realTime), 4), Field(Flag(realTime), 4)] + Blank(6)
  }

  /** Fields that are sent as zero. */
  function Blank(n: nat): seq<Field> { seq(n, _ => Field(0, 4)) }

  /** What follows the structure. */
  function TailOf(m: Message): seq<uint8> {
    match m
    case LogMask(_, _, _, mask) => mask
    case EventMask(_, _, mask) => mask
    case MsgMask(_, _, _, words) => PackWords(words)
    case Feature(_, slack) => slack
    case DiagId(_, name) => name + [0]
    case _ => []
  }

  /** The length that is put into the header: computed from the size, or a constant. */
  function LengthOf(m: Message): nat {
    match m
    case LogMask(_, _, _, mask) => 19 + |mask| - HEADER
    case EventMask(_, _, mask) => 15 + |mask| - HEADER
    case MsgMask(_, _, _, words) => 19 + 4 * |words| - HEADER
    case Feature(_, _) => 16 + 2 - HEADER
    case DiagMode(_) => 36
    case DiagModeFor(_, _) => 37
    case Buffering(_) => 6
    case BufferingFor(_, _) => 7
    case DiagId(_, name) => 4 + 4 + |name| + 1
  }

  /** The octets that are queued. */
  function Octets(m: Message): seq<uint8> {
    ToLe(CmdOf(m), 4) + ToLe(LengthOf(m), 4) + Pack(FieldsOf(m)) + TailOf(m)
  }

  function PacketOf(m: Message): Packet {
    Packet(CmdOf(m), Pack(FieldsOf(m)) + TailOf(m))
  }

  function WidthsOf(m: Message): seq<nat> {
    match m
    case LogMask(_, _, _, _) => [1, 1, 1, 4, 4]
    case EventMask(_, _, _) => [1, 1, 1, 4]
    case MsgMask(_, _, _, _) => [1, 1, 1, 2, 2, 4]
    case Feature(_, _) => [4, 4]
    case DiagMode(_) => [4, 4, 4, 4, 4, 4, 4, 4, 4]
    case DiagModeFor(_, _) => [4, 4, 4, 4, 4, 4, 4, 4, 4, 1]
    case Buffering(_) => [4, 1, 1]
    case BufferingFor(_, _) => [4, 1, 1, 1]
    case DiagId(_, _) => [4, 4]
  }

  lemma WidthsAre(m: Message)
    ensures Widths(FieldsOf(m)) == WidthsOf(m)
  {
  }

  lemma Totals()
    ensures Total([1, 1, 1, 4, 4]) == 11 && Total([1, 1, 1, 4]) == 7 && Total([1, 1, 1, 2, 2, 4]) == 11
    ensures Total([4, 4]) == 8 && Total([4, 1, 1]) == 6 && Total([4, 1, 1, 1]) == 7
    ensures Total([4, 4, 4, 4, 4, 4, 4, 4, 4]) == 36 && Total([4, 4, 4, 4, 4, 4, 4, 4, 4, 1]) == 37
  {
  }

  lemma LengthsAre(m: Message)
    requires Sendable(m)
    ensures Total(WidthsOf(m)) + |TailOf(m)| == LengthOf(m)
  {
    Totals();
  }

  /** Every message is framed right: its header gives exactly the length of what follows it. */
  lemma OctetsAreSerialized(m: Message)
    requires Sendable(m)
    ensures Octets(m) == Serialize(PacketOf(m)) && Sized(PacketOf(m))
  {
    WidthsAre(m);
    LengthsAre(m);
    ConcatAssociative(ToLe(CmdOf(m), 4) + ToLe(LengthOf(m), 4), Pack(FieldsOf(m)), TailOf(m));
  }

  // ---------------------------------------------------------------- reading

  /** The octets of a C string that starts a buffer. */
  function CString(s: seq<uint8>): (name: seq<uint8>)
    ensures |name| <= |s| && 0 !in name && (|name| < |s| ==> s[|name|] == 0) && name == s[..|name|]
    decreases |s|
  {
    if s == [] || s[0] == 0 then [] else [s[0]] + CString(s[1..])
  }

  /** The field widths of a structure, by the command and length of its packet. */
  function Shape(cmd: uint32, length: nat): seq<nat> {
    if cmd == CMD_LOG_MASK then [1, 1, 1, 4, 4]
    else if cmd == CMD_EVENT_MASK then [1, 1, 1, 4]
    else if cmd == CMD_MSG_MASK then [1, 1, 1, 2, 2, 4]
    else if cmd == CMD_DIAG_MODE then
      if length == 36 then [4, 4, 4, 4, 4, 4, 4, 4, 4] else [4, 4, 4, 4, 4, 4, 4, 4, 4, 1]
    else if cmd == CMD_BUFFERING_TX_MODE then
      if length == 6 then [4, 1, 1] else [4, 1, 1, 1]
    else [4, 4]
  }

  predicate Typed(widths: seq<nat>, v: seq<nat>) {
    |v| == |widths| && forall i | 0 <= i < |v| :: v[i] < Limit(widths[i])
  }

  /** What the fields of a structure and the octets after it say. */
  function Interpret(cmd: uint32, length: nat, v: seq<nat>, rest: seq<uint8>): Option<Message>
    requires Typed(Shape(cmd, length), v)
  {
    Limits();
    if cmd == CMD_LOG_MASK then
      if v[4] <= |rest| then Some(LogMask(v[1], v[2], v[3], rest[..v[4]])) else None
    else if cmd == CMD_EVENT_MASK then
      if v[3] <= |rest| then Some(EventMask(v[1], v[2], rest[..v[3]])) else None
    else if cmd == CMD_MSG_MASK then
      if 4 * v[5] <= |rest| then Some(MsgMask(v[1], v[3], v[4], UnpackWords(rest[..4 * v[5]]))) else None
    else if cmd == CMD_DIAG_MODE then
      if length == 36 then Some(DiagMode(v[2] != 0)) else Some(DiagModeFor(v[2] != 0, v[9]))
    else if cmd == CMD_BUFFERING_TX_MODE then
      if length == 6 then Some(Buffering(v[2])) else Some(BufferingFor(v[3], v[1]))
    else if cmd == CMD_FEATURE_MASK then Some(Feature(v[1], rest))
    else if cmd == CMD_DIAG_ID then Some(DiagId(v[1], CString(rest)))
    else None
  }

  /** What a peripheral makes of a packet. */
  function Read(p: Packet): Option<Message> {
    var widths := Shape(p.cmd, |p.body|);
    if Total(widths) <= |p.body|
    then Interpret(p.cmd, |p.body|, Unpack(widths, p.body), p.body[Total(widths)..])
    else None
  }

  lemma FieldsFit(m: Message)
    requires Sendable(m)
    ensures AllFit(FieldsOf(m))
  {
    Limits();
  }

  lemma BodyIs(m: Message)
    requires Sendable(m)
    ensures var body := PacketOf(m).body;
            && |body| == LengthOf(m) && Total(WidthsOf(m)) <= |body|
            && Unpack(WidthsOf(m), body) == Values(FieldsOf(m))
            && body[Total(WidthsOf(m))..] == TailOf(m)
  {
    WidthsAre(m);
    LengthsAre(m);
    FieldsFit(m);
    UnpackPack(FieldsOf(m), TailOf(m));
  }

  lemma ShapeIs(m: Message)
    requires Sendable(m)
    ensures Shape(CmdOf(m), LengthOf(m)) == WidthsOf(m)
  {
  }

  lemma {:induction false} CStringEnds(name: seq<uint8>)
    requires 0 !in name
    ensures CString(name + [0]) == name
    decreases |name|
  {
    if name != [] {
      assert (name + [0])[1..] == name[1..] + [0];
      CStringEnds(name[1..]);
    }
  }

  lemma InterpretMessage(m: Message)
    requires Sendable(m)
    ensures Typed(Shape(CmdOf(m), LengthOf(m)), Values(FieldsOf(m)))
    ensures Interpret(CmdOf(m), LengthOf(m), Values(FieldsOf(m)), TailOf(m)) == Some(m)
  {
    ShapeIs(m);
    WidthsAre(m);
    FieldsFit(m);
    assert TailOf(m)[..|TailOf(m)|] == TailOf(m);
    if m.MsgMask? { UnpackPackWords(m.words); }
    if m.DiagId? { CStringEnds(m.name); }
  }

  /** A peripheral reads back every message that is sent to it. */
  lemma ReadPacketOf(m: Message)
    requires Sendable(m)
    ensures Read(PacketOf(m)) == Some(m)
  {
    ShapeIs(m);
    BodyIs(m);
    InterpretMessage(m);
  }

  // ---------------------------------------------------------------- streams of messages

  function OctetsOfAll(ms: seq<Message>): seq<uint8>
    decreases |ms|
  {
    if ms == [] then [] else Octets(ms[0]) + OctetsOfAll(ms[1..])
  }

  /** The packets tell just these messages. */
  predicate Tell(ps: seq<Packet>, ms: seq<Message>) {
    |ps| == |ms| && forall i | 0 <= i < |ms| :: Read(ps[i]) == Some(ms[i])
  }

  lemma TellCons(p: Packet, ps: seq<Packet>, m: Message, ms: seq<Message>)
    requires Tell(ps, ms) && Read(p) == Some(m)
    ensures Tell([p] + ps, [m] + ms)
  {
  }

  lemma OneMore(m: Message, rest: seq<uint8>)
    requires Sendable(m)
    ensures Split(Octets(m) + rest) == [PacketOf(m)] + Split(rest)
    ensures Remainder(Octets(m) + rest) == Remainder(rest)
  {
    OctetsAreSerialized(m);
    SplitStep(PacketOf(m), rest);
  }

  /**
   However many messages are sent, a peripheral that walks the octets as the
   router itself does reads back those messages, in order, and has none left over.
   */
  lemma {:induction false} ReadBackAll(ms: seq<Message>)
    requires forall m | m in ms :: Sendable(m)
    ensures Tell(Split(OctetsOfAll(ms)), ms) && Remainder(OctetsOfAll(ms)) == []
    decreases |ms|
  {
    if ms != [] {
      ReadBackAll(ms[1..]);
      OneMore(ms[0], OctetsOfAll(ms[1..]));
      ReadPacketOf(ms[0]);
      TellCons(PacketOf(ms[0]), Split(OctetsOfAll(ms[1..])), ms[0], ms[1..]);
      assert ms == [ms[0]] + ms[1..];
    }
  }
}
