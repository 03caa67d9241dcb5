/**
 The packets by which a peripheral announces and withdraws its commands, laid
 out as struct diag_cntl_cmd_reg and struct diag_cntl_cmd_dereg of
 router/diag_cntl.c, and what the router reads in them.
 */
module Announcements {
  import opened Bytes
  import opened LittleEndian
  import opened BitOps
  import opened ControlStream
  import opened ControlMessages
  import opened Router
  import opened Registrations
  import opened Control

  datatype Announced = Announced(first: uint16, last: uint16)

  /** The structure before the ranges, without the port of a registration. */
  function Preamble(version: uint32, cmd: uint16, subsys: uint16, count: uint16): (s: seq<uint8>)
    ensures |s| == 10
  {
    ToLe(version, 4) + ToLe(cmd, 2) + ToLe(subsys, 2) + ToLe(count, 2)
  }

  /** Ranges one after the other, each followed by the same number of further octets. */
  function RangeOctets(ranges: seq<Announced>, data: seq<uint8>): (s: seq<uint8>)
    ensures |s| == (4 + |data|) * |ranges|
    decreases |ranges|
  {
    if ranges == [] then []
    else ToLe(ranges[0].first, 2) + ToLe(ranges[0].last, 2) + data + RangeOctets(ranges[1..], data)
  }

  function RegisterPacket(version: uint32, cmd: uint16, subsys: uint16, port: uint16, data: uint32, ranges: seq<Announced>): Packet
    requires |ranges| < 0x1_0000
  {
    Packet(CMD_REGISTER, Preamble(version, cmd, subsys, |ranges|) + ToLe(port, 2) + RangeOctets(ranges, ToLe(data, 4)))
  }

  function DeregisterPacket(version: uint32, cmd: uint16, subsys: uint16, ranges: seq<Announced>): Packet
    requires |ranges| < 0x1_0000
  {
    Packet(CMD_DEREGISTER, Preamble(version, cmd, subsys, |ranges|) + [] + RangeOctets(ranges, []))
  }

  /** The key ranges that are meant. */
  function KeysOf(cmd: uint16, subsys: uint16, ranges: seq<Announced>): (spans: seq<KeyRange>)
    ensures |spans| == |ranges|
  {
    seq(|ranges|, i requires 0 <= i < |ranges| =>
      KeyRange(EntryKey(cmd, subsys, ranges[i].first), EntryKey(cmd, subsys, ranges[i].last)))
  }

  lemma U16At(a: seq<uint8>, x: uint16, b: seq<uint8>)
    ensures U16(a + ToLe(x, 2) + b, |a|) == x
  {
    Limits();
    LeToLe(x, 2);
    assert (a + ToLe(x, 2) + b)[|a|..|a| + 2] == ToLe(x, 2);
  }

  lemma Regroup(a: seq<uint8>, x: seq<uint8>, y: seq<uint8>, data: seq<uint8>, rest: seq<uint8>)
    ensures var s := a + (x + y + data + rest);
            s == a + x + (y + data + rest) && s == a + x + y + (data + rest) && s == (a + x + y + data) + rest
  {
  }

  lemma Flat(a: seq<uint8>, b: seq<uint8>, c: seq<uint8>, d: seq<uint8>)
    ensures a + b + c + d == a + (b + c + d)
  {
  }

  lemma PreambleFields(version: uint32, cmd: uint16, subsys: uint16, count: uint16, rest: seq<uint8>)
    ensures var body := Preamble(version, cmd, subsys, count) + rest;
            U16(body, 4) == cmd && U16(body, 6) == subsys && U16(body, 8) == count
  {
    var body := Preamble(version, cmd, subsys, count) + rest;
    var a, b, c, d := ToLe(version, 4), ToLe(cmd, 2), ToLe(subsys, 2), ToLe(count, 2);
    Regroup(a, b, c, d, rest);
    ConcatAssociative(a, b + c + d, rest);
    Flat(a, b, c, d);
    U16At(a, cmd, c + d + rest);
    U16At(a + b, subsys, d + rest);
    U16At(a + b + c, count, rest);
  }

  lemma Stride(size: nat, i: nat)
    requires i > 0
    ensures size * i == size + size * (i - 1)
  {
  }

  predicate RangeAt(s: seq<uint8>, offset: nat, r: Announced) {
    offset + 4 <= |s| && U16(s, offset) == r.first && U16(s, offset + 2) == r.last
  }

  lemma {:induction false} RangeFields(a: seq<uint8>, ranges: seq<Announced>, data: seq<uint8>, size: nat, i: nat)
    requires i < |ranges| && size == 4 + |data|
    ensures RangeAt(a + RangeOctets(ranges, data), |a| + size * i, ranges[i])
    decreases i
  {
    var x, y, rest := ToLe(ranges[0].first, 2), ToLe(ranges[0].last, 2), RangeOctets(ranges[1..], data);
    Regroup(a, x, y, data, rest);
    if i == 0 {
      U16At(a, ranges[0].first, y + data + rest);
      U16At(a + x, ranges[0].last, data + rest);
    } else {
      Stride(size, i);
      RangeFields(a + x + y + data, ranges[1..], data, size, i - 1);
    }
  }

  lemma SpansRead(body: seq<uint8>, cmd: uint16, subsys: uint16, ranges: seq<Announced>, start: nat, size: nat)
    requires 10 <= start <= |body| && |ranges| < 0x1_0000 && size >= 4 && |body| == start + size * |ranges|
    requires U16(body, 4) == cmd && U16(body, 6) == subsys && U16(body, 8) == |ranges|
    requires forall i {:trigger ranges[i]} | 0 <= i < |ranges| :: RangeAt(body, start + size * i, ranges[i])
    ensures RangesFit(body, start, size) && Spans(body, start, size) == KeysOf(cmd, subsys, ranges)
  {
    forall i | 0 <= i < |ranges|
      ensures Spans(body, start, size)[i] == KeysOf(cmd, subsys, ranges)[i]
    {
      SpanFits(body, start, size, i);
      assert RangeAt(body, start + size * i, ranges[i]);
    }
  }

  lemma RangesFollow(a: seq<uint8>, ranges: seq<Announced>, data: seq<uint8>, size: nat)
    requires size == 4 + |data|
    ensures var body := a + RangeOctets(ranges, data);
            && |body| == |a| + size * |ranges|
            && forall i {:trigger ranges[i]} | 0 <= i < |ranges| :: RangeAt(body, |a| + size * i, ranges[i])
  {
    forall i {:trigger ranges[i]} | 0 <= i < |ranges|
      ensures RangeAt(a + RangeOctets(ranges, data), |a| + size * i, ranges[i])
    {
      RangeFields(a, ranges, data, size, i);
    }
  }

  lemma BodyRead(version: uint32, cmd: uint16, subsys: uint16, port: seq<uint8>, data: seq<uint8>, ranges: seq<Announced>,
                 start: nat, size: nat)
    requires |ranges| < 0x1_0000 && start == 10 + |port| && size == 4 + |data|
    ensures var body := Preamble(version, cmd, subsys, |ranges|) + port + RangeOctets(ranges, data);
            RangesFit(body, start, size) && Spans(body, start, size) == KeysOf(cmd, subsys, ranges)
  {
    var preamble, octets := Preamble(version, cmd, subsys, |ranges|), RangeOctets(ranges, data);
    PreambleFields(version, cmd, subsys, |ranges|, port + octets);
    ConcatAssociative(preamble, port, octets);
    var a, body := preamble + port, preamble + port + octets;
    RangesFollow(a, ranges, data, size);
    assert |a| == start;
    SpansRead(body, cmd, subsys, ranges, start, size);
  }

  /** The router reads the ranges that a registration announces. */
  lemma RegisterRead(p: nat, version: uint32, cmd: uint16, subsys: uint16, port: uint16, data: uint32, ranges: seq<Announced>)
    requires |ranges| < 0x1_0000
    ensures var packet := RegisterPacket(version, cmd, subsys, port, data, ranges);
            RangesWellFormed([packet]) && EventsOf(p, packet) == Adds(p, KeysOf(cmd, subsys, ranges))
  {
    BodyRead(version, cmd, subsys, ToLe(port, 2), ToLe(data, 4), ranges, REGISTER_RANGES, REGISTER_RANGE);
  }

  lemma DeregisterRead(p: nat, version: uint32, cmd: uint16, subsys: uint16, ranges: seq<Announced>)
    requires |ranges| < 0x1_0000
    ensures var packet := DeregisterPacket(version, cmd, subsys, ranges);
            RangesWellFormed([packet]) && EventsOf(p, packet) == Withdrawals(p, KeysOf(cmd, subsys, ranges))
  {
    BodyRead(version, cmd, subsys, [], [], ranges, DEREGISTER_RANGES, DEREGISTER_RANGE);
  }

  /**
   A registration followed by the withdrawal of the same ranges leaves the
   routing table as it was exactly when the peripheral had none of them registered.
   */
  lemma AnnouncedAndWithdrawn(cmds: seq<Cmd>, p: nat, version: uint32, cmd: uint16, subsys: uint16,
                              port: uint16, data: uint32, ranges: seq<Announced>)
    requires |ranges| < 0x1_0000
    ensures var packets := [RegisterPacket(version, cmd, subsys, port, data, ranges),
                            DeregisterPacket(version, cmd, subsys, ranges)];
            && RangesWellFormed(packets)
            && (Table(cmds, EventsOfAll(p, packets)) == cmds
                <==> forall s | s in KeysOf(cmd, subsys, ranges) :: !Holds(cmds, p, s))
  {
    var a, b := RegisterPacket(version, cmd, subsys, port, data, ranges), DeregisterPacket(version, cmd, subsys, ranges);
    RegisterRead(p, version, cmd, subsys, port, data, ranges);
    DeregisterRead(p, version, cmd, subsys, ranges);
    assert a in [a] && b in [b];
    EventsOfTwo(p, a, b);
    RestoresIffNew(cmds, p, KeysOf(cmd, subsys, ranges));
  }

  lemma EventsOfTwo(p: nat, a: Packet, b: Packet)
    requires RangesWellFormed([a, b])
    ensures EventsOfAll(p, [a, b]) == EventsOf(p, a) + EventsOf(p, b)
  {
    assert [a, b][1..] == [b] && [b][1..] == [];
    assert EventsOfAll(p, []) == [];
    assert EventsOfAll(p, [b]) == EventsOf(p, b) + [];
  }

  // ---------------------------------------------------------------- identifier requests

  lemma U32At(a: seq<uint8>, x: uint32, b: seq<uint8>)
    ensures U32(a + ToLe(x, 4) + b, |a|) == x
  {
    Limits();
    LeToLe(x, 4);
    assert (a + ToLe(x, 4) + b)[|a|..|a| + 4] == ToLe(x, 4);
  }

  /** An identifier request: the name follows the identifier, or a feature mask with its length. */
  function IdBody(version: uint32, id: uint32, mask: Option<seq<uint8>>, name: seq<uint8>): seq<uint8>
    requires mask.Some? ==> |mask.value| < 0x1_0000_0000
  {
    ToLe(version, 4) + ToLe(id, 4) + MaskOctets(mask) + (name + [0])
  }

  function MaskOctets(mask: Option<seq<uint8>>): seq<uint8>
    requires mask.Some? ==> |mask.value| < 0x1_0000_0000
  {
    if mask.Some? then ToLe(|mask.value|, 4) + mask.value else []
  }

  lemma IdNumbers(version: uint32, id: uint32, rest: seq<uint8>)
    ensures var body := ToLe(version, 4) + ToLe(id, 4) + rest;
            U32(body, 0) == version && U32(body, 4) == id
  {
    var a, b := ToLe(version, 4), ToLe(id, 4);
    U32At([], version, b + rest);
    assert [] + a + (b + rest) == a + b + rest;
    U32At(a, id, rest);
  }

  lemma MaskLength(head: seq<uint8>, mask: seq<uint8>, tail: seq<uint8>)
    requires |head| == 8 && |mask| < 0x1_0000_0000
    ensures U32(head + (ToLe(|mask|, 4) + mask) + tail, 8) == |mask|
  {
    var n := ToLe(|mask|, 4);
    U32At(head, |mask|, mask + tail);
    ConcatAssociative(head + n, mask, tail);
    ConcatAssociative(head, n, mask);
  }

  /**
   The router reads version, identifier and name from a request, with or
   without a feature mask, as long as its sender and the router agree that it
   has one: the request has one if and only if the feature was agreed on and
   the version is at least 2.
   */
  lemma IdRequestRead(features: uint32, version: uint32, id: uint32, mask: Option<seq<uint8>>, name: seq<uint8>)
    requires mask.Some? ==> |mask.value| < 0x1_0000_0000
    requires mask.Some? <==> HasBit(features, FEATURE_DIAG_ID_FEATURE_MASK) && version >= 2
    requires 0 !in name
    ensures var body := IdBody(version, id, mask, name);
            && Readable(features, body) && NameStart(features, body) <= |body|
            && RequestOf(features, body).name == name
            && RequestOf(features, body).version == version && RequestOf(features, body).id == id
  {
    var body, start := IdBody(version, id, mask, name), 8 + |MaskOctets(mask)|;
    var head := ToLe(version, 4) + ToLe(id, 4);
    IdNumbers(version, id, MaskOctets(mask) + (name + [0]));
    ConcatAssociative(head, MaskOctets(mask), name + [0]);
    if mask.Some? { MaskLength(head, mask.value, name + [0]); }
    assert NameStart(features, body) == start;
    assert body[start..] == name + [0];
    CStringEnds(name);
  }
}
