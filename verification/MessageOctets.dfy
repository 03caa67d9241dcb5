/**
 The messages on a control channel, octet by octet, in numbers: command,
 length and fields as the structures of router/diag_cntl.c have them.
 */
module MessageOctets {
  import opened Bytes
  import opened LittleEndian
  import opened Layout
  import opened ControlMessages

  function Join(parts: seq<seq<uint8>>): seq<uint8>
    decreases |parts|
  {
    if parts == [] then [] else parts[0] + Join(parts[1..])
  }

  lemma JoinTwo(a: seq<uint8>, b: seq<uint8>)
    ensures Join([a, b]) == a + b
  {
    assert [a, b][1..] == [b] && [b][1..] == [];
    assert Join([b]) == b + [];
  }

  /** The octets of each field. */
  function Parts(fields: seq<Field>): (parts: seq<seq<uint8>>)
    ensures |parts| == |fields|
  {
    seq(|fields|, i requires 0 <= i < |fields| => ToLe(fields[i].value, fields[i].width))
  }

  lemma {:induction false} PackIsJoin(fields: seq<Field>)
    ensures Pack(fields) == Join(Parts(fields))
    decreases |fields|
  {
    if fields != [] {
      PackIsJoin(fields[1..]);
      assert Parts(fields)[1..] == Parts(fields[1..]);
    }
  }

  /** Header, fields and what follows them. */
  function Image(cmd: uint8, length: seq<uint8>, fields: seq<seq<uint8>>, tail: seq<uint8>): seq<uint8> {
    Join([[cmd, 0, 0, 0], length]) + Join(fields) + tail
  }

  lemma OctetsAre(m: Message, cmd: uint8, fields: seq<seq<uint8>>)
    requires CmdOf(m) == cmd && Parts(FieldsOf(m)) == fields
    ensures Octets(m) == Image(cmd, ToLe(LengthOf(m), 4), fields, TailOf(m))
  {
    Four(cmd);
    PackIsJoin(FieldsOf(m));
    JoinTwo([cmd, 0, 0, 0], ToLe(LengthOf(m), 4));
  }

  lemma {:induction false} ZeroOctets(n: nat)
    ensures ToLe(0, n) == seq(n, _ => 0)
    decreases n
  {
    if n > 0 { ZeroOctets(n - 1); }
  }

  /** A number below 256, in one octet. */
  lemma One(x: uint8)
    ensures ToLe(x, 1) == [x]
  {
    assert ToLe(x / 0x100, 0) == [];
  }

  /** A number below 256, in four. */
  lemma Four(x: uint8)
    ensures ToLe(x, 4) == [x, 0, 0, 0]
  {
    ZeroOctets(3);
    assert x / 0x100 == 0 && x % 0x100 == x;
    assert ToLe(x, 4) == [x] + ToLe(0, 3);
  }

  lemma LogMaskOctets(status: uint8, equipId: uint8, numItems: uint32, mask: seq<uint8>)
    ensures Octets(LogMask(status, equipId, numItems, mask))
         == Image(9, ToLe(11 + |mask|, 4), [[1], [status], [equipId], ToLe(numItems, 4), ToLe(|mask|, 4)], mask)
  {
    One(1);
    One(status);
    One(equipId);
    OctetsAre(LogMask(status, equipId, numItems, mask), 9, [[1], [status], [equipId], ToLe(numItems, 4), ToLe(|mask|, 4)]);
  }

  lemma EventMaskOctets(status: uint8, config: uint8, mask: seq<uint8>)
    ensures Octets(EventMask(status, config, mask))
         == Image(10, ToLe(7 + |mask|, 4), [[1], [status], [config], ToLe(|mask|, 4)], mask)
  {
    EventParts(status, config, mask, |mask|);
    OctetsAre(EventMask(status, config, mask), 10, [[1], [status], [config], ToLe(|mask|, 4)]);
  }

  lemma EventParts(status: uint8, config: uint8, mask: seq<uint8>, size: nat)
    requires size == |mask|
    ensures Parts(FieldsOf(EventMask(status, config, mask))) == [[1], [status], [config], ToLe(size, 4)]
  {
    One(1);
    One(status);
    One(config);
  }

  lemma MsgMaskOctets(status: uint8, first: uint16, last: uint16, words: seq<uint32>)
    ensures Octets(MsgMask(status, first, last, words))
         == Image(11, ToLe(11 + 4 * |words|, 4),
                  [[1], [status], [0], ToLe(first, 2), ToLe(last, 2), ToLe(|words|, 4)], PackWords(words))
  {
    One(1);
    One(status);
    One(0);
    OctetsAre(MsgMask(status, first, last, words), 11, [[1], [status], [0], ToLe(first, 2), ToLe(last, 2), ToLe(|words|, 4)]);
  }

  /** Two octets more are sent than the structure has, and counted in its length. */
  lemma FeatureOctets(features: uint32, slack: seq<uint8>)
    ensures Octets(Feature(features, slack)) == Image(8, [10, 0, 0, 0], [[4, 0, 0, 0], ToLe(features, 4)], slack)
  {
    Four(10);
    Four(4);
    OctetsAre(Feature(features, slack), 8, [[4, 0, 0, 0], ToLe(features, 4)]);
  }

  /** Version, sleep vote and real-time mode, which are the same, and six fields of zero. */
  function ModeParts(version: uint8, realTime: bool): seq<seq<uint8>> {
    [[version, 0, 0, 0], [Flag(realTime), 0, 0, 0], [Flag(realTime), 0, 0, 0]] + seq(6, _ => [0, 0, 0, 0])
  }

  lemma ModePartsAre(version: uint8, realTime: bool)
    ensures Parts(ModeFields(version, realTime)) == ModeParts(version, realTime)
  {
    Four(version);
    Four(Flag(realTime));
    Four(0);
  }

  lemma DiagModeOctets(realTime: bool)
    ensures Octets(DiagMode(realTime)) == Image(3, [36, 0, 0, 0], ModeParts(1, realTime), [])
  {
    Four(36);
    ModePartsAre(1, realTime);
    OctetsAre(DiagMode(realTime), 3, ModeParts(1, realTime));
  }

  lemma DiagModeForOctets(realTime: bool, diagId: uint8)
    ensures Octets(DiagModeFor(realTime, diagId)) == Image(3, [37, 0, 0, 0], ModeParts(2, realTime) + [[diagId]], [])
  {
    Four(37);
    ModePartsAre(2, realTime);
    One(diagId);
    assert Parts(FieldsOf(DiagModeFor(realTime, diagId))) == Parts(ModeFields(2, realTime)) + [[diagId]];
    OctetsAre(DiagModeFor(realTime, diagId), 3, ModeParts(2, realTime) + [[diagId]]);
  }

  lemma BufferingOctets(mode: uint8)
    ensures Octets(Buffering(mode)) == Image(17, [6, 0, 0, 0], [[1, 0, 0, 0], [0], [mode]], [])
  {
    Four(6);
    Four(1);
    One(0);
    One(mode);
    OctetsAre(Buffering(mode), 17, [[1, 0, 0, 0], [0], [mode]]);
  }

  lemma BufferingForOctets(mode: uint8, diagId: uint8)
    ensures Octets(BufferingFor(mode, diagId)) == Image(17, [7, 0, 0, 0], [[2, 0, 0, 0], [diagId], [0], [mode]], [])
  {
    Four(7);
    Four(2);
    One(diagId);
    One(0);
    One(mode);
    OctetsAre(BufferingFor(mode, diagId), 17, [[2, 0, 0, 0], [diagId], [0], [mode]]);
  }

  lemma DiagIdOctets(id: uint32, name: seq<uint8>)
    ensures Octets(DiagId(id, name)) == Image(33, ToLe(9 + |name|, 4), [[1, 0, 0, 0], ToLe(id, 4)], name + [0])
  {
    Four(1);
    OctetsAre(DiagId(id, name), 33, [[1, 0, 0, 0], ToLe(id, 4)]);
  }
}
