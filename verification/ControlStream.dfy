/**
 The control stream between the router and a peripheral: packets of a 32-bit
 command, a 32-bit length and as many octets of body
 (router/diag_cntl.c, struct diag_cntl_hdr and diag_cntl_recv).
 */
module ControlStream {
  import opened Bytes
  import opened LittleEndian

  const HEADER: nat := 8

  datatype Packet = Packet(cmd: uint32, body: seq<uint8>)

  predicate Sized(p: Packet) { |p.body| < 0x1_0000_0000 }

  function Serialize(p: Packet): (s: seq<uint8>)
    ensures |s| == HEADER + |p.body|
  {
    ToLe(p.cmd, 4) + ToLe(|p.body|, 4) + p.body
  }

  function SerializeAll(ps: seq<Packet>): seq<uint8>
    decreases |ps|
  {
    if ps == [] then [] else Serialize(ps[0]) + SerializeAll(ps[1..])
  }

  /** The length field of the header that opens a buffer. */
  function BodyLength(buf: seq<uint8>): nat
    requires |buf| >= HEADER
  {
    Le(buf[4..8])
  }

  /** A buffer that opens with a whole packet. */
  predicate Complete(buf: seq<uint8>) {
    |buf| >= HEADER && HEADER + BodyLength(buf) <= |buf|
  }

  function Head(buf: seq<uint8>): (p: Packet)
    requires Complete(buf)
    ensures HEADER + |p.body| <= |buf|
  {
    ToLeLe(buf[..4]); Limits();
    Packet(Le(buf[..4]), buf[HEADER..HEADER + BodyLength(buf)])
  }

  /** The packets that a walk over a buffer finds. */
  function Split(buf: seq<uint8>): seq<Packet>
    decreases |buf|
  {
    if Complete(buf) then [Head(buf)] + Split(buf[HEADER + BodyLength(buf)..]) else []
  }

  /** What the walk leaves at the end. */
  function Remainder(buf: seq<uint8>): (rest: seq<uint8>)
    ensures !Complete(rest)
    decreases |buf|
  {
    if Complete(buf) then Remainder(buf[HEADER + BodyLength(buf)..]) else buf
  }

  // ---------------------------------------------------------------- the walk is exact

  lemma HeadSerialize(p: Packet, tail: seq<uint8>)
    requires Sized(p)
    ensures var buf := Serialize(p) + tail;
            Complete(buf) && Head(buf) == p && buf[HEADER + BodyLength(buf)..] == tail
  {
    Limits();
    LeToLe(p.cmd, 4);
    LeToLe(|p.body|, 4);
    var buf := Serialize(p) + tail;
    assert buf[..4] == ToLe(p.cmd, 4);
    assert buf[4..8] == ToLe(|p.body|, 4);
    assert buf[8..8 + |p.body|] == p.body;
  }

  lemma CutInFour(buf: seq<uint8>, n: nat)
    requires 8 + n <= |buf|
    ensures buf == buf[..4] + buf[4..8] + buf[8..8 + n] + buf[8 + n..]
  {
  }

  lemma SerializeHead(buf: seq<uint8>)
    requires Complete(buf)
    ensures Sized(Head(buf)) && buf == Serialize(Head(buf)) + buf[HEADER + BodyLength(buf)..]
  {
    Limits();
    ToLeLe(buf[..4]);
    ToLeLe(buf[4..8]);
    CutInFour(buf, BodyLength(buf));
  }

  lemma SplitStep(p: Packet, tail: seq<uint8>)
    requires Sized(p)
    ensures Split(Serialize(p) + tail) == [p] + Split(tail) && Remainder(Serialize(p) + tail) == Remainder(tail)
  {
    HeadSerialize(p, tail);
  }

  predicate AllSized(ps: seq<Packet>) { forall p | p in ps :: Sized(p) }

  /** Any concatenation of packets, with less than a packet after it, splits into exactly those packets. */
  lemma {:induction false} SplitSerializeAll(ps: seq<Packet>, tail: seq<uint8>)
    requires AllSized(ps) && !Complete(tail)
    ensures Split(SerializeAll(ps) + tail) == ps && Remainder(SerializeAll(ps) + tail) == tail
    decreases |ps|
  {
    if ps == [] {
      assert SerializeAll(ps) + tail == tail;
    } else {
      var more := SerializeAll(ps[1..]) + tail;
      ConcatAssociative(Serialize(ps[0]), SerializeAll(ps[1..]), tail);
      SplitStep(ps[0], more);
      SplitSerializeAll(ps[1..], tail);
      assert ps == [ps[0]] + ps[1..];
    }
  }

  /** The converse: whatever a buffer holds, the walk accounts for every octet of it. */
  lemma {:induction false} SerializeAllSplit(buf: seq<uint8>)
    ensures AllSized(Split(buf)) && buf == SerializeAll(Split(buf)) + Remainder(buf)
    decreases |buf|
  {
    if Complete(buf) {
      var rest := buf[HEADER + BodyLength(buf)..];
      SerializeHead(buf);
      SerializeAllSplit(rest);
      assert Split(buf)[1..] == Split(rest);
      ConcatAssociative(Serialize(Head(buf)), SerializeAll(Split(rest)), Remainder(rest));
    } else {
      assert buf == [] + buf;
    }
  }

  /** A stream of packets cut at k octets yields the packets that end by then, and no others. */
  function WholeBy(ps: seq<Packet>, k: nat): (n: nat)
    ensures n <= |ps|
    decreases |ps|
  {
    if ps == [] || k < HEADER + |ps[0].body| then 0 else 1 + WholeBy(ps[1..], k - HEADER - |ps[0].body|)
  }

  function Size(ps: seq<Packet>): nat
    decreases |ps|
  {
    if ps == [] then 0 else HEADER + |ps[0].body| + Size(ps[1..])
  }

  lemma {:induction false} SizeIsLength(ps: seq<Packet>)
    ensures |SerializeAll(ps)| == Size(ps)
    decreases |ps|
  {
    if ps != [] { SizeIsLength(ps[1..]); }
  }

  lemma {:induction false} WholeBySize(ps: seq<Packet>, k: nat)
    ensures var n := WholeBy(ps, k);
            Size(ps[..n]) <= k && (n < |ps| ==> k < Size(ps[..n + 1]))
    decreases |ps|
  {
    if ps != [] && k >= HEADER + |ps[0].body| {
      var j := k - HEADER - |ps[0].body|;
      WholeBySize(ps[1..], j);
      var n := WholeBy(ps[1..], j);
      PrefixCons(ps, n);
      if n + 1 < |ps| { PrefixCons(ps, n + 1); }
    }
  }

  /** In octets: the first packets that end within k are as many as that. */
  lemma WholeByExact(ps: seq<Packet>, k: nat)
    ensures var n := WholeBy(ps, k);
            |SerializeAll(ps[..n])| <= k && (n < |ps| ==> k < |SerializeAll(ps[..n + 1])|)
  {
    var n := WholeBy(ps, k);
    WholeBySize(ps, k);
    SizeIsLength(ps[..n]);
    if n < |ps| { SizeIsLength(ps[..n + 1]); }
  }

  lemma {:induction false} SplitTruncated(ps: seq<Packet>, k: nat)
    requires AllSized(ps) && k <= |SerializeAll(ps)|
    ensures Split(SerializeAll(ps)[..k]) == ps[..WholeBy(ps, k)]
    decreases |ps|
  {
    var cut := SerializeAll(ps)[..k];
    if ps == [] {
    } else if k < HEADER + |ps[0].body| {
      CutShort(ps[0], SerializeAll(ps[1..]), k);
    } else {
      var j := k - HEADER - |ps[0].body|;
      var more := SerializeAll(ps[1..])[..j];
      CutLater(Serialize(ps[0]), SerializeAll(ps[1..]), j);
      SplitStep(ps[0], more);
      SplitTruncated(ps[1..], j);
      PrefixCons(ps, WholeBy(ps[1..], j));
    }
  }

  lemma CutLater(a: seq<uint8>, b: seq<uint8>, j: nat)
    requires j <= |b|
    ensures (a + b)[..|a| + j] == a + b[..j]
  {
  }

  lemma PrefixCons(ps: seq<Packet>, n: nat)
    requires n < |ps|
    ensures ps[..n + 1] == [ps[0]] + ps[1..][..n]
  {
  }

  lemma CutShort(p: Packet, tail: seq<uint8>, k: nat)
    requires Sized(p) && k < HEADER + |p.body|
    ensures !Complete((Serialize(p) + tail)[..k])
  {
    var buf := Serialize(p) + tail;
    HeadSerialize(p, tail);
    if k >= HEADER {
      assert buf[..k][4..8] == buf[4..8];
      assert buf[4..8] == ToLe(|p.body|, 4);
      Limits();
      LeToLe(|p.body|, 4);
    }
  }
}
