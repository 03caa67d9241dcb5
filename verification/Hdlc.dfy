/**
 HDLC framing of router/hdlc.c: octet stuffing (RFC 1662, section 4.2) with the
 check sequence of module Crc (section 3.1 of that RFC), and the resumable
 decoder that takes its octets from a ring.
 */
module Hdlc {
  import opened Bytes
  import opened Crc
  import opened CircBuf

  // ---------------------------------------------------------------- encoding

  predicate Special(ch: byte) { ch == 0x7d || ch == 0x7e }

  function StuffOctet(ch: byte): (out: seq<byte>)
    ensures 1 <= |out| <= 2
  {
    if Special(ch) then [0x7d, ch ^ 0x20] else [ch]
  }

  function Stuff(s: seq<byte>): (out: seq<byte>)
    ensures |s| <= |out| <= 2 * |s|
  {
    if s == [] then [] else Stuff(s[..|s| - 1]) + StuffOctet(s[|s| - 1])
  }

  /** A frame on the wire: payload and check sequence, stuffed, closed by a flag. */
  function Encode(msg: seq<byte>): (frame: seq<byte>) {
    Stuff(msg + Fcs(msg)) + [0x7e]
  }

  lemma {:induction false} StuffConcat(a: seq<byte>, b: seq<byte>)
    ensures Stuff(a + b) == Stuff(a) + Stuff(b)
    decreases |b|
  {
    if b == [] {
      assert a + b == a;
    } else {
      var front, last := b[..|b| - 1], StuffOctet(b[|b| - 1]);
      assert (a + b)[..|a + b| - 1] == a + front;
      StuffConcat(a, front);
      ConcatAssociative(Stuff(a), Stuff(front), last);
    }
  }

  /** Writes one octet of a frame, escaped if need be. */
  method PutStuffed(dst: array<byte>, d: nat, ch: byte) returns (next: nat)
    requires d + 2 <= dst.Length
    modifies dst
    ensures d < next <= d + 2 && dst[..next] == old(dst[..d]) + StuffOctet(ch)
  {
    if ch == 0x7d || ch == 0x7e {
      dst[d], dst[d + 1] := 0x7d, ch ^ 0x20;
      next := d + 2;
    } else {
      dst[d] := ch;
      next := d + 1;
    }
  }

  lemma StuffSnoc(s: seq<byte>, i: nat)
    requires i < |s|
    ensures Stuff(s[..i + 1]) == Stuff(s[..i]) + StuffOctet(s[i])
  {
    assert s[..i + 1][..i] == s[..i];
  }

  lemma CrcSnoc(s: seq<byte>, i: nat)
    requires i < |s|
    ensures CrcOf(INITIAL, s[..i + 1]) == CrcByte(CrcOf(INITIAL, s[..i]), s[i])
  {
    assert s[..i + 1][..i] == s[..i];
  }

  /**
   hdlc_encode(): fills a buffer of (slen + 2) * 2 + 1 octets. The buffer is
   never overrun, and what is left in it is the frame of the message.
   */
  method HdlcEncode(src: seq<byte>) returns (dst: array<byte>, dlen: nat)
    ensures fresh(dst) && dst.Length == (|src| + 2) * 2 + 1
    ensures dlen <= dst.Length && dst[..dlen] == Encode(src)
  {
    dst := new byte[(|src| + 2) * 2 + 1];
    var crc: bv16 := 0xffff;
    var d, s := 0, 0;
    while s < |src|
      invariant 0 <= s <= |src| && d <= 2 * s
      invariant crc == CrcOf(INITIAL, src[..s])
      invariant dst[..d] == Stuff(src[..s])
    {
      StuffSnoc(src, s);
      CrcSnoc(src, s);
      crc := CrcByte(crc, src[s]);
      d := PutStuffed(dst, d, src[s]);
      s := s + 1;
    }
    assert src[..|src|] == src;
    d := PutFcs(dst, d, src, FcsOctets(crc));
    dst[d] := 0x7e;
    dlen := d + 1;
  }

  /** The second loop of hdlc_encode(), over the check sequence. */
  method PutFcs(dst: array<byte>, start: nat, src: seq<byte>, tmp: seq<byte>) returns (d: nat)
    requires |tmp| == 2 && start + 5 <= dst.Length && dst[..start] == Stuff(src)
    modifies dst
    ensures d <= start + 4 && dst[..d] == Stuff(src + tmp)
  {
    d := start;
    var i := 0;
    while i < 2
      invariant 0 <= i <= 2 && start <= d <= start + 2 * i
      invariant dst[..d] == Stuff(src) + Stuff(tmp[..i])
    {
      StuffSnoc(tmp, i);
      ConcatAssociative(Stuff(src), Stuff(tmp[..i]), StuffOctet(tmp[i]));
      d := PutStuffed(dst, d, tmp[i]);
      i := i + 1;
    }
    assert tmp[..2] == tmp;
    StuffConcat(src, tmp);
  }

  // ---------------------------------------------------------------- decoding

  /** What hdlc_decoder holds between octets: the raw octets so far and the pending escape. */
  datatype Decoder = Decoder(raw: seq<byte>, escape: byte)

  const FRESH: Decoder := Decoder([], 0)

  datatype Decoded = Decoded(decoder: Decoder, messages: seq<seq<byte>>)

  /** The last two raw octets, the check sequence, are dropped unseen. */
  function Payload(raw: seq<byte>): seq<byte> {
    if |raw| < 2 then [] else raw[..|raw| - 2]
  }

  /** The decoder's reaction to one octet; an empty frame leaves it as it was. */
  function Accept(r: Decoded, ch: byte): Decoded {
    var d := r.decoder;
    if ch == 0x7e then
      if d.raw == [] then r else Decoded(FRESH, r.messages + [Payload(d.raw)])
    else if ch == 0x7d then
      r.(decoder := d.(escape := 0x20))
    else
      r.(decoder := Decoder(d.raw + [ch ^ d.escape], 0))
  }

  /** One pass over a stream of octets. */
  function Decode(d: Decoder, s: seq<byte>): Decoded {
    if s == [] then Decoded(d, []) else Accept(Decode(d, s[..|s| - 1]), s[|s| - 1])
  }

  /**
   The decoder keeps within its buffer on an octet: no frame of a single raw
   octet is closed and none outgrows the buffer.
   */
  predicate OctetFits(d: Decoder, ch: byte) {
    if ch == 0x7e then |d.raw| != 1 else ch == 0x7d || |d.raw| < HDLC_BUF_SIZE
  }

  predicate Safe(d: Decoder, s: seq<byte>) {
    Along(OctetFits, d, s)
  }

  /** Whether an octet does not close an empty frame. */
  predicate NotEmptyFrame(d: Decoder, ch: byte) { ch != 0x7e || d.raw != [] }

  predicate EmptyFrameFree(d: Decoder, s: seq<byte>) {
    Along(NotEmptyFrame, d, s)
  }

  /** Whether ok holds at every octet of a stream. */
  predicate Along(ok: (Decoder, byte) -> bool, d: Decoder, s: seq<byte>) {
    s == [] || (Along(ok, d, s[..|s| - 1]) && ok(Decode(d, s[..|s| - 1]).decoder, s[|s| - 1]))
  }

  /** Chunk independence: decoding continues where it left off. */
  lemma {:induction false} DecodeConcat(d: Decoder, a: seq<byte>, b: seq<byte>)
    ensures Decode(d, a + b) == After(Decode(d, a).messages, Decode(Decode(d, a).decoder, b))
    decreases |b|
  {
    if b == [] {
      assert a + b == a;
    } else {
      var front := b[..|b| - 1];
      assert (a + b)[..|a + b| - 1] == a + front;
      DecodeConcat(d, a, front);
      AcceptAfter(Decode(d, a).messages, Decode(Decode(d, a).decoder, front), b[|b| - 1]);
    }
  }

  function After(earlier: seq<seq<byte>>, r: Decoded): Decoded {
    r.(messages := earlier + r.messages)
  }

  lemma AcceptAfter(earlier: seq<seq<byte>>, r: Decoded, ch: byte)
    ensures Accept(After(earlier, r), ch) == After(earlier, Accept(r, ch))
  {
    if ch == 0x7e && r.decoder.raw != [] {
      assert earlier + r.messages + [Payload(r.decoder.raw)] == earlier + (r.messages + [Payload(r.decoder.raw)]);
    }
  }

  lemma DecodeSnoc(d: Decoder, s: seq<byte>, ch: byte)
    ensures Decode(d, s + [ch]) == Accept(Decode(d, s), ch)
  {
    assert (s + [ch])[..|s|] == s;
  }

  lemma AlongSnoc(ok: (Decoder, byte) -> bool, d: Decoder, s: seq<byte>, ch: byte)
    ensures Along(ok, d, s + [ch]) <==> Along(ok, d, s) && ok(Decode(d, s).decoder, ch)
  {
    assert (s + [ch])[..|s|] == s;
  }

  lemma {:induction false} AlongConcat(ok: (Decoder, byte) -> bool, d: Decoder, a: seq<byte>, b: seq<byte>)
    ensures Along(ok, d, a + b) <==> Along(ok, d, a) && Along(ok, Decode(d, a).decoder, b)
    decreases |b|
  {
    if b == [] {
      assert a + b == a;
    } else {
      var front, last := b[..|b| - 1], b[|b| - 1];
      assert a + b == a + front + [last];
      AlongSnoc(ok, d, a + front, last);
      AlongConcat(ok, d, a, front);
      DecodeConcat(d, a, front);
    }
  }

  // ---------------------------------------------------------------- transparency and size

  /** No flag, and every escape octet introduces one of the two escaped values. */
  ghost predicate Transparent(s: seq<byte>) {
    forall i | 0 <= i < |s| ::
      s[i] != 0x7e && (s[i] == 0x7d ==> i + 1 < |s| && (s[i + 1] == 0x5d || s[i + 1] == 0x5e))
  }

  lemma {:induction false} StuffTransparent(s: seq<byte>)
    ensures Transparent(Stuff(s))
    decreases |s|
  {
    if s != [] {
      StuffTransparent(s[..|s| - 1]);
      var front, last := Stuff(s[..|s| - 1]), StuffOctet(s[|s| - 1]);
      assert Transparent(last);
      forall i | 0 <= i < |front + last|
        ensures (front + last)[i] != 0x7e
        ensures (front + last)[i] == 0x7d ==>
                i + 1 < |front + last| && ((front + last)[i + 1] == 0x5d || (front + last)[i + 1] == 0x5e)
      {
        if i < |front| {
          assert (front + last)[i] == front[i];
        } else {
          assert (front + last)[i] == last[i - |front|];
        }
      }
    }
  }

  function CountSpecial(s: seq<byte>): nat {
    if s == [] then 0 else CountSpecial(s[..|s| - 1]) + (if Special(s[|s| - 1]) then 1 else 0)
  }

  lemma {:induction false} StuffLength(s: seq<byte>)
    ensures |Stuff(s)| == |s| + CountSpecial(s)
    decreases |s|
  {
    if s != [] {
      StuffLength(s[..|s| - 1]);
    }
  }

  /** A frame holds exactly one flag, its last octet; everything before it is transparent. */
  lemma FrameShape(msg: seq<byte>)
    ensures Encode(msg)[|Encode(msg)| - 1] == 0x7e
    ensures Transparent(Encode(msg)[..|Encode(msg)| - 1])
    ensures |Encode(msg)| == |msg| + 3 + CountSpecial(msg + Fcs(msg)) <= (|msg| + 2) * 2 + 1
  {
    StuffTransparent(msg + Fcs(msg));
    StuffLength(msg + Fcs(msg));
  }

  // ---------------------------------------------------------------- round trip

  lemma {:induction false} DecodeStuffed(raw: seq<byte>, s: seq<byte>)
    ensures Decode(Decoder(raw, 0), Stuff(s)) == Decoded(Decoder(raw + s, 0), [])
    decreases |s|
  {
    if s == [] {
      assert raw + s == raw;
    } else {
      var front, last := s[..|s| - 1], s[|s| - 1];
      DecodeStuffed(raw, front);
      DecodeStuffedOctet(Decoder(raw, 0), Stuff(front), raw + front, last);
      SnocAssociative(raw, s);
    }
  }

  lemma SnocAssociative(raw: seq<byte>, s: seq<byte>)
    requires s != []
    ensures raw + s[..|s| - 1] + [s[|s| - 1]] == raw + s
  {
  }

  lemma DecodeStuffedOctet(d: Decoder, s: seq<byte>, raw: seq<byte>, ch: byte)
    requires Decode(d, s) == Decoded(Decoder(raw, 0), [])
    ensures Decode(d, s + StuffOctet(ch)) == Decoded(Decoder(raw + [ch], 0), [])
  {
    if Special(ch) {
      UnescapeEscaped(ch);
      DecodeSnoc(d, s, 0x7d);
      DecodeSnoc(d, s + [0x7d], ch ^ 0x20);
      assert s + [0x7d, ch ^ 0x20] == s + [0x7d] + [ch ^ 0x20];
    } else {
      UnescapePlain(ch);
      DecodeSnoc(d, s, ch);
    }
  }

  lemma UnescapeEscaped(ch: byte)
    requires Special(ch)
    ensures ch ^ 0x20 ^ 0x20 == ch && !Special(ch ^ 0x20)
  {
  }

  lemma UnescapePlain(ch: byte)
    ensures ch ^ 0 == ch
  {
  }

  /**
   Whatever two octets close a frame, the decoder hands out what precedes
   them: hdlc_decode_one() never looks at the check sequence.
   */
  lemma DecodeFrame(raw: seq<byte>)
    requires |raw| >= 2
    ensures Decode(FRESH, Stuff(raw) + [0x7e]) == Decoded(FRESH, [raw[..|raw| - 2]])
  {
    DecodeStuffed([], raw);
    assert [] + raw == raw;
    DecodeSnoc(FRESH, Stuff(raw), 0x7e);
    AcceptFlag(raw);
  }

  lemma AcceptFlag(raw: seq<byte>)
    requires |raw| >= 2
    ensures Accept(Decoded(Decoder(raw, 0), []), 0x7e) == Decoded(FRESH, [raw[..|raw| - 2]])
  {
    assert [] + [Payload(raw)] == [Payload(raw)];
  }

  lemma DecodeEncode(msg: seq<byte>)
    ensures Decode(FRESH, Encode(msg)) == Decoded(FRESH, [msg])
  {
    DecodeFrame(msg + Fcs(msg));
    assert (msg + Fcs(msg))[..|msg|] == msg;
  }

  /** What a frame carries before its flag: the payload, and two octets with which it leaves the residue. */
  lemma FrameCarries(msg: seq<byte>)
    ensures var raw := Decode(FRESH, Encode(msg)[..|Encode(msg)| - 1]).decoder.raw;
            |raw| == |msg| + 2 && raw[..|msg|] == msg && CrcOf(INITIAL, raw) == RESIDUE
  {
    var all := msg + Fcs(msg);
    DecodeStuffed([], all);
    assert Encode(msg)[..|Encode(msg)| - 1] == Stuff(all);
    assert [] + all == all;
    GoodFrame(msg);
  }

  lemma EncodeInjective(a: seq<byte>, b: seq<byte>)
    requires Encode(a) == Encode(b)
    ensures a == b
  {
    DecodeEncode(a);
    DecodeEncode(b);
    assert [a][0] == [b][0];
  }

  function Flatten(frames: seq<seq<byte>>): seq<byte> {
    if frames == [] then [] else Flatten(frames[..|frames| - 1]) + frames[|frames| - 1]
  }

  function Frames(msgs: seq<seq<byte>>): (frames: seq<seq<byte>>)
    ensures |frames| == |msgs| && forall i | 0 <= i < |msgs| :: frames[i] == Encode(msgs[i])
  {
    seq(|msgs|, i requires 0 <= i < |msgs| => Encode(msgs[i]))
  }

  /** The wire image of a sequence of messages. */
  function EncodeAll(msgs: seq<seq<byte>>): seq<byte> {
    Flatten(Frames(msgs))
  }

  /** Frames that each decode to one message and leave the decoder fresh. */
  ghost predicate Carry(frames: seq<seq<byte>>, msgs: seq<seq<byte>>) {
    |frames| == |msgs| && forall i | 0 <= i < |frames| :: Decode(FRESH, frames[i]) == Decoded(FRESH, [msgs[i]])
  }

  lemma {:induction false} DecodeFlatten(frames: seq<seq<byte>>, msgs: seq<seq<byte>>)
    requires Carry(frames, msgs)
    ensures Decode(FRESH, Flatten(frames)) == Decoded(FRESH, msgs)
    decreases |frames|
  {
    if frames != [] {
      var n := |frames| - 1;
      DecodeFlatten(frames[..n], msgs[..n]);
      AppendFrame(Flatten(frames[..n]), msgs[..n], frames[n], msgs[n]);
      assert msgs[..n] + [msgs[n]] == msgs;
    }
  }

  lemma AppendFrame(s: seq<byte>, earlier: seq<seq<byte>>, frame: seq<byte>, msg: seq<byte>)
    requires Decode(FRESH, s) == Decoded(FRESH, earlier) && Decode(FRESH, frame) == Decoded(FRESH, [msg])
    ensures Decode(FRESH, s + frame) == Decoded(FRESH, earlier + [msg])
  {
    DecodeConcat(FRESH, s, frame);
  }

  predicate AllAlong(ok: (Decoder, byte) -> bool, frames: seq<seq<byte>>) {
    forall i | 0 <= i < |frames| :: Along(ok, FRESH, frames[i])
  }

  lemma AllAlongSnoc(ok: (Decoder, byte) -> bool, frames: seq<seq<byte>>)
    requires frames != []
    ensures AllAlong(ok, frames) <==>
            AllAlong(ok, frames[..|frames| - 1]) && Along(ok, FRESH, frames[|frames| - 1])
  {
    assert forall i | 0 <= i < |frames| - 1 :: frames[..|frames| - 1][i] == frames[i];
  }

  lemma {:induction false} AlongFlatten(ok: (Decoder, byte) -> bool, frames: seq<seq<byte>>, msgs: seq<seq<byte>>)
    requires Carry(frames, msgs)
    ensures Along(ok, FRESH, Flatten(frames)) <==> AllAlong(ok, frames)
    decreases |frames|
  {
    if frames != [] {
      var n := |frames| - 1;
      AllAlongSnoc(ok, frames);
      AlongFlatten(ok, frames[..n], msgs[..n]);
      DecodeFlatten(frames[..n], msgs[..n]);
      AlongConcat(ok, FRESH, Flatten(frames[..n]), frames[n]);
    }
  }

  lemma FramesCarry(msgs: seq<seq<byte>>)
    ensures Carry(Frames(msgs), msgs)
  {
    forall i | 0 <= i < |msgs| ensures Decode(FRESH, Frames(msgs)[i]) == Decoded(FRESH, [msgs[i]]) {
      DecodeEncode(msgs[i]);
    }
  }

  lemma DecodeEncodeAll(msgs: seq<seq<byte>>)
    ensures Decode(FRESH, EncodeAll(msgs)) == Decoded(FRESH, msgs)
  {
    FramesCarry(msgs);
    DecodeFlatten(Frames(msgs), msgs);
  }

  /** Octets already consumed determine the messages so far; later octets only add to them. */
  lemma DecodeMonotone(d: Decoder, a: seq<byte>, b: seq<byte>)
    ensures Decode(d, a).messages <= Decode(d, a + b).messages
  {
    DecodeConcat(d, a, b);
  }

  // ---------------------------------------------------------------- the decoder's buffer

  lemma {:induction false} SafeStuffed(raw: seq<byte>, s: seq<byte>)
    ensures Safe(Decoder(raw, 0), Stuff(s)) <==> s == [] || |raw| + |s| <= HDLC_BUF_SIZE
    decreases |s|
  {
    if s != [] {
      var front, last := s[..|s| - 1], s[|s| - 1];
      SafeStuffed(raw, front);
      DecodeStuffed(raw, front);
      SafeStuffedOctet(Decoder(raw, 0), Stuff(front), raw + front, last);
    }
  }

  lemma SafeStuffedOctet(d: Decoder, s: seq<byte>, raw: seq<byte>, ch: byte)
    requires Decode(d, s) == Decoded(Decoder(raw, 0), [])
    ensures Safe(d, s + StuffOctet(ch)) <==> Safe(d, s) && |raw| < HDLC_BUF_SIZE
  {
    if Special(ch) {
      UnescapeEscaped(ch);
      DecodeSnoc(d, s, 0x7d);
      AlongSnoc(OctetFits, d, s, 0x7d);
      AlongSnoc(OctetFits, d, s + [0x7d], ch ^ 0x20);
      assert s + [0x7d, ch ^ 0x20] == s + [0x7d] + [ch ^ 0x20];
    } else {
      AlongSnoc(OctetFits, d, s, ch);
    }
  }

  lemma SafeFrame(msg: seq<byte>)
    ensures Safe(FRESH, Encode(msg)) <==> |msg| + 2 <= HDLC_BUF_SIZE
  {
    var body := msg + Fcs(msg);
    SafeStuffed([], body);
    DecodeStuffed([], body);
    AlongSnoc(OctetFits, FRESH, Stuff(body), 0x7e);
  }

  /** Every payload and its check sequence fit the decoder's buffer. */
  predicate AllFit(msgs: seq<seq<byte>>) {
    forall i | 0 <= i < |msgs| :: |msgs[i]| + 2 <= HDLC_BUF_SIZE
  }

  /** A stream of frames stays within the decoder's buffer exactly when all of its messages fit. */
  lemma SafeEncodeAll(msgs: seq<seq<byte>>)
    ensures Safe(FRESH, EncodeAll(msgs)) <==> AllFit(msgs)
  {
    FramesCarry(msgs);
    AlongFlatten(OctetFits, Frames(msgs), msgs);
    forall i | 0 <= i < |msgs| ensures Safe(FRESH, Frames(msgs)[i]) <==> |msgs[i]| + 2 <= HDLC_BUF_SIZE {
      SafeFrame(msgs[i]);
    }
  }

  lemma {:induction false} StuffedEmptyFrameFree(raw: seq<byte>, s: seq<byte>, k: nat)
    requires k <= |Stuff(s)|
    ensures EmptyFrameFree(Decoder(raw, 0), Stuff(s)[..k])
    decreases k
  {
    StuffTransparent(s);
    if k > 0 {
      StuffedEmptyFrameFree(raw, s, k - 1);
      assert Stuff(s)[..k] == Stuff(s)[..k - 1] + [Stuff(s)[k - 1]];
      AlongSnoc(NotEmptyFrame, Decoder(raw, 0), Stuff(s)[..k - 1], Stuff(s)[k - 1]);
    }
  }

  lemma FrameEmptyFrameFree(msg: seq<byte>)
    ensures EmptyFrameFree(FRESH, Encode(msg))
  {
    var body := msg + Fcs(msg);
    StuffedEmptyFrameFree([], body, |Stuff(body)|);
    assert Stuff(body)[..|Stuff(body)|] == Stuff(body);
    DecodeStuffed([], body);
    AlongSnoc(NotEmptyFrame, FRESH, Stuff(body), 0x7e);
  }

  /** An encoder never produces an empty frame. */
  lemma EncodeAllEmptyFrameFree(msgs: seq<seq<byte>>)
    ensures EmptyFrameFree(FRESH, EncodeAll(msgs))
  {
    FramesCarry(msgs);
    AlongFlatten(NotEmptyFrame, Frames(msgs), msgs);
    forall i | 0 <= i < |msgs| ensures Along(NotEmptyFrame, FRESH, Frames(msgs)[i]) {
      FrameEmptyFrameFree(msgs[i]);
    }
  }

  /**
   However much of a stream of frames has been consumed, the messages so far
   are the first of those sent; once it is all consumed they are those sent.
   */
  lemma StreamRoundTrip(msgs: seq<seq<byte>>, consumed: seq<byte>, rest: seq<byte>)
    requires consumed + rest == EncodeAll(msgs)
    ensures Decode(FRESH, consumed).messages <= msgs
    ensures rest == [] ==> Decode(FRESH, consumed) == Decoded(FRESH, msgs)
    ensures EmptyFrameFree(FRESH, consumed)
    ensures AllFit(msgs) ==> Safe(FRESH, consumed)
  {
    DecodeEncodeAll(msgs);
    DecodeMonotone(FRESH, consumed, rest);
    EncodeAllEmptyFrameFree(msgs);
    AlongConcat(NotEmptyFrame, FRESH, consumed, rest);
    SafeEncodeAll(msgs);
    AlongConcat(OctetFits, FRESH, consumed, rest);
    if rest == [] {
      assert consumed + rest == consumed;
    }
  }

  // ---------------------------------------------------------------- starting over with a fresh decoder

  /** A flag leaves the decoder fresh unless it closes an empty frame with an escape pending. */
  lemma FlagResets(r: Decoded)
    ensures Accept(r, 0x7e).decoder == FRESH <==> r.decoder.raw != [] || r.decoder.escape == 0
  {
  }

  /** Four plain octets and a flag. */
  const PROBE: seq<byte> := [0x41, 0x42, 0x43, 0x44, 0x7e]

  lemma DecodePlain(d: Decoder, s: seq<byte>, raw: seq<byte>, ch: byte)
    requires Decode(d, s) == Decoded(Decoder(raw, 0), []) && !Special(ch)
    ensures Decode(d, s + [ch]) == Decoded(Decoder(raw + [ch], 0), [])
  {
    DecodeSnoc(d, s, ch);
    UnescapePlain(ch);
  }

  /** Three more plain octets and a flag: all but the last two are handed out. */
  lemma DecodeRest(d: Decoder, s: seq<byte>, raw: seq<byte>)
    requires Decode(d, s) == Decoded(Decoder(raw, 0), [])
    ensures Decode(d, s + PROBE[1..]) == Decoded(FRESH, [raw + [0x42]])
  {
    DecodePlain(d, s, raw, 0x42);
    DecodePlain(d, s + [0x42], raw + [0x42], 0x43);
    DecodePlain(d, s + [0x42] + [0x43], raw + [0x42] + [0x43], 0x44);
    DecodeSnoc(d, s + [0x42] + [0x43] + [0x44], 0x7e);
    AcceptFlag(raw + [0x42] + [0x43] + [0x44]);
    assert (raw + [0x42] + [0x43] + [0x44])[..|raw| + 1] == raw + [0x42];
    assert s + PROBE[1..] == s + [0x42] + [0x43] + [0x44] + [0x7e];
  }

  lemma DecodeFirst(d: Decoder)
    ensures Decode(d, [0x41]) == Decoded(Decoder(d.raw + [0x41 ^ d.escape], 0), [])
  {
    DecodeSnoc(d, [], 0x41);
    assert [] + [0x41] == [0x41];
  }

  lemma DecodeProbe(d: Decoder)
    ensures Decode(d, PROBE).messages == [d.raw + [0x41 ^ d.escape] + [0x42]]
  {
    DecodeFirst(d);
    DecodeRest(d, [0x41], d.raw + [0x41 ^ d.escape]);
    assert [0x41] + PROBE[1..] == PROBE;
  }

  /**
   Replacing the decoder by a fresh one goes unnoticed, whatever follows, only
   if it was fresh already; PROBE tells every other decoder apart.
   */
  lemma FreshOrNoticed(d: Decoder)
    ensures Decode(d, PROBE).messages == Decode(FRESH, PROBE).messages <==> d == FRESH
  {
    DecodeProbe(d);
    DecodeProbe(FRESH);
    if Decode(d, PROBE).messages == Decode(FRESH, PROBE).messages {
      var m := d.raw + [0x41 ^ d.escape] + [0x42];
      assert m == [m][0] == [[] + [0x41 ^ FRESH.escape] + [0x42]][0];
      assert |m| == |d.raw| + 2 && |m| == 2;
      assert m[0] == 0x41 ^ d.escape && m[0] == 0x41 ^ 0;
      XorZero(d.escape);
    }
  }

  lemma XorZero(escape: byte)
    ensures 0x41 ^ escape == 0x41 ^ 0 <==> escape == 0
  {
  }

  /**
   Decoding two stretches of a stream with a fresh decoder each gives what one
   decoder gives, whatever the second stretch, exactly when the first leaves
   the decoder fresh.
   */
  lemma FreshPerStretch(a: seq<byte>)
    ensures Decode(FRESH, a).decoder == FRESH <==>
            forall b :: Decode(FRESH, a).messages + Decode(FRESH, b).messages == Decode(FRESH, a + b).messages
  {
    var d := Decode(FRESH, a).decoder;
    forall b ensures Decode(FRESH, a + b).messages == Decode(FRESH, a).messages + Decode(d, b).messages {
      DecodeConcat(FRESH, a, b);
    }
    FreshOrNoticed(d);
    if d != FRESH {
      var earlier, x, y := Decode(FRESH, a).messages, Decode(FRESH, PROBE).messages, Decode(d, PROBE).messages;
      assert (earlier + x)[|earlier|..] == x && (earlier + y)[|earlier|..] == y;
    }
  }

  /** The octets after which the decoder is fresh: a flag that completes a frame or follows no escape. */
  lemma FreshExactly(a: seq<byte>)
    requires a != []
    ensures var before := Decode(FRESH, a[..|a| - 1]).decoder;
            Decode(FRESH, a).decoder == FRESH <==>
            a[|a| - 1] == 0x7e && (before.raw != [] || before.escape == 0)
  {
    FlagResets(Decode(FRESH, a[..|a| - 1]));
  }

  /**
   An escape before an empty frame survives it: the octet that follows the
   flag is changed, where section 4.3 of RFC 1662 has the pair abort a frame.
   */
  lemma EscapeSurvivesEmptyFrame()
    ensures Decode(FRESH, [0x7d, 0x7e] + PROBE).messages == [[0x61, 0x42]]
  {
    DecodeEscapeFlag();
    DecodeConcat(FRESH, [0x7d, 0x7e], PROBE);
    DecodeProbe(Decoder([], 0x20));
    ProbeEscaped();
  }

  lemma DecodeEscapeFlag()
    ensures Decode(FRESH, [0x7d, 0x7e]) == Decoded(Decoder([], 0x20), [])
  {
    var escape, both: seq<byte> := [0x7d], [0x7d, 0x7e];
    assert both[..1] == escape && escape[..0] == [];
    assert Decode(FRESH, escape) == Accept(Decoded(FRESH, []), 0x7d);
    assert Decode(FRESH, both) == Accept(Decode(FRESH, escape), 0x7e);
  }

  lemma ProbeEscaped()
    ensures var out: seq<byte> := [] + [0x41 ^ 0x20] + [0x42];
            out == [0x61, 0x42] && [] + [out] == [out]
  {
  }
}
