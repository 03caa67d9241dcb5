/**
 The decoder object and the two loops that drive it: the peripheral side of
 router/peripheral-rpmsg.c keeps one decoder for the life of the channel, the
 client side of router/dm.c starts a fresh one on every call.
 */
module Receive {
  import opened Bytes
  import opened CircBuf
  import opened Hdlc

  /** The number of octets up to and including the first flag, or of all octets if there is none. */
  function FrameEnd(q: seq<byte>): (n: nat)
    ensures n <= |q| && (q != [] ==> n > 0)
    ensures forall i | 0 <= i < n - 1 :: q[i] != 0x7e
    ensures n < |q| ==> q[n - 1] == 0x7e
  {
    if q == [] then 0 else if q[0] == 0x7e then 1 else 1 + FrameEnd(q[1..])
  }

  /** The decoder after an octet that is not a flag. */
  function Next(d: Decoder, ch: byte): Decoder {
    if ch == 0x7d then d.(escape := 0x20) else Decoder(d.raw + [ch ^ d.escape], 0)
  }

  lemma AcceptNext(r: Decoded, ch: byte)
    requires ch != 0x7e
    ensures Accept(r, ch) == r.(decoder := Next(r.decoder, ch))
  {
  }

  lemma SafeAt(d: Decoder, s: seq<byte>, k: nat)
    requires Safe(d, s) && k < |s|
    ensures Safe(d, s[..k]) && OctetFits(Decode(d, s[..k]).decoder, s[k])
  {
    assert s == s[..k + 1] + s[k + 1..];
    AlongConcat(OctetFits, d, s[..k + 1], s[k + 1..]);
    assert s[..k + 1] == s[..k] + [s[k]];
    AlongSnoc(OctetFits, d, s[..k], s[k]);
  }

  lemma DecodeAt(d: Decoder, s: seq<byte>, k: nat)
    requires k < |s|
    ensures Decode(d, s[..k + 1]) == Accept(Decode(d, s[..k]), s[k])
  {
    assert s[..k + 1] == s[..k] + [s[k]];
    DecodeSnoc(d, s[..k], s[k]);
  }

  /** k octets into a queue whose first frame is safe, and no flag yet. */
  ghost predicate Scanning(start: Decoder, queue: seq<byte>, k: nat, rest: seq<byte>, d: Decoder) {
    && k <= |queue| && rest == queue[k..]
    && (forall i | 0 <= i < k :: queue[i] != 0x7e)
    && Decode(start, queue[..k]) == Decoded(d, [])
  }

  /** One turn of the decoding loop. */
  lemma ScanTurn(start: Decoder, queue: seq<byte>, frame: seq<byte>, k: nat, rest: seq<byte>, d: Decoder)
    requires frame == queue[..FrameEnd(queue)] && Safe(start, frame)
    requires Scanning(start, queue, k, rest, d) && rest != []
    ensures OctetFits(d, rest[0])
    ensures if rest[0] == 0x7e
            then FrameEnd(queue) == k + 1 && Decode(start, frame) == Accept(Decoded(d, []), 0x7e)
            else Scanning(start, queue, k + 1, rest[1..], Next(d, rest[0]))
  {
    var end := FrameEnd(queue);
    assert rest[0] == queue[k] && k < end;
    SafeAt(start, frame, k);
    assert frame[..k] == queue[..k];
    DecodeAt(start, queue, k);
    if queue[k] == 0x7e {
      assert end == k + 1;
    } else {
      AcceptNext(Decoded(d, []), queue[k]);
    }
  }

  class HdlcDecoder {
    const rawBuf: array<byte>
    /** The write position, or None before the first call. */
    var raw: Option<nat>
    var escape: byte

    ghost predicate Valid()
      reads this
    {
      rawBuf.Length == HDLC_BUF_SIZE && (raw.Some? ==> raw.value <= HDLC_BUF_SIZE)
    }

    function Pos(): nat
      reads this
    {
      if raw.Some? then raw.value else 0
    }

    ghost function View(): Decoder
      requires Valid()
      reads this, rawBuf
    {
      Decoder(rawBuf[..Pos()], escape)
    }

    constructor ()
      ensures Valid() && View() == FRESH && fresh(rawBuf)
    {
      rawBuf := new byte[HDLC_BUF_SIZE];
      raw := None;
      escape := 0;
    }

    /** Stores one unescaped octet. */
    method Store(plain: byte)
      requires Valid() && Pos() < HDLC_BUF_SIZE
      modifies this, rawBuf
      ensures Valid() && View() == Decoder(old(View().raw) + [plain], 0)
    {
      var pos := Pos();
      rawBuf[pos] := plain;
      raw := Some(pos + 1);
      escape := 0;
    }

    /** The two branches of the decoding loop for octets other than a flag. */
    method Put(ch: byte)
      requires Valid() && ch != 0x7e && OctetFits(View(), ch)
      modifies this, rawBuf
      ensures Valid() && View() == Next(old(View()), ch)
    {
      if ch == 0x7d {
        escape := 0x20;
      } else {
        Store(ch ^ escape);
      }
    }

    /** The message handed out with a result of DecodeOne. */
    ghost function Handed(msglen: Option<nat>): seq<seq<byte>>
      requires msglen.Some? ==> msglen.value <= rawBuf.Length
      reads this, rawBuf
    {
      if msglen.Some? then [rawBuf[..msglen.value]] else []
    }

    /** The end of a frame; an empty one leaves everything as it was. */
    method Close() returns (msglen: Option<nat>)
      requires Valid() && OctetFits(View(), 0x7e)
      modifies this
      ensures Valid() && (msglen.Some? ==> msglen.value <= rawBuf.Length)
      ensures Decoded(View(), Handed(msglen)) == Accept(Decoded(old(View()), []), 0x7e)
      ensures msglen.None? ==> View().raw == []
    {
      var pos := Pos();
      if pos == 0 {
        return None;
      }
      assert [] + [Payload(View().raw)] == [Payload(View().raw)];
      assert rawBuf[..pos][..pos - 2] == rawBuf[..pos - 2];
      raw := Some(0);
      escape := 0;
      return Some(pos - 2);
    }

    /** Takes one octet off the ring and, unless it is a flag, absorbs it. */
    method TakeOctet(ring: CircBuf) returns (ch: byte)
      requires Valid() && ring.Valid() && ring.buf != rawBuf
      requires ring.Contents() != [] && OctetFits(View(), ring.Contents()[0])
      modifies this, rawBuf, ring`tail
      ensures Valid() && ring.Valid() && ring.head == old(ring.head)
      ensures ch == old(ring.Contents())[0] && ring.Contents() == old(ring.Contents())[1..]
      ensures View() == if ch == 0x7e then old(View()) else Next(old(View()), ch)
    {
      ch := ring.Take();
      if ch != 0x7e {
        Put(ch);
      }
    }

    /** The loop of hdlc_decode_one(): absorbs octets until a flag, or until the ring runs dry. */
    method Scan(ring: CircBuf) returns (flag: bool)
      requires Valid() && ring.Valid() && ring.buf != rawBuf
      requires Safe(View(), ring.Contents()[..FrameEnd(ring.Contents())])
      modifies this, rawBuf, ring`tail
      ensures Valid() && ring.Valid() && ring.head == old(ring.head)
      ensures var queue := old(ring.Contents());
              && ring.Contents() == queue[FrameEnd(queue)..]
              && var r := Decoded(View(), []);
                 Decode(old(View()), queue[..FrameEnd(queue)]) == if flag then Accept(r, 0x7e) else r
      ensures if flag then OctetFits(View(), 0x7e) else ring.Contents() == []
    {
      ghost var start, queue := View(), ring.Contents();
      ghost var frame := queue[..FrameEnd(queue)];
      ghost var k: nat := 0;
      while ring.tail != ring.head
        invariant Valid() && ring.Valid() && ring.head == old(ring.head)
        invariant Scanning(start, queue, k, ring.Contents(), View())
        decreases |ring.Contents()|
      {
        ScanTurn(start, queue, frame, k, ring.Contents(), View());
        var ch := TakeOctet(ring);
        if ch == 0x7e {
          return true;
        }
        k := k + 1;
      }
      return false;
    }

    /**
     hdlc_decode_one(): takes octets from the ring up to the first flag, or all
     of them if there is none. A message, when one was completed, is the first
     msglen octets of the buffer. No message means that the ring ran dry or
     that the frame was empty.
     */
    method DecodeOne(ring: CircBuf) returns (msglen: Option<nat>)
      requires Valid() && ring.Valid() && ring.buf != rawBuf
      requires Safe(View(), ring.Contents()[..FrameEnd(ring.Contents())])
      modifies this, rawBuf, ring`tail
      ensures Valid() && ring.Valid() && ring.head == old(ring.head)
      ensures msglen.Some? ==> msglen.value <= rawBuf.Length
      ensures var queue := old(ring.Contents());
              && ring.Contents() == queue[FrameEnd(queue)..]
              && Decode(old(View()), queue[..FrameEnd(queue)]) == Decoded(View(), Handed(msglen))
      ensures msglen.None? && ring.Contents() != [] ==> View().raw == []
    {
      if raw.None? {
        raw := Some(0);
      }
      var flag := Scan(ring);
      if flag {
        msglen := Close();
      } else {
        msglen := None;
      }
    }
  }

  // ---------------------------------------------------------------- decoding until NULL

  /** How many octets are taken by calling hdlc_decode_one() until it hands out nothing. */
  function NullEnd(d: Decoder, q: seq<byte>): (n: nat)
    ensures n <= |q| && (q != [] ==> n > 0)
    decreases |q|
  {
    var end := FrameEnd(q);
    var r := Decode(d, q[..end]);
    if q == [] || r.messages == [] then end else end + NullEnd(r.decoder, q[end..])
  }

  /** NullEnd after the first frame f of a queue f + rest. */
  lemma NullEndUnfolds(d: Decoder, q: seq<byte>, f: seq<byte>, rest: seq<byte>)
    requires f == q[..FrameEnd(q)] && rest == q[FrameEnd(q)..]
    ensures var r := Decode(d, f);
            NullEnd(d, q) == |f| + if r.messages == [] then 0 else NullEnd(r.decoder, rest)
  {
  }

  lemma TakeAcross(q: seq<byte>, k: nat, n: nat)
    requires k + n <= |q|
    ensures q[..k + n] == q[..k] + q[k..][..n]
  {
  }

  lemma SafeParts(d: Decoder, taken: seq<byte>, f: seq<byte>, g: seq<byte>)
    requires taken == f + g && Safe(d, taken)
    ensures Safe(d, f) && Safe(Decode(d, f).decoder, g)
  {
    AlongConcat(OctetFits, d, f, g);
  }

  /** The first frame of what is to be taken, and what is left after it. */
  lemma NullEndStep(d: Decoder, q: seq<byte>, f: seq<byte>, rest: seq<byte>)
    requires f == q[..FrameEnd(q)] && rest == q[FrameEnd(q)..]
    requires Safe(d, q[..NullEnd(d, q)])
    ensures Safe(d, f)
    ensures Decode(d, f).messages != [] ==> Safe(Decode(d, f).decoder, rest[..NullEnd(Decode(d, f).decoder, rest)])
  {
    NullEndUnfolds(d, q, f, rest);
    if Decode(d, f).messages != [] {
      var n := NullEnd(Decode(d, f).decoder, rest);
      TakeAcross(q, FrameEnd(q), n);
      SafeParts(d, q[..NullEnd(d, q)], f, rest[..n]);
    }
  }

  /** Part way through: what was decoded, what is left, and that it will go on to the right end. */
  ghost predicate Midway(d: Decoder, q: seq<byte>, done: seq<byte>, rest: seq<byte>, r: Decoded) {
    && q == done + rest
    && Decode(d, done) == r
    && NullEnd(d, q) == |done| + NullEnd(r.decoder, rest)
    && Safe(r.decoder, rest[..NullEnd(r.decoder, rest)])
  }

  lemma MidwayStep(d: Decoder, q: seq<byte>, done: seq<byte>, rest: seq<byte>, r: Decoded, f: seq<byte>, rest': seq<byte>)
    requires Midway(d, q, done, rest, r)
    requires f == rest[..FrameEnd(rest)] && rest' == rest[FrameEnd(rest)..]
    ensures Safe(r.decoder, f)
    ensures Decode(d, done + f) == After(r.messages, Decode(r.decoder, f))
    ensures q == done + f + rest'
    ensures if Decode(r.decoder, f).messages == [] then NullEnd(d, q) == |done + f|
            else Midway(d, q, done + f, rest', After(r.messages, Decode(r.decoder, f)))
  {
    NullEndUnfolds(r.decoder, rest, f, rest');
    NullEndStep(r.decoder, rest, f, rest');
    DecodeConcat(d, done, f);
    Rejoin(done, rest, FrameEnd(rest));
  }

  /** The inner loop of both receivers, with the messages it passes on. */
  method DecodeLoop(decoder: HdlcDecoder, ring: CircBuf) returns (msgs: seq<seq<byte>>)
    requires decoder.Valid() && ring.Valid() && ring.buf != decoder.rawBuf
    requires Safe(decoder.View(), ring.Contents()[..NullEnd(decoder.View(), ring.Contents())])
    modifies decoder, decoder.rawBuf, ring`tail
    ensures decoder.Valid() && ring.Valid() && ring.head == old(ring.head)
    ensures var d, q := old(decoder.View()), old(ring.Contents());
            && ring.Contents() == q[NullEnd(d, q)..]
            && Decode(d, q[..NullEnd(d, q)]) == Decoded(decoder.View(), msgs)
  {
    ghost var d, q, done := decoder.View(), ring.Contents(), [];
    msgs := [];
    while true
      invariant decoder.Valid() && ring.Valid() && ring.head == old(ring.head)
      invariant Midway(d, q, done, ring.Contents(), Decoded(decoder.View(), msgs))
      decreases |ring.Contents()|
    {
      ghost var rest := ring.Contents();
      ghost var frame := rest[..FrameEnd(rest)];
      MidwayStep(d, q, done, rest, Decoded(decoder.View(), msgs), frame, rest[FrameEnd(rest)..]);
      var msglen := decoder.DecodeOne(ring);
      done := done + frame;
      if msglen.None? {
        assert q[..|done|] == done && q[|done|..] == ring.Contents();
        return;
      }
      msgs := msgs + [decoder.rawBuf[..msglen.value]];
    }
  }

  /** A frame that hands out nothing and does not end the queue is empty. */
  lemma EmptyFrameFound(d: Decoder, q: seq<byte>)
    requires FrameEnd(q) < |q| && Decode(d, q[..FrameEnd(q)]).messages == []
    ensures !EmptyFrameFree(d, q[..FrameEnd(q)])
  {
    var end := FrameEnd(q);
    DecodeAt(d, q, end - 1);
    assert q[..end] == q[..end - 1] + [0x7e];
    AlongSnoc(NotEmptyFrame, d, q[..end - 1], 0x7e);
  }

  /** Octets are left behind only after an empty frame. */
  lemma {:induction false} LeftBehind(d: Decoder, q: seq<byte>)
    requires NullEnd(d, q) < |q|
    ensures !EmptyFrameFree(d, q[..NullEnd(d, q)])
    decreases |q|
  {
    var f, rest := q[..FrameEnd(q)], q[FrameEnd(q)..];
    NullEndUnfolds(d, q, f, rest);
    var r := Decode(d, f);
    if r.messages == [] {
      EmptyFrameFound(d, q);
    } else {
      LeftBehind(r.decoder, rest);
      TakeAcross(q, FrameEnd(q), NullEnd(r.decoder, rest));
      AlongConcat(NotEmptyFrame, d, f, rest[..NullEnd(r.decoder, rest)]);
    }
  }

  /** Draining a queue after what was consumed before. */
  lemma DrainFacts(earlier: seq<byte>, r: Decoded, q: seq<byte>, taken: seq<byte>, left: seq<byte>)
    requires Decode(FRESH, earlier) == r
    requires taken == q[..NullEnd(r.decoder, q)] && left == q[NullEnd(r.decoder, q)..]
    ensures Decode(FRESH, earlier + taken) == After(r.messages, Decode(r.decoder, taken))
    ensures earlier + taken + left == earlier + q
    ensures left == [] || !EmptyFrameFree(FRESH, earlier + taken)
    ensures q != [] ==> |left| < |q|
  {
    DecodeConcat(FRESH, earlier, taken);
    Rejoin(earlier, q, NullEnd(r.decoder, q));
    if left != [] {
      LeftBehind(r.decoder, q);
      EmptyFrameLater(earlier, taken);
    }
  }

  lemma SafeMiddle(earlier: seq<byte>, q: seq<byte>, taken: seq<byte>, left: seq<byte>)
    requires q == taken + left && Safe(FRESH, earlier + q)
    ensures Safe(Decode(FRESH, earlier).decoder, taken)
  {
    AlongConcat(OctetFits, FRESH, earlier, q);
    AlongConcat(OctetFits, Decode(FRESH, earlier).decoder, taken, left);
  }

  lemma EmptyFrameLater(earlier: seq<byte>, taken: seq<byte>)
    requires !EmptyFrameFree(Decode(FRESH, earlier).decoder, taken)
    ensures !EmptyFrameFree(FRESH, earlier + taken)
  {
    AlongConcat(NotEmptyFrame, FRESH, earlier, taken);
  }

  /** What circ_read() tells the receiver, and how far it may have moved the head. */
  lemma ReadFacts(head: nat, head': nat, tail: nat, held: seq<byte>, held': seq<byte>, arriving: seq<byte>, answers: seq<int>)
    requires head < HDLC_BUF_SIZE && head' < HDLC_BUF_SIZE && tail < HDLC_BUF_SIZE
    requires |held| == Held(head, tail) && |held'| == Held(head', tail)
    requires held' == held + arriving[..CircRead(head, tail, |arriving|, answers).taken]
    ensures var r := CircRead(head, tail, |arriving|, answers);
            && (r.ret < 0 ==> head' == 0 || (head' == head && held' == held))
            && (r.ret >= 0 ==> |r.answers| < |answers| || (r.answers == answers && held' == held != []))
  {
    FailureAfterData(head, tail, |arriving|, answers);
    NoReadOnlyIfFull(head, tail, |arriving|, answers);
  }

  // ---------------------------------------------------------------- the peripheral's data channel

  /** What a read finds: where the ring's octets start, what they are, what is to arrive, and the answers to come. */
  datatype Read = Read(tail: nat, held: seq<byte>, arriving: seq<byte>, answers: seq<int>)

  predicate Possible(r: Read) { r.tail < HDLC_BUF_SIZE && |r.held| < HDLC_BUF_SIZE }

  /** Where the octets of the ring end. */
  function HeadOf(r: Read): (head: nat)
    requires Possible(r)
    ensures head < HDLC_BUF_SIZE && Held(head, r.tail) == |r.held|
  {
    (r.tail + |r.held|) % 16384
  }

  /** What circ_read() does then. */
  function PlanOf(r: Read): Transfer
    requires Possible(r)
  {
    CircRead(HeadOf(r), r.tail, |r.arriving|, r.answers)
  }

  /** What the ring and the descriptor hold after it. */
  function AfterRead(r: Read): (after: Read)
    requires Possible(r)
    ensures Possible(after) && after.held + after.arriving == r.held + r.arriving
  {
    var plan := PlanOf(r);
    Rejoin(r.held, r.arriving, plan.taken);
    Read(r.tail, r.held + r.arriving[..plan.taken], r.arriving[plan.taken..], plan.answers)
  }

  /** The octets that a decoder takes from the ring until it hands out nothing. */
  function TakenBy(d: Decoder, r: Read): seq<byte> { r.held[..NullEnd(d, r.held)] }

  function AfterDecoding(d: Decoder, r: Read): (after: Read)
    requires Possible(r)
    ensures Possible(after) && TakenBy(d, r) + after.held == r.held
  {
    var n := NullEnd(d, r.held);
    r.(tail := (r.tail + n) % 16384, held := r.held[n..])
  }

  /** How a call ends: the octets it decoded, what its last read found, and what that left. */
  datatype CallEnd = CallEnd(taken: seq<byte>, last: Read, left: Read, ret: int)

  lemma TurnProgresses(d: Decoder, r: Read)
    requires Possible(r) && PlanOf(r).ret >= 0
    ensures var next := AfterDecoding(d, AfterRead(r));
            |next.answers| < |r.answers| || (next.answers == r.answers && |next.held| < |r.held|)
  {
    NoReadOnlyIfFull(HeadOf(r), r.tail, |r.arriving|, r.answers);
  }

  /** The turns of a call, each a read and then decoding, up to the first read that fails. */
  function CallFrom(d: Decoder, r: Read): (e: CallEnd)
    requires Possible(r)
    ensures e.ret < 0 && Possible(e.last) && e.left == AfterRead(e.last) && e.ret == PlanOf(e.last).ret
    ensures e.taken + e.left.held + e.left.arriving == r.held + r.arriving
    decreases |r.answers|, |r.held|
  {
    var after := AfterRead(r);
    if PlanOf(r).ret < 0 then
      assert [] + after.held == after.held;
      CallEnd([], r, after, PlanOf(r).ret)
    else
      TurnProgresses(d, r);
      var taken := TakenBy(d, after);
      var e := CallFrom(Decode(d, taken).decoder, AfterDecoding(d, after));
      TakenFirst(taken, e.taken, e.left.held, e.left.arriving, AfterDecoding(d, after).held, after.held, after.arriving);
      e.(taken := taken + e.taken)
  }

  lemma TakenFirst(a: seq<byte>, b: seq<byte>, held: seq<byte>, arriving: seq<byte>, h: seq<byte>, q: seq<byte>, x: seq<byte>)
    requires b + held + arriving == h + x && a + h == q
    ensures a + b + held + arriving == q + x
  {
    assert a + b + held + arriving == a + (b + held + arriving);
  }

  function Prepend(taken: seq<byte>, e: CallEnd): CallEnd {
    e.(taken := taken + e.taken)
  }

  lemma HeadUnique(head: nat, r: Read)
    requires Possible(r) && head < HDLC_BUF_SIZE && Held(head, r.tail) == |r.held|
    ensures head == HeadOf(r)
  {
  }

  lemma TailAfter(head: nat, tail: nat, tail': nat, held: nat, taken: nat)
    requires head < HDLC_BUF_SIZE && tail < HDLC_BUF_SIZE && tail' < HDLC_BUF_SIZE && taken <= held
    requires Held(head, tail) == held && Held(head, tail') == held - taken
    ensures tail' == (tail + taken) % 16384
  {
  }

  /** After the inner loop, given what was consumed, broadcast and held before it. */
  lemma Drained(earlier: seq<byte>, d: Decoder, broadcast: seq<seq<byte>>, r: Read, now: Decoded,
                head: nat, tail: nat, left: seq<byte>)
    requires Decode(FRESH, earlier) == Decoded(d, broadcast) && Possible(r)
    requires head < HDLC_BUF_SIZE && tail < HDLC_BUF_SIZE
    requires Held(head, r.tail) == |r.held| && Held(head, tail) == |left|
    requires Decode(d, TakenBy(d, r)) == now && left == r.held[NullEnd(d, r.held)..]
    ensures Decode(FRESH, earlier + TakenBy(d, r)) == Decoded(now.decoder, broadcast + now.messages)
    ensures AfterDecoding(d, r) == r.(tail := tail, held := left)
    ensures left == [] || !EmptyFrameFree(FRESH, earlier + TakenBy(d, r))
  {
    TailAfter(head, r.tail, tail, |r.held|, |TakenBy(d, r)|);
    DrainFacts(earlier, Decoded(d, broadcast), r.held, TakenBy(d, r), left);
  }

  lemma SameStream(consumed: seq<byte>, held: seq<byte>, arriving: seq<byte>, held': seq<byte>, arriving': seq<byte>)
    requires held' + arriving' == held + arriving
    ensures consumed + held' + arriving' == consumed + held + arriving
  {
    ConcatAssociative(consumed, held, arriving);
    ConcatAssociative(consumed, held', arriving');
  }

  lemma SafePart(consumed: seq<byte>, held: seq<byte>, arriving: seq<byte>)
    requires Safe(FRESH, consumed + held + arriving)
    ensures Safe(FRESH, consumed + held)
  {
    AlongConcat(OctetFits, FRESH, consumed + held, arriving);
  }

  lemma SameTaken(consumed: seq<byte>, taken: seq<byte>, held: seq<byte>, arriving: seq<byte>)
    ensures consumed + taken + held + arriving == consumed + (taken + held) + arriving
  {
  }

  /** What is done of a call, and where the rest of it starts; the octets to come are within the decoder's domain. */
  ghost predicate Underway(e: CallEnd, start: seq<byte>, done: seq<byte>, d: Decoder, r: Read) {
    Possible(r) && e == Prepend(done, CallFrom(d, r)) && Safe(FRESH, start + done + r.held + r.arriving)
  }

  lemma EmptyDone(start: seq<byte>, e: CallEnd)
    ensures Prepend([], e) == e && start + [] == start
  {
    assert [] + e.taken == e.taken;
  }

  /** A turn leaves the stream as it was. */
  lemma TurnKeepsStream(consumed: seq<byte>, d: Decoder, r: Read)
    requires Possible(r)
    ensures var taken, next := TakenBy(d, AfterRead(r)), AfterDecoding(d, AfterRead(r));
            consumed + taken + next.held + next.arriving == consumed + r.held + r.arriving
  {
    var after := AfterRead(r);
    SameStream(consumed, r.held, r.arriving, after.held, after.arriving);
    SameTaken(consumed, TakenBy(d, after), AfterDecoding(d, after).held, after.arriving);
  }

  lemma UnderwayStep(e: CallEnd, start: seq<byte>, done: seq<byte>, d: Decoder, r: Read)
    requires Underway(e, start, done, d, r)
    ensures PlanOf(r).ret < 0 ==> e == CallEnd(done, r, AfterRead(r), PlanOf(r).ret)
    ensures PlanOf(r).ret >= 0 ==>
              var taken, next := TakenBy(d, AfterRead(r)), AfterDecoding(d, AfterRead(r));
              && Underway(e, start, done + taken, Decode(d, taken).decoder, next)
              && start + done + taken == start + (done + taken)
              && (|next.answers| < |r.answers| || (next.answers == r.answers && |next.held| < |r.held|))
  {
    if PlanOf(r).ret < 0 {
      assert done + [] == done;
    } else {
      var taken := TakenBy(d, AfterRead(r));
      TurnProgresses(d, r);
      TurnKeepsStream(start + done, d, r);
      CallUnfolds(d, r);
      ConcatAssociative(done, taken, CallFrom(Decode(d, taken).decoder, AfterDecoding(d, AfterRead(r))).taken);
      ConcatAssociative(start, done, taken);
    }
  }

  lemma CallUnfolds(d: Decoder, r: Read)
    requires Possible(r) && PlanOf(r).ret >= 0
    ensures var taken := TakenBy(d, AfterRead(r));
            CallFrom(d, r) == Prepend(taken, CallFrom(Decode(d, taken).decoder, AfterDecoding(d, AfterRead(r))))
  {
  }

  /** What the decoder is to take after a read is within its domain. */
  lemma SafeToTake(consumed: seq<byte>, d: Decoder, r: Read)
    requires Possible(r) && d == Decode(FRESH, consumed).decoder && Safe(FRESH, consumed + r.held + r.arriving)
    ensures Safe(d, TakenBy(d, AfterRead(r)))
  {
    var after := AfterRead(r);
    SameStream(consumed, r.held, r.arriving, after.held, after.arriving);
    SafePart(consumed, after.held, after.arriving);
    SafeMiddle(consumed, after.held, TakenBy(d, after), AfterDecoding(d, after).held);
  }

  ghost function Finds(ring: CircBuf, fd: Fd): (r: Read)
    requires ring.Valid()
    reads ring, ring.buf, fd
    ensures Possible(r)
  {
    Read(ring.tail, ring.Contents(), fd.stream, fd.answers)
  }

  /** circ_read() as a change of what a read finds. */
  method FillRing(ring: CircBuf, fd: Fd) returns (ret: int)
    requires ring.Valid()
    modifies ring`head, ring.buf, fd
    ensures ring.Valid()
    ensures Finds(ring, fd) == AfterRead(old(Finds(ring, fd)))
    ensures ret == PlanOf(old(Finds(ring, fd))).ret
    ensures LastDecides(old(fd.answers), fd.answers, ret)
  {
    HeadUnique(ring.head, Finds(ring, fd));
    ret := ring.Read(fd);
  }

  /** Of two reads one after the other, of which the first did not fail, the last answer decides. */
  lemma ReadsDecide(was: seq<int>, between: seq<int>, now: seq<int>, ret: int)
    requires LastDecides(was, between, 0) && LastDecides(between, now, ret)
    ensures LastDecides(was, now, ret)
  {
    forall k | 0 <= k < |was| - |now| - 1 ensures was[k] >= 0 {
      if k >= |was| - |between| { assert was[k] == between[k - (|was| - |between|)]; }
    }
  }

  /** The last answer used is an errno, and another one than that nothing is there. */
  predicate ReadError(was: seq<int>, now: seq<int>) {
    |now| < |was| && was[|was| - |now| - 1] < 0 && was[|was| - |now| - 1] != -EAGAIN
  }

  /** A peripheral whose decoder lives as long as the channel. */
  class Peripheral {
    const ring: CircBuf
    const decoder: HdlcDecoder
    /** The messages broadcast to the clients. */
    var broadcast: seq<seq<byte>>
    /** The octets the decoder has seen. */
    ghost var consumed: seq<byte>

    ghost predicate Valid()
      reads this, ring, ring.buf, decoder, decoder.rawBuf
    {
      && ring.Valid() && decoder.Valid() && ring.buf != decoder.rawBuf
      && Decode(FRESH, consumed) == Decoded(decoder.View(), broadcast)
      && (ring.Contents() == [] || ring.head == 0 || !EmptyFrameFree(FRESH, consumed))
    }

    /** Every octet that has arrived or will: decoded, held in the ring, or still with the kernel. */
    ghost function Stream(fd: Fd): seq<byte>
      requires ring.Valid()
      reads this, ring, ring.buf, fd
    {
      consumed + ring.Contents() + fd.stream
    }

    constructor ()
      ensures Valid() && consumed == [] && broadcast == [] && ring.Contents() == []
    {
      ring := new CircBuf();
      decoder := new HdlcDecoder();
      broadcast, consumed := [], [];
    }

    /** What a read finds. */
    ghost function At(fd: Fd): (r: Read)
      requires ring.Valid()
      reads this, ring, ring.buf, fd
      ensures Possible(r)
    {
      Finds(ring, fd)
    }

    /** The inner loop: decodes what the ring holds. */
    method Drain(ghost fd: Fd)
      requires ring.Valid() && decoder.Valid() && ring.buf != decoder.rawBuf
      requires Decode(FRESH, consumed) == Decoded(decoder.View(), broadcast)
      requires Safe(decoder.View(), TakenBy(decoder.View(), At(fd)))
      modifies this, ring`tail, decoder, decoder.rawBuf
      ensures Valid()
      ensures consumed == old(consumed) + TakenBy(old(decoder.View()), old(At(fd)))
      ensures At(fd) == AfterDecoding(old(decoder.View()), old(At(fd)))
      ensures decoder.View() == Decode(old(decoder.View()), TakenBy(old(decoder.View()), old(At(fd)))).decoder
    {
      ghost var d, r, earlier := decoder.View(), At(fd), consumed;
      var msgs := DecodeLoop(decoder, ring);
      Drained(earlier, d, broadcast, r, Decoded(decoder.View(), msgs), ring.head, ring.tail, ring.Contents());
      broadcast := broadcast + msgs;
      consumed := consumed + TakenBy(d, r);
    }

    /** circ_read() into the ring, the decoder standing by. */
    method Fill(fd: Fd) returns (ret: int)
      requires Valid()
      modifies ring`head, ring.buf, fd
      ensures ring.Valid() && decoder.Valid() && decoder.View() == old(decoder.View())
      ensures At(fd) == AfterRead(old(At(fd)))
      ensures ret == PlanOf(old(At(fd))).ret && LastDecides(old(fd.answers), fd.answers, ret)
      ensures ret < 0 ==> Valid()
    {
      ghost var head, r := ring.head, At(fd);
      ret := FillRing(ring, fd);
      HeadUnique(head, r);
      ReadFacts(head, ring.head, ring.tail, r.held, ring.Contents(), r.arriving, r.answers);
    }

    /** One turn of the outer loop: a read and, unless it failed, decoding. */
    method Turn(fd: Fd) returns (ret: int)
      requires Valid() && Safe(FRESH, Stream(fd))
      modifies this, ring, ring.buf, decoder, decoder.rawBuf, fd
      ensures Valid()
      ensures var d, r := old(decoder.View()), old(At(fd));
              && ret == PlanOf(r).ret
              && if ret < 0
                 then consumed == old(consumed) && At(fd) == AfterRead(r)
                 else
                   && consumed == old(consumed) + TakenBy(d, AfterRead(r))
                   && At(fd) == AfterDecoding(d, AfterRead(r))
                   && decoder.View() == Decode(d, TakenBy(d, AfterRead(r))).decoder
      ensures LastDecides(old(fd.answers), fd.answers, ret)
    {
      SafeToTake(consumed, decoder.View(), At(fd));
      ret := Fill(fd);
      if ret >= 0 {
        Drain(fd);
      }
    }

    /**
     diag_data_recv_hdlc(): the call does just the turns of CallFrom, whatever
     the kernel answers and however it cuts the stream, and what has been
     broadcast is what one pass over the octets consumed so far decodes. It
     returns the errno of the last answer it used, which is the first negative one.
     */
    method RecvHdlc(fd: Fd) returns (ret: int)
      requires Valid() && Safe(FRESH, Stream(fd))
      modifies this, ring, ring.buf, decoder, decoder.rawBuf, fd
      ensures Valid()
      ensures var e := CallFrom(old(decoder.View()), old(At(fd)));
              && ret == e.ret && consumed == old(consumed) + e.taken
              && At(fd) == e.left
      ensures ret < 0 && LastDecides(old(fd.answers), fd.answers, ret)
    {
      ghost var start, done: seq<byte> := consumed, [];
      ghost var d, r := decoder.View(), At(fd);
      ghost var e := CallFrom(d, r);
      EmptyDone(start, e);
      ret := 0;
      while ret >= 0
        invariant Valid() && consumed == start + done
        invariant ret >= 0 ==> d == decoder.View() && r == At(fd) && Underway(e, start, done, d, r)
        invariant ret < 0 ==> ret == e.ret && done == e.taken && At(fd) == e.left
        invariant ret <= 0 && LastDecides(old(fd.answers), fd.answers, ret)
        decreases if ret >= 0 then 1 else 0, |r.answers|, |r.held|
      {
        UnderwayStep(e, start, done, d, r);
        ghost var before := fd.answers;
        ret := Turn(fd);
        ReadsDecide(old(fd.answers), before, fd.answers, ret);
        if ret >= 0 {
          done := done + TakenBy(d, AfterRead(r));
          d, r := Decode(d, TakenBy(d, AfterRead(r))).decoder, AfterDecoding(d, AfterRead(r));
        }
      }
    }
  }

  /**
   A stream whose octets were all read may still wait in the ring: the frames
   ended exactly at the end of the buffer and the read that followed failed.
   */
  method ReadButNotDecoded(p: Peripheral, fd: Fd)
    requires p.Valid() && Safe(FRESH, p.Stream(fd))
    requires 2 <= p.ring.tail <= p.ring.head
    requires |fd.stream| == HDLC_BUF_SIZE - p.ring.head && fd.answers == [|fd.stream|]
    modifies p, p.ring, p.ring.buf, p.decoder, p.decoder.rawBuf, fd
    ensures p.Valid() && fd.stream == [] && p.broadcast == old(p.broadcast)
    ensures p.ring.Contents() == old(p.ring.Contents() + fd.stream) != []
  {
    ReadAndFails(p.decoder.View(), p.At(fd), p.ring.head);
    assert p.consumed + [] == p.consumed;
    var ret := p.RecvHdlc(fd);
  }

  lemma ReadAndFails(d: Decoder, r: Read, head: nat)
    requires Possible(r) && head < HDLC_BUF_SIZE && Held(head, r.tail) == |r.held|
    requires 2 <= r.tail <= head && |r.arriving| == HDLC_BUF_SIZE - head && r.answers == [|r.arriving|]
    ensures var e := CallFrom(d, r);
            e.taken == [] && e.left.held == r.held + r.arriving != [] && e.left.arriving == []
  {
    HeadUnique(head, r);
    FailureAfterData(head, r.tail, |r.arriving|, r.answers);
    assert r.arriving[..|r.arriving|] == r.arriving;
  }

  // ---------------------------------------------------------------- a client's commands

  /** What calls that take these pieces hand to the dispatcher. */
  function HandledBy(pieces: seq<seq<byte>>): seq<seq<byte>> {
    if pieces == [] then []
    else HandledBy(pieces[..|pieces| - 1]) + Decode(FRESH, pieces[|pieces| - 1]).messages
  }

  /** Each piece is within the decoder's domain. */
  predicate AllSafe(pieces: seq<seq<byte>>) { forall i | 0 <= i < |pieces| :: Safe(FRESH, pieces[i]) }

  lemma HandledSnoc(a: seq<seq<byte>>, piece: seq<byte>)
    ensures HandledBy(a + [piece]) == HandledBy(a) + Decode(FRESH, piece).messages
    ensures Flatten(a + [piece]) == Flatten(a) + piece
  {
    assert (a + [piece])[..|a|] == a;
  }

  /** What a ring holds, decoded from scratch up to the first empty frame. */
  method DecodeAfresh(ring: CircBuf, ghost fd: Fd) returns (msgs: seq<seq<byte>>)
    requires ring.Valid() && Safe(FRESH, TakenBy(FRESH, Finds(ring, fd)))
    modifies ring`tail
    ensures ring.Valid() && Finds(ring, fd) == AfterDecoding(FRESH, old(Finds(ring, fd)))
    ensures msgs == Decode(FRESH, TakenBy(FRESH, old(Finds(ring, fd)))).messages
  {
    ghost var r := Finds(ring, fd);
    var decoder := new HdlcDecoder();
    msgs := DecodeLoop(decoder, ring);
    PieceTaken(r, ring.head, ring.tail, ring.Contents());
  }

  lemma PieceTaken(r: Read, head: nat, tail: nat, left: seq<byte>)
    requires Possible(r) && head < HDLC_BUF_SIZE && tail < HDLC_BUF_SIZE
    requires Held(head, r.tail) == |r.held| && Held(head, tail) == |left| && left == r.held[NullEnd(FRESH, r.held)..]
    ensures AfterDecoding(FRESH, r) == r.(tail := tail, held := left)
  {
    TailAfter(head, r.tail, tail, |r.held|, |TakenBy(FRESH, r)|);
  }

  /** A client keeps its ring between calls but not its decoder. */
  class Client {
    const ring: CircBuf
    /** The messages handed to the command dispatcher. */
    var handled: seq<seq<byte>>
    /** The octets that each call took. */
    ghost var pieces: seq<seq<byte>>

    ghost predicate Valid()
      reads this
    {
      handled == HandledBy(pieces)
    }

    constructor (ring: CircBuf)
      ensures Valid() && this.ring == ring && handled == [] && pieces == []
    {
      this.ring := ring;
      handled, pieces := [], [];
    }

    /**
     dm_recv_hdlc(): decodes what the ring holds from scratch, up to the first
     empty frame; octets of a frame not yet complete are taken and forgotten.
     */
    method RecvHdlc(ghost fd: Fd)
      requires Valid() && ring.Valid() && Safe(FRESH, TakenBy(FRESH, Finds(ring, fd)))
      modifies this, ring`tail
      ensures Valid() && ring.Valid()
      ensures var r := old(Finds(ring, fd));
              && Finds(ring, fd) == AfterDecoding(FRESH, r)
              && pieces == old(pieces) + [TakenBy(FRESH, r)]
              && handled == old(handled) + Decode(FRESH, TakenBy(FRESH, r)).messages
    {
      ghost var taken := TakenBy(FRESH, Finds(ring, fd));
      var msgs := DecodeAfresh(ring, fd);
      HandledSnoc(pieces, taken);
      handled, pieces := handled + msgs, pieces + [taken];
    }

    /**
     dm_recv_encoded(), for a client on HDLC: reads into the ring and, unless
     the read failed for another reason than that nothing is there, decodes.
     */
    method RecvEncoded(fd: Fd) returns (ret: int)
      requires Valid() && ring.Valid() && Safe(FRESH, TakenBy(FRESH, AfterRead(Finds(ring, fd))))
      modifies this, ring`head, ring`tail, ring.buf, fd
      ensures Valid() && ring.Valid()
      ensures var r := old(Finds(ring, fd));
              if PlanOf(r).ret < 0 && PlanOf(r).ret != -EAGAIN
              then ret == PlanOf(r).ret && Finds(ring, fd) == AfterRead(r) && pieces == old(pieces)
              else
                && ret == 0 && Finds(ring, fd) == AfterDecoding(FRESH, AfterRead(r))
                && pieces == old(pieces) + [TakenBy(FRESH, AfterRead(r))]
      ensures ret != 0 <==> ReadError(old(fd.answers), fd.answers)
      ensures ret != 0 ==>
                && ret == old(fd.answers)[|old(fd.answers)| - |fd.answers| - 1]
                && handled == old(handled) && ring.tail == old(ring.tail)
      ensures ret == 0 ==> |pieces| == |old(pieces)| + 1
    {
      ret := FillRing(ring, fd);
      if ret < 0 && ret != -EAGAIN {
        return;
      }
      RecvHdlc(fd);
      ret := 0;
    }
  }

  /** A call of a client moves octets from the front of what arrives to its pieces, in order, and loses none. */
  lemma ClientKeepsStream(pieces: seq<seq<byte>>, r: Read)
    requires Possible(r)
    ensures Flatten(pieces) + AfterRead(r).held + AfterRead(r).arriving == Flatten(pieces) + r.held + r.arriving
    ensures var next := AfterDecoding(FRESH, AfterRead(r));
            Flatten(pieces + [TakenBy(FRESH, AfterRead(r))]) + next.held + next.arriving == Flatten(pieces) + r.held + r.arriving
  {
    HandledSnoc(pieces, TakenBy(FRESH, AfterRead(r)));
    SameStream(Flatten(pieces), r.held, r.arriving, AfterRead(r).held, AfterRead(r).arriving);
    TurnKeepsStream(Flatten(pieces), FRESH, r);
  }

  lemma {:induction false} NoFlagNoMessage(d: Decoder, s: seq<byte>)
    requires 0x7e !in s
    ensures Decode(d, s).messages == [] && EmptyFrameFree(d, s)
    decreases |s|
  {
    if s != [] {
      assert s[|s| - 1] in s;
      NoFlagNoMessage(d, s[..|s| - 1]);
    }
  }

  /**
   A client call that finds whole frames followed by the beginning of another
   takes all of it and handles the whole frames. The beginning is lost: the
   next call starts afresh in the middle of that frame (see FreshPerStretch).
   */
  lemma ClientHandles(msgs: seq<seq<byte>>, part: seq<byte>)
    requires 0x7e !in part
    ensures var q := EncodeAll(msgs) + part;
            NullEnd(FRESH, q) == |q| && Decode(FRESH, q).messages == msgs
  {
    var q := EncodeAll(msgs) + part;
    DecodeEncodeAll(msgs);
    EncodeAllEmptyFrameFree(msgs);
    NoFlagNoMessage(FRESH, part);
    DecodeConcat(FRESH, EncodeAll(msgs), part);
    AlongConcat(NotEmptyFrame, FRESH, EncodeAll(msgs), part);
    NothingLeft(FRESH, q);
  }

  lemma NothingLeft(d: Decoder, q: seq<byte>)
    requires EmptyFrameFree(d, q)
    ensures NullEnd(d, q) == |q|
  {
    var end := NullEnd(d, q);
    if end < |q| {
      LeftBehind(d, q);
      assert q == q[..end] + q[end..];
      AlongConcat(NotEmptyFrame, d, q[..end], q[end..]);
    }
  }
}
