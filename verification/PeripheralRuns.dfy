/**
 What calls of a peripheral's receiver (router/peripheral-rpmsg.c) deliver: how
 far the kernel's answers take them, what they leave in the ring, and when all
 that was sent has been broadcast.
 */
module PeripheralRuns {
  import opened Bytes
  import opened CircBuf
  import opened Hdlc
  import opened Receive
  import opened ClientRuns

  // ---------------------------------------------------------------- what a call leaves in the ring

  /** The last read of a call fills the buffer to its end and fails after that. */
  predicate StopsAfterData(e: CallEnd)
    requires Possible(e.last)
  {
    FailsAfterData(HeadOf(e.last), e.last.tail, |e.last.arriving|, e.last.answers)
  }

  lemma FreeOfEmptyFrames(d: Decoder, taken: seq<byte>, held: seq<byte>, arriving: seq<byte>)
    requires EmptyFrameFree(d, taken + held + arriving)
    ensures EmptyFrameFree(d, taken)
    ensures held == [] ==> EmptyFrameFree(Decode(d, taken).decoder, arriving)
  {
    AlongConcat(NotEmptyFrame, d, taken + held, arriving);
    AlongConcat(NotEmptyFrame, d, taken, held);
    assert held == [] ==> taken + held == taken;
  }

  /** Decoding takes all of the ring unless it meets an empty frame. */
  lemma TakesAll(d: Decoder, r: Read)
    requires Possible(r) && EmptyFrameFree(d, r.held + r.arriving)
    ensures AfterDecoding(d, r).held == []
    ensures EmptyFrameFree(Decode(d, TakenBy(d, r)).decoder, [] + r.arriving)
  {
    FreeOfEmptyFrames(d, TakenBy(d, r), AfterDecoding(d, r).held, r.arriving);
    if NullEnd(d, r.held) < |r.held| { LeftBehind(d, r.held); }
    assert [] + r.arriving == r.arriving;
  }

  /**
   On a stream without empty frames a call leaves octets in the ring exactly
   when its last read failed after data, or its first read failed and the ring
   was not empty.
   */
  lemma {:induction false} LeftInRingIff(d: Decoder, r: Read)
    requires Possible(r) && EmptyFrameFree(d, r.held + r.arriving)
    ensures var e := CallFrom(d, r);
            e.left.held != [] <==> StopsAfterData(e) || (r.held != [] && PlanOf(r).ret < 0)
    decreases |r.answers|, |r.held|
  {
    var after := AfterRead(r);
    if PlanOf(r).ret < 0 {
      FailureAfterData(HeadOf(r), r.tail, |r.arriving|, r.answers);
    } else {
      TurnProgresses(d, r);
      TakesAll(d, after);
      LeftInRingIff(Decode(d, TakenBy(d, after)).decoder, AfterDecoding(d, after));
    }
  }

  // ---------------------------------------------------------------- how far the answers take a call

  /** The first k answers are to deliver something. */
  predicate Positive(answers: seq<int>, k: nat) {
    k <= |answers| && forall i | 0 <= i < k :: answers[i] > 0
  }

  /** How many answers a read of a ring used. */
  function Used(answers: seq<int>, left: seq<int>): nat {
    if |left| <= |answers| then |answers| - |left| else 0
  }

  lemma {:induction false} AnswersInOrder(head: nat, tail: nat, available: nat, answers: seq<int>)
    requires head < HDLC_BUF_SIZE && tail < HDLC_BUF_SIZE
    ensures var t := CircRead(head, tail, available, answers);
            |t.answers| <= |answers| && t.answers == answers[Used(answers, t.answers)..]
    decreases |answers|
  {
    var space := FreeToEnd(head, tail);
    if space > 0 && answers != [] {
      var rest := answers[1..];
      if Delivered(space, available, answers[0]) == space {
        AnswersInOrder(Wrap(head + space), tail, available - space, rest);
        SuffixOfTail(answers, rest, CircRead(Wrap(head + space), tail, available - space, rest).answers);
      } else {
        SuffixOfTail(answers, rest, rest);
      }
    } else {
      assert answers[0..] == answers;
    }
  }

  lemma SuffixOfTail(answers: seq<int>, rest: seq<int>, left: seq<int>)
    requires answers != [] && rest == answers[1..] && |left| <= |rest| && left == rest[|rest| - |left|..]
    ensures left == answers[|answers| - |left|..]
  {
  }

  lemma PositiveTail(answers: seq<int>, k: nat)
    requires Positive(answers, k) && answers != []
    ensures Positive(answers[1..], if k == 0 then 0 else k - 1)
  {
  }

  /** A read that used j answers and took so many octets has made headway with k positive answers. */
  predicate Headway(taken: nat, available: nat, j: nat, k: nat) {
    taken >= Min(j, k) || taken == available
  }

  lemma OneAnswer(space: nat, available: nat, answers: seq<int>, k: nat)
    requires space > 0 && answers != [] && Positive(answers, k) && Delivered(space, available, answers[0]) >= 0
    ensures Headway(Delivered(space, available, answers[0]), available, 1, k)
  {
  }

  /** A read that ends with its first answer, or without one. */
  lemma EndsAtOnce(head: nat, tail: nat, available: nat, answers: seq<int>, k: nat)
    requires head < HDLC_BUF_SIZE && tail < HDLC_BUF_SIZE && Positive(answers, k)
    requires var space := FreeToEnd(head, tail);
             space > 0 && answers != [] ==> Delivered(space, available, answers[0]) != space
    ensures var t := CircRead(head, tail, available, answers);
            Headway(t.taken, available, Used(answers, t.answers), k) && (t.ret < 0 ==> Used(answers, t.answers) >= k)
  {
    var space := FreeToEnd(head, tail);
    if space > 0 && answers != [] && Delivered(space, available, answers[0]) >= 0 {
      OneAnswer(space, available, answers, k);
    }
  }

  lemma HeadwayAdds(space: nat, taken: nat, available: nat, j: nat, k: nat)
    requires 0 < space <= available && Headway(taken, available - space, j, if k == 0 then 0 else k - 1)
    ensures Headway(space + taken, available, j + 1, k)
  {
  }

  /** Each positive answer that is used delivers an octet, as long as there is one. */
  lemma {:induction false} ReadProgresses(head: nat, tail: nat, available: nat, answers: seq<int>, k: nat)
    requires head < HDLC_BUF_SIZE && tail < HDLC_BUF_SIZE && Positive(answers, k)
    ensures var t := CircRead(head, tail, available, answers);
            Headway(t.taken, available, Used(answers, t.answers), k) && (t.ret < 0 ==> Used(answers, t.answers) >= k)
    decreases |answers|
  {
    var space := FreeToEnd(head, tail);
    if space > 0 && answers != [] && Delivered(space, available, answers[0]) == space {
      var rest, k' := answers[1..], if k == 0 then 0 else k - 1;
      PositiveTail(answers, k);
      ReadProgresses(Wrap(head + space), tail, available - space, rest, k');
      CircReadGoesOn(head, tail, available, answers, space);
      AnswersInOrder(Wrap(head + space), tail, available - space, rest);
      var more := CircRead(Wrap(head + space), tail, available - space, rest);
      HeadwayAdds(space, more.taken, available, Used(rest, more.answers), k);
    } else {
      EndsAtOnce(head, tail, available, answers, k);
    }
  }

  /** How many of the first k answers are to come after a read. */
  function StillPositive(r: Read, k: nat): nat
    requires Possible(r)
  {
    k - Min(Used(r.answers, AfterRead(r).answers), k)
  }

  lemma ReadKeepsEnough(r: Read, k: nat)
    requires Possible(r) && Positive(r.answers, k) && |r.arriving| <= k
    ensures var k', after := StillPositive(r, k), AfterRead(r);
            && Positive(after.answers, k') && |after.arriving| <= k'
            && (PlanOf(r).ret < 0 ==> after.arriving == [])
  {
    ReadProgresses(HeadOf(r), r.tail, |r.arriving|, r.answers, k);
    AnswersInOrder(HeadOf(r), r.tail, |r.arriving|, r.answers);
  }

  /**
   If as many answers as there are octets to arrive deliver something, the
   call reads all of them, however little each delivers.
   */
  lemma {:induction false} AllRead(d: Decoder, r: Read, k: nat)
    requires Possible(r) && Positive(r.answers, k) && |r.arriving| <= k
    ensures CallFrom(d, r).left.arriving == []
    decreases |r.answers|, |r.held|
  {
    ReadKeepsEnough(r, k);
    if PlanOf(r).ret >= 0 {
      var taken, next := TakenBy(d, AfterRead(r)), AfterDecoding(d, AfterRead(r));
      TurnProgresses(d, r);
      CallUnfolds(d, r);
      AllRead(Decode(d, taken).decoder, next, StillPositive(r, k));
    }
  }

  // ---------------------------------------------------------------- delivery

  /** Of a stream of frames, all messages are out exactly when all octets were decoded. */
  lemma AllOutIff(msgs: seq<seq<byte>>, c: seq<byte>, b: seq<byte>)
    requires c + b == EncodeAll(msgs)
    ensures Decode(FRESH, c).messages == msgs <==> b == []
    ensures b == [] ==> Decode(FRESH, c) == Decoded(FRESH, msgs)
  {
    StreamRoundTrip(msgs, c, b);
    if b != [] {
      var j, p := CutStream(msgs, c, b);
      DecodeEncodeAll(msgs[..j]);
      DecodeConcat(FRESH, EncodeAll(msgs[..j]), p);
      FlagOnlyAtEnd(msgs[j], p);
      NoFlagNoMessage(FRESH, p);
      assert msgs[..j] + [] == msgs[..j];
    }
  }

  /** What a call does after these octets were decoded. */
  function NextCall(consumed: seq<byte>, r: Read): CallEnd
    requires Possible(r)
  {
    CallFrom(Decode(FRESH, consumed).decoder, r)
  }

  /** A peripheral that has decoded some of a stream of frames, and what a call then finds. */
  ghost predicate OnStream(msgs: seq<seq<byte>>, consumed: seq<byte>, r: Read) {
    Possible(r) && consumed + r.held + r.arriving == EncodeAll(msgs)
  }

  lemma Regrouped(c: seq<byte>, taken: seq<byte>, h: seq<byte>, x: seq<byte>, held: seq<byte>, arriving: seq<byte>)
    requires taken + h + x == held + arriving
    ensures c + taken + h + x == c + held + arriving
  {
    assert c + taken + h + x == c + (taken + h + x);
    assert c + held + arriving == c + (held + arriving);
  }

  /** What a call leaves is the rest of the stream. */
  lemma CallKeepsStream(msgs: seq<seq<byte>>, consumed: seq<byte>, r: Read)
    requires OnStream(msgs, consumed, r)
    ensures OnStream(msgs, consumed + NextCall(consumed, r).taken, NextCall(consumed, r).left)
  {
    var e := NextCall(consumed, r);
    Regrouped(consumed, e.taken, e.left.held, e.left.arriving, r.held, r.arriving);
  }

  /** What has been broadcast is a prefix of what was sent, and all of it exactly when nothing is left; then the decoder is fresh. */
  ghost predicate Delivers(msgs: seq<seq<byte>>, consumed: seq<byte>, left: Read) {
    var all := Decode(FRESH, consumed);
    && all.messages <= msgs
    && (all.messages == msgs <==> left.held == [] && left.arriving == [])
    && (all.messages == msgs ==> all.decoder == FRESH)
  }

  lemma StreamDelivers(msgs: seq<seq<byte>>, consumed: seq<byte>, r: Read)
    requires OnStream(msgs, consumed, r)
    ensures Delivers(msgs, consumed, r)
  {
    ConcatAssociative(consumed, r.held, r.arriving);
    StreamRoundTrip(msgs, consumed, r.held + r.arriving);
    AllOutIff(msgs, consumed, r.held + r.arriving);
  }

  /**
   A call has broadcast just the messages that were sent, and left the decoder
   fresh, exactly when the answers let all octets through, the last read did not
   fail after data, and the first did not fail on a ring with octets in it.
   */
  lemma CallDeliversIff(msgs: seq<seq<byte>>, consumed: seq<byte>, r: Read)
    requires OnStream(msgs, consumed, r)
    ensures var e := NextCall(consumed, r);
            && Delivers(msgs, consumed + e.taken, e.left)
            && (Decode(FRESH, consumed + e.taken).messages == msgs
                <==> e.left.arriving == [] && !StopsAfterData(e) && (r.held == [] || PlanOf(r).ret >= 0))
  {
    var e := NextCall(consumed, r);
    CallKeepsStream(msgs, consumed, r);
    StreamDelivers(msgs, consumed + e.taken, e.left);
    EncodeAllEmptyFrameFree(msgs);
    ConcatAssociative(consumed, r.held, r.arriving);
    AlongConcat(NotEmptyFrame, FRESH, consumed, r.held + r.arriving);
    LeftInRingIff(Decode(FRESH, consumed).decoder, r);
  }

  /**
   In particular a call on an empty ring, with as many answers that deliver
   something as there are octets, delivers everything exactly when its last
   read did not fail after data.
   */
  lemma EnoughAnswers(msgs: seq<seq<byte>>, consumed: seq<byte>, r: Read)
    requires OnStream(msgs, consumed, r) && r.held == [] && Positive(r.answers, |r.arriving|)
    ensures var e := NextCall(consumed, r);
            Decode(FRESH, consumed + e.taken) == Decoded(FRESH, msgs) <==> !StopsAfterData(e)
  {
    AllRead(Decode(FRESH, consumed).decoder, r, |r.arriving|);
    CallDeliversIff(msgs, consumed, r);
  }

  /** A call of a peripheral whose stream is one of frames. */
  method OneCall(p: Peripheral, fd: Fd, ghost msgs: seq<seq<byte>>) returns (ret: int)
    requires p.Valid() && p.Stream(fd) == EncodeAll(msgs) && AllFit(msgs)
    modifies p, p.ring, p.ring.buf, p.decoder, p.decoder.rawBuf, fd
    ensures p.Valid() && p.Stream(fd) == EncodeAll(msgs) && p.broadcast <= msgs
    ensures var r, e := old(p.At(fd)), NextCall(old(p.consumed), old(p.At(fd)));
            && ret == e.ret && p.At(fd) == e.left
            && (p.broadcast == msgs && p.decoder.View() == FRESH
                <==> fd.stream == [] && !StopsAfterData(e) && (r.held == [] || PlanOf(r).ret >= 0))
  {
    CallDeliversIff(msgs, p.consumed, p.At(fd));
    CallKeepsStream(msgs, p.consumed, p.At(fd));
    SafeEncodeAll(msgs);
    ret := p.RecvHdlc(fd);
  }

  // ---------------------------------------------------------------- any number of calls

  /** What was decoded after some calls, and what they leave. */
  datatype Calls = Calls(consumed: seq<byte>, left: Read)

  function CallsFrom(consumed: seq<byte>, r: Read, n: nat): (c: Calls)
    requires Possible(r)
    ensures Possible(c.left)
    decreases n
  {
    if n == 0 then Calls(consumed, r)
    else
      var e := NextCall(consumed, r);
      CallsFrom(consumed + e.taken, e.left, n - 1)
  }

  lemma {:induction false} CallsKeepStream(msgs: seq<seq<byte>>, consumed: seq<byte>, r: Read, n: nat)
    requires OnStream(msgs, consumed, r)
    ensures OnStream(msgs, CallsFrom(consumed, r, n).consumed, CallsFrom(consumed, r, n).left)
    decreases n
  {
    if n > 0 {
      CallKeepsStream(msgs, consumed, r);
      CallsKeepStream(msgs, consumed + NextCall(consumed, r).taken, NextCall(consumed, r).left, n - 1);
    }
  }

  /** So after any number of calls on a stream of frames. */
  lemma CallsDeliver(msgs: seq<seq<byte>>, consumed: seq<byte>, r: Read, n: nat)
    requires OnStream(msgs, consumed, r)
    ensures Delivers(msgs, CallsFrom(consumed, r, n).consumed, CallsFrom(consumed, r, n).left)
  {
    var c := CallsFrom(consumed, r, n);
    CallsKeepStream(msgs, consumed, r, n);
    StreamDelivers(msgs, c.consumed, c.left);
  }

  /**
   At any moment of any run, on a stream of frames: what a peripheral has
   broadcast is a prefix of what was sent, and all of it exactly when neither
   ring nor descriptor has more of the stream.
   */
  lemma PeripheralDelivers(p: Peripheral, fd: Fd, msgs: seq<seq<byte>>)
    requires p.Valid() && p.Stream(fd) == EncodeAll(msgs)
    ensures p.broadcast <= msgs
    ensures p.broadcast == msgs <==> p.ring.Contents() == [] && fd.stream == []
    ensures p.broadcast == msgs ==> p.decoder.View() == FRESH
    ensures Safe(FRESH, p.Stream(fd)) <==> AllFit(msgs)
  {
    var left := p.ring.Contents() + fd.stream;
    ConcatAssociative(p.consumed, p.ring.Contents(), fd.stream);
    StreamRoundTrip(msgs, p.consumed, left);
    AllOutIff(msgs, p.consumed, left);
    SafeEncodeAll(msgs);
  }
}
