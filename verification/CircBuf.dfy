/**
 The receive ring of router/circ_buf.[ch], refined to a FIFO of 16383 octets,
 and the kernel's side of read().
 */
module CircBuf {
  import opened Bytes

  const HDLC_BUF_SIZE: nat := 16384

  /** An index that may have run up to the end of the buffer. */
  function Wrap(i: nat): nat {
    if i < HDLC_BUF_SIZE then i else 0
  }

  /** i & (HDLC_BUF_SIZE - 1) */
  function Masked(i: nat): (r: nat)
    ensures r < HDLC_BUF_SIZE
    ensures i <= HDLC_BUF_SIZE ==> r == Wrap(i)
  {
    i % 16384
  }

  /** Masking with HDLC_BUF_SIZE - 1 is reduction modulo HDLC_BUF_SIZE. */
  lemma MaskIsModulo(x: bv64)
    ensures x & 0x3fff == x % 0x4000
  {
  }

  /** CIRC_SPACE: size_t arithmetic wraps, then the mask is applied. */
  function CircSpace(head: nat, tail: nat): nat {
    Masked((tail - head - 1) % 0x1_0000_0000_0000_0000)
  }

  function CircSpaceToEnd(head: nat, tail: nat): nat
    requires head <= HDLC_BUF_SIZE
  {
    Min(CircSpace(head, tail), HDLC_BUF_SIZE - head)
  }

  /** What a ring with one slot kept empty can take, and what of it lies before the end of the buffer. */
  function FreeToEnd(head: nat, tail: nat): nat
    requires head < HDLC_BUF_SIZE && tail < HDLC_BUF_SIZE
  {
    Min(HDLC_BUF_SIZE - 1 - Held(head, tail), HDLC_BUF_SIZE - head)
  }

  /** The number of octets between tail and head. */
  function Held(head: nat, tail: nat): nat
    requires head < HDLC_BUF_SIZE && tail < HDLC_BUF_SIZE
  {
    if tail <= head then head - tail else head + HDLC_BUF_SIZE - tail
  }

  /** What wraps around in size_t still is the free space, one slot being kept empty. */
  lemma SpaceIsFree(head: nat, tail: nat)
    requires head < HDLC_BUF_SIZE && tail < HDLC_BUF_SIZE
    ensures CircSpace(head, tail) + Held(head, tail) == HDLC_BUF_SIZE - 1
    ensures CircSpaceToEnd(head, tail) == FreeToEnd(head, tail)
  {
    if tail <= head {
      var wrapped := 0x1_0000_0000_0000_0000 + tail - head - 1;
      assert (tail - head - 1) % 0x1_0000_0000_0000_0000 == wrapped;
      assert wrapped % 16384 == 16384 + tail - head - 1;
    }
  }

  /** The octets of a buffer from tail up to head, around the end. */
  function Between(buf: seq<byte>, head: nat, tail: nat): (q: seq<byte>)
    requires |buf| == HDLC_BUF_SIZE && head < HDLC_BUF_SIZE && tail < HDLC_BUF_SIZE
    ensures |q| == Held(head, tail)
  {
    if tail <= head then buf[tail..head] else buf[tail..] + buf[..head]
  }

  function Splice(buf: seq<byte>, off: nat, chunk: seq<byte>): (written: seq<byte>)
    requires off + |chunk| <= |buf|
    ensures |written| == |buf|
  {
    buf[..off] + chunk + buf[off + |chunk|..]
  }

  lemma SpliceParts(buf: seq<byte>, off: nat, chunk: seq<byte>)
    requires off + |chunk| <= |buf|
    ensures forall lo | off + |chunk| <= lo <= |buf| :: Splice(buf, off, chunk)[lo..] == buf[lo..]
    ensures forall lo | 0 <= lo <= off :: Splice(buf, off, chunk)[lo..off + |chunk|] == buf[lo..off] + chunk
  {
  }

  lemma WriteAppendsStraight(buf: seq<byte>, head: nat, tail: nat, chunk: seq<byte>)
    requires |buf| == HDLC_BUF_SIZE && tail <= head < HDLC_BUF_SIZE
    requires |chunk| <= FreeToEnd(head, tail)
    ensures Between(Splice(buf, head, chunk), Wrap(head + |chunk|), tail) == Between(buf, head, tail) + chunk
  {
    SpliceParts(buf, head, chunk);
    if head + |chunk| == HDLC_BUF_SIZE {
      assert Splice(buf, head, chunk)[tail..] == Splice(buf, head, chunk)[tail..HDLC_BUF_SIZE];
    }
  }

  lemma WriteAppendsWrapped(buf: seq<byte>, head: nat, tail: nat, chunk: seq<byte>)
    requires |buf| == HDLC_BUF_SIZE && head < tail < HDLC_BUF_SIZE
    requires |chunk| <= FreeToEnd(head, tail)
    ensures Between(Splice(buf, head, chunk), Wrap(head + |chunk|), tail) == Between(buf, head, tail) + chunk
  {
    var written, end := Splice(buf, head, chunk), head + |chunk|;
    assert written[tail..] == buf[tail..] && written[0..end] == buf[0..head] + chunk by {
      SpliceParts(buf, head, chunk);
    }
    assert buf[0..head] == buf[..head] && written[0..end] == written[..end];
    ConcatAssociative(buf[tail..], buf[..head], chunk);
  }

  lemma Advance(held: seq<byte>, arriving: seq<byte>, taken: nat, n: nat)
    requires taken + n <= |arriving|
    ensures (held + arriving[..taken]) + arriving[taken..][..n] == held + arriving[..taken + n]
    ensures arriving[taken..][n..] == arriving[taken + n..]
  {
  }

  /** Writing no more than the space to the end appends, and leaves what is held in place. */
  lemma WriteAppends(buf: seq<byte>, head: nat, tail: nat, chunk: seq<byte>)
    requires |buf| == HDLC_BUF_SIZE && head < HDLC_BUF_SIZE && tail < HDLC_BUF_SIZE
    requires |chunk| <= FreeToEnd(head, tail)
    ensures Between(Splice(buf, head, chunk), Wrap(head + |chunk|), tail) == Between(buf, head, tail) + chunk
  {
    if tail <= head {
      WriteAppendsStraight(buf, head, tail, chunk);
    } else {
      WriteAppendsWrapped(buf, head, tail, chunk);
    }
  }

  /** Stepping the tail drops the oldest octet. */
  lemma TakeDrops(buf: seq<byte>, head: nat, tail: nat)
    requires |buf| == HDLC_BUF_SIZE && head < HDLC_BUF_SIZE && tail < HDLC_BUF_SIZE && head != tail
    ensures Between(buf, head, tail)[0] == buf[tail]
    ensures Between(buf, head, Wrap(tail + 1)) == Between(buf, head, tail)[1..]
  {
  }

  // ---------------------------------------------------------------- reading from a descriptor

  /** How many octets a read delivers, or its negative errno. */
  function Delivered(space: nat, available: nat, answer: int): int {
    if answer < 0 then answer else Min(answer, Min(space, available))
  }

  /** The effect of circ_read(): octets appended, value returned, answers left. */
  datatype Transfer = Transfer(taken: nat, ret: int, answers: seq<int>)

  function CircRead(head: nat, tail: nat, available: nat, answers: seq<int>): (r: Transfer)
    requires head < HDLC_BUF_SIZE && tail < HDLC_BUF_SIZE
    ensures r.taken <= available && r.taken <= HDLC_BUF_SIZE - 1 - Held(head, tail)
    ensures r.ret <= 0
    decreases |answers|
  {
    var space := FreeToEnd(head, tail);
    if space == 0 then Transfer(0, 0, answers)
    else if answers == [] then Transfer(0, -EAGAIN, [])
    else
      var n := Delivered(space, available, answers[0]);
      if n < 0 then Transfer(0, n, answers[1..])
      else if n != space then Transfer(n, 0, answers[1..])
      else
        var rest := CircRead(Wrap(head + n), tail, available - n, answers[1..]);
        AddTaken(n, rest)
  }

  /** A read that filled the buffer to its end is followed by another. */
  lemma CircReadGoesOn(head: nat, tail: nat, available: nat, answers: seq<int>, space: nat)
    requires head < HDLC_BUF_SIZE && tail < HDLC_BUF_SIZE && space == FreeToEnd(head, tail) > 0
    requires answers != [] && Delivered(space, available, answers[0]) == space
    ensures CircRead(head, tail, available, answers)
         == AddTaken(space, CircRead(Wrap(head + space), tail, available - space, answers[1..]))
  {
  }

  function AddTaken(taken: nat, r: Transfer): Transfer {
    r.(taken := taken + r.taken)
  }

  /** The first read fills the buffer to its end, room is left at its start and the second read fails. */
  predicate FailsAfterData(head: nat, tail: nat, available: nat, answers: seq<int>) {
    && 2 <= tail <= head <= HDLC_BUF_SIZE
    && answers != [] && answers[0] >= HDLC_BUF_SIZE - head && available >= HDLC_BUF_SIZE - head
    && (|answers| == 1 || answers[1] < 0)
  }

  /**
   That is exactly when circ_read() fails after having appended octets. Its
   caller then returns without looking at those octets.
   */
  lemma FailureAfterData(head: nat, tail: nat, available: nat, answers: seq<int>)
    requires head < HDLC_BUF_SIZE && tail < HDLC_BUF_SIZE
    ensures var r := CircRead(head, tail, available, answers);
            r.ret < 0 && r.taken > 0 <==> FailsAfterData(head, tail, available, answers)
    ensures var r := CircRead(head, tail, available, answers);
            r.ret < 0 && r.taken > 0 ==> r.taken == HDLC_BUF_SIZE - head
  {
    var space := FreeToEnd(head, tail);
    if space > 0 && answers != [] && Delivered(space, available, answers[0]) == space {
      var head', rest := Wrap(head + space), answers[1..];
      var space' := FreeToEnd(head', tail);
      if space' > 0 && rest != [] && Delivered(space', available - space, rest[0]) == space' {
      }
    }
  }

  // ---------------------------------------------------------------- what a call returns

  /** The k-th answer, or that nothing is there once they ran out. */
  function AnswerAt(answers: seq<int>, k: nat): int {
    if k < |answers| then answers[k] else -EAGAIN
  }

  /** There is room, and the first read fails. */
  predicate FailsAtOnce(head: nat, tail: nat, answers: seq<int>)
    requires head < HDLC_BUF_SIZE && tail < HDLC_BUF_SIZE
  {
    Held(head, tail) < HDLC_BUF_SIZE - 1 && AnswerAt(answers, 0) < 0
  }

  /** What circ_read() returns: the errno of its first or its second read, or zero. */
  lemma ReturnsErrno(head: nat, tail: nat, available: nat, answers: seq<int>)
    requires head < HDLC_BUF_SIZE && tail < HDLC_BUF_SIZE
    ensures CircRead(head, tail, available, answers).ret
         == if FailsAtOnce(head, tail, answers) then AnswerAt(answers, 0)
            else if FailsAfterData(head, tail, available, answers) then AnswerAt(answers, 1)
            else 0
  {
    var space := FreeToEnd(head, tail);
    if space > 0 && answers != [] && Delivered(space, available, answers[0]) == space {
      var head', rest := Wrap(head + space), answers[1..];
      var space' := FreeToEnd(head', tail);
      CircReadGoesOn(head, tail, available, answers, space);
      if space' > 0 && rest != [] && Delivered(space', available - space, rest[0]) == space' {
        CircReadGoesOn(head', tail, available - space, rest, space');
        assert FreeToEnd(Wrap(head' + space'), tail) == 0;
      }
    }
  }

  /**
   Answers were used from the front, and ret is the errno of the last one used
   if that is one. If not, it is zero, or the answers ran out and the read that
   would block is what failed.
   */
  predicate LastDecides(was: seq<int>, now: seq<int>, ret: int) {
    && |now| <= |was| && now == was[|was| - |now|..]
    && (forall k | 0 <= k < |was| - |now| - 1 :: was[k] >= 0)
    && if |now| < |was| && was[|was| - |now| - 1] < 0 then ret == was[|was| - |now| - 1]
       else ret == 0 || (ret == -EAGAIN && now == [])
  }

  /** A call fails with the errno of the last answer it used, and with no other. */
  lemma {:induction false} LastAnswerDecides(head: nat, tail: nat, available: nat, answers: seq<int>)
    requires head < HDLC_BUF_SIZE && tail < HDLC_BUF_SIZE
    ensures LastDecides(answers, CircRead(head, tail, available, answers).answers, CircRead(head, tail, available, answers).ret)
    decreases |answers|
  {
    var space := FreeToEnd(head, tail);
    if space > 0 && answers != [] && Delivered(space, available, answers[0]) == space {
      CircReadGoesOn(head, tail, available, answers, space);
      LastAnswerDecides(Wrap(head + space), tail, available - space, answers[1..]);
      var r := CircRead(head, tail, available, answers);
      OneMoreUsed(answers, r.answers, r.ret);
    } else if space > 0 && answers != [] {
      OneUsed(answers);
    }
  }

  lemma OneUsed(was: seq<int>)
    requires was != []
    ensures LastDecides(was, was[1..], if was[0] < 0 then was[0] else 0)
  {
  }

  lemma OneMoreUsed(was: seq<int>, now: seq<int>, ret: int)
    requires was != [] && was[0] >= 0 && LastDecides(was[1..], now, ret)
    ensures LastDecides(was, now, ret)
  {
  }

  /** Only a full ring keeps circ_read() from consulting the descriptor. */
  lemma NoReadOnlyIfFull(head: nat, tail: nat, available: nat, answers: seq<int>)
    requires head < HDLC_BUF_SIZE && tail < HDLC_BUF_SIZE
    ensures var r := CircRead(head, tail, available, answers);
            r.ret < 0 || |r.answers| < |answers| || (r == Transfer(0, 0, answers) && Held(head, tail) == HDLC_BUF_SIZE - 1)
    decreases |answers|
  {
    var space := FreeToEnd(head, tail);
    if space > 0 && answers != [] && Delivered(space, available, answers[0]) == space {
      NoReadOnlyIfFull(Wrap(head + space), tail, available - space, answers[1..]);
    }
  }

  /**
   A non-blocking descriptor. The octets still to arrive and the kernel's
   answers to the reads to come are arbitrary: an answer is a negative errno or
   the most octets that read will deliver. Once they run out, reads would block.
   */
  class Fd {
    var stream: seq<byte>
    var answers: seq<int>

    constructor (stream: seq<byte>, answers: seq<int>)
      ensures this.stream == stream && this.answers == answers
    {
      this.stream, this.answers := stream, answers;
    }

    method Read(buf: array<byte>, off: nat, space: nat) returns (n: int)
      requires off + space <= buf.Length
      modifies this, buf
      ensures n == if old(answers) == [] then -EAGAIN else Delivered(space, |old(stream)|, old(answers)[0])
      ensures answers == if old(answers) == [] then [] else old(answers)[1..]
      ensures n < 0 ==> stream == old(stream) && buf[..] == old(buf[..])
      ensures n >= 0 ==> n <= |old(stream)| && stream == old(stream)[n..]
      ensures n >= 0 ==> buf[..] == Splice(old(buf[..]), off, old(stream)[..n])
    {
      if answers == [] {
        return -EAGAIN;
      }
      n := Delivered(space, |stream|, answers[0]);
      answers := answers[1..];
      if n >= 0 {
        forall i | 0 <= i < n {
          buf[off + i] := stream[i];
        }
        assert buf[..] == Splice(old(buf[..]), off, stream[..n]);
        stream := stream[n..];
      }
    }
  }

  class CircBuf {
    const buf: array<byte>
    var head: nat
    var tail: nat

    ghost predicate Valid()
      reads this
    {
      buf.Length == HDLC_BUF_SIZE && head < HDLC_BUF_SIZE && tail < HDLC_BUF_SIZE
    }

    /** The octets read from the descriptor and not yet taken, oldest first. */
    ghost function Contents(): (q: seq<byte>)
      requires Valid()
      reads this, buf
      ensures |q| == Held(head, tail)
    {
      Between(buf[..], head, tail)
    }

    constructor ()
      ensures Valid() && fresh(buf) && Contents() == []
    {
      buf := new byte[HDLC_BUF_SIZE];
      head, tail := 0, 0;
    }

    /** Takes the oldest octet. */
    method Take() returns (ch: byte)
      requires Valid() && Contents() != []
      modifies this`tail
      ensures Valid() && head == old(head)
      ensures ch == old(Contents())[0] && Contents() == old(Contents())[1..]
    {
      TakeDrops(buf[..], head, tail);
      ch := buf[tail];
      tail := Masked(tail + 1);
    }

    /** What circ_read() is about to do, given what the kernel is about to answer. */
    ghost function Plan(fd: Fd): Transfer
      requires Valid()
      reads this, fd
    {
      CircRead(head, tail, |fd.stream|, fd.answers)
    }

    /** One read into the space up to the end of the buffer. */
    method ReadToEnd(fd: Fd, space: nat) returns (n: int)
      requires Valid() && space == FreeToEnd(head, tail)
      modifies this`head, buf, fd
      ensures Valid() && tail == old(tail)
      ensures n == if old(fd.answers) == [] then -EAGAIN else Delivered(space, |old(fd.stream)|, old(fd.answers)[0])
      ensures fd.answers == if old(fd.answers) == [] then [] else old(fd.answers)[1..]
      ensures n < 0 ==> head == old(head) && Contents() == old(Contents()) && fd.stream == old(fd.stream)
      ensures n >= 0 ==> n <= |old(fd.stream)| && fd.stream == old(fd.stream)[n..]
      ensures n >= 0 ==> head == Wrap(old(head) + n) && Contents() == old(Contents()) + old(fd.stream)[..n]
    {
      ghost var before, arriving := buf[..], fd.stream;
      n := fd.Read(buf, head, space);
      if n >= 0 {
        WriteAppends(before, head, tail, arriving[..n]);
        head := Masked(head + n);
      }
    }

    /** One turn of the loop of circ_read(). */
    method ReadTurn(fd: Fd) returns (n: nat, ret: int, more: bool)
      requires Valid()
      modifies this`head, buf, fd
      ensures Valid() && tail == old(tail)
      ensures n <= |old(fd.stream)| && fd.stream == old(fd.stream)[n..]
      ensures Contents() == old(Contents()) + old(fd.stream)[..n]
      ensures old(Plan(fd)) == if more then AddTaken(n, Plan(fd)) else Transfer(n, ret, fd.answers)
      ensures more ==> |fd.answers| < |old(fd.answers)|
    {
      var space := CircSpaceToEnd(head, tail);
      SpaceIsFree(head, tail);
      if space == 0 {
        return 0, 0, false;
      }
      var got := ReadToEnd(fd, space);
      if got < 0 {
        return 0, got, false;
      }
      return got, 0, got == space;
    }

    /**
     circ_read(): reads until the ring is full, the descriptor is drained or
     fails. Whatever the kernel answers, octets are appended in order, none is
     lost or duplicated, and unread octets are not overwritten.
     */
    method Read(fd: Fd) returns (ret: int)
      requires Valid()
      modifies this`head, buf, fd
      ensures Valid() && tail == old(tail)
      ensures var r := old(Plan(fd));
              && ret == r.ret && fd.answers == r.answers
              && r.taken <= |old(fd.stream)| && fd.stream == old(fd.stream)[r.taken..]
              && Contents() == old(Contents()) + old(fd.stream)[..r.taken]
      ensures ret == if FailsAtOnce(old(head), tail, old(fd.answers)) then AnswerAt(old(fd.answers), 0)
                     else if FailsAfterData(old(head), tail, |old(fd.stream)|, old(fd.answers)) then AnswerAt(old(fd.answers), 1)
                     else 0
      ensures LastDecides(old(fd.answers), fd.answers, ret)
    {
      ReturnsErrno(head, tail, |fd.stream|, fd.answers);
      LastAnswerDecides(head, tail, |fd.stream|, fd.answers);
      ghost var plan, arriving, held := Plan(fd), fd.stream, Contents();
      ghost var taken: nat := 0;
      var more := true;
      ret := 0;
      while more
        invariant Valid() && tail == old(tail)
        invariant taken <= |arriving| && fd.stream == arriving[taken..]
        invariant Contents() == held + arriving[..taken]
        invariant plan == if more then AddTaken(taken, Plan(fd)) else Transfer(taken, ret, fd.answers)
        decreases more, |fd.answers|
      {
        var n;
        n, ret, more := ReadTurn(fd);
        Advance(held, arriving, taken, n);
        taken := taken + n;
      }
    }
  }
}
