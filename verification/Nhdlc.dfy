/**
 The framing without escapes: a header with a 16-bit length, the payload, and
 a closing control character (router/diag.c, router/peripheral-rpmsg.c,
 router/peripheral-qrtr.c).
 */
module Nhdlc {
  import opened Bytes
  import opened LittleEndian

  const HEADER: nat := 4

  /** The buffers that a frame is read into. */
  const APPS_BUF_SIZE: nat := 16384

  /** The layout of a frame, whatever octets are made of. */
  function FrameOf<T>(control: T, version: T, low: T, high: T, payload: seq<T>): (s: seq<T>)
    ensures |s| == HEADER + |payload| + 1
  {
    [control, version, low, high] + payload + [control]
  }

  /** What queue_push_nhdlc_flow() queues. The length is cut to its 16-bit field. */
  function Frame(payload: seq<uint8>): (s: seq<uint8>)
    ensures |s| == HEADER + |payload| + 1
  {
    FrameOf(0x7e, 1, |payload| % 0x100, |payload| / 0x100 % 0x100, payload)
  }

  /** The length field of a frame. */
  function Length(buf: seq<uint8>): (length: nat)
    requires |buf| >= HEADER
    ensures length < 0x1_0000
  {
    ToLeLe(buf[2..4]);
    Limits();
    Le(buf[2..4])
  }

  /** The payload of the frame that a buffer starts with, if it is in order. */
  function Unframe(buf: seq<uint8>): Option<seq<uint8>> {
    if |buf| < HEADER || buf[0] != 0x7e || buf[1] != 1 then None
    else if HEADER + Length(buf) + 1 > |buf| || buf[HEADER + Length(buf)] != 0x7e then None
    else Some(buf[HEADER..HEADER + Length(buf)])
  }

  /** A read takes no more than the buffer holds. */
  function Received(arrived: seq<uint8>, size: nat): seq<uint8> { arrived[..Min(|arrived|, size)] }

  lemma LengthOfFrame(payload: seq<uint8>, more: seq<uint8>)
    ensures Length(Frame(payload) + more) == |payload| % 0x1_0000
  {
    var low, high := |payload| % 0x100, |payload| / 0x100 % 0x100;
    assert (Frame(payload) + more)[2..4] == [low, high];
    assert [low, high][1..] == [high] && [high][1..] == [];
    assert Le([high]) == high;
    LowAndHigh(|payload|);
  }

  lemma LowAndHigh(n: nat)
    ensures n % 0x100 + 0x100 * (n / 0x100 % 0x100) == n % 0x1_0000
  {
    var q := n / 0x100;
    assert n == n % 0x100 + 0x100 * q && q == q % 0x100 + 0x100 * (q / 0x100);
    LowPart(q / 0x100, q % 0x100, n % 0x100);
  }

  lemma LowPart(p: nat, s: nat, r: nat)
    requires s < 0x100 && r < 0x100
    ensures (0x1_0000 * p + 0x100 * s + r) % 0x1_0000 == 0x100 * s + r
  {
  }

  lemma FrameParts(payload: seq<uint8>, more: seq<uint8>)
    ensures var buf := Frame(payload) + more;
            && buf[0] == 0x7e && buf[1] == 1
            && buf[HEADER..HEADER + |payload|] == payload && buf[HEADER + |payload|] == 0x7e
  {
  }

  /** A frame is taken for its payload, whatever follows it in the buffer, exactly when the length of the payload fits its field. */
  lemma UnframeFrameIff(payload: seq<uint8>, more: seq<uint8>)
    ensures Unframe(Frame(payload) + more) == Some(payload) <==> |payload| < 0x1_0000
  {
    var buf := Frame(payload) + more;
    FrameParts(payload, more);
    LengthOfFrame(payload, more);
    UnframeIs(buf, |payload|, payload);
  }

  lemma UnframeIs(buf: seq<uint8>, n: nat, payload: seq<uint8>)
    requires HEADER + n < |buf| && n == |payload| && buf[0] == 0x7e && buf[1] == 1 && Length(buf) == n % 0x1_0000
    requires buf[HEADER..HEADER + n] == payload && buf[HEADER + n] == 0x7e
    ensures Unframe(buf) == Some(payload) <==> n < 0x1_0000
  {
    if n >= 0x1_0000 && Unframe(buf).Some? {
      assert |Unframe(buf).value| == n % 0x1_0000 < n;
    }
  }

  /** A frame that was cut anywhere is refused. */
  lemma CutFrameRefused(payload: seq<uint8>, k: nat)
    requires |payload| < 0x1_0000 && k < |Frame(payload)|
    ensures Unframe(Frame(payload)[..k]).None?
  {
    LengthOfFrame(payload, []);
    assert Frame(payload) + [] == Frame(payload);
    if k >= HEADER {
      assert Frame(payload)[..k][2..4] == Frame(payload)[2..4];
    }
  }

  lemma WholeOrCut(frame: seq<uint8>, more: seq<uint8>, size: nat)
    ensures |frame| <= size ==> exists rest :: Received(frame + more, size) == frame + rest
    ensures size < |frame| ==> Received(frame + more, size) == frame[..size]
  {
    if |frame| <= size {
      assert Received(frame + more, size) == frame + Received(more, size - |frame|);
    }
  }

  /**
   A frame that arrives, with anything after it, is taken for its payload by a
   read into a buffer exactly when its length fits its field and all of it fits
   the buffer; what is too long for the buffer only is refused.
   */
  lemma TakenIff(payload: seq<uint8>, more: seq<uint8>, size: nat)
    ensures Unframe(Received(Frame(payload) + more, size)) == Some(payload)
       <==> |payload| < 0x1_0000 && HEADER + |payload| + 1 <= size
    ensures |payload| < 0x1_0000 && HEADER + |payload| + 1 > size ==>
              Unframe(Received(Frame(payload) + more, size)).None?
  {
    WholeOrCut(Frame(payload), more, size);
    if |Frame(payload)| <= size {
      var rest :| Received(Frame(payload) + more, size) == Frame(payload) + rest;
      UnframeFrameIff(payload, rest);
    } else if |payload| < 0x1_0000 {
      CutFrameRefused(payload, size);
    }
  }

  /** The longest payload that reaches the clients from a command channel. */
  lemma LongestPayload(payload: seq<uint8>, more: seq<uint8>)
    ensures Unframe(Received(Frame(payload) + more, APPS_BUF_SIZE)) == Some(payload) <==> |payload| <= 16379
  {
    TakenIff(payload, more, APPS_BUF_SIZE);
  }

  // ---------------------------------------------------------------- the command channel

  /** How far into memory the tests of a frame may look. */
  const REACH: nat := HEADER + 0xffff + 1

  /** The result of read() as it is compared with a size_t. */
  function AsSize(len: int): (size: nat)
    requires -1 <= len
    ensures len < 0 ==> size > REACH
  {
    if len < 0 then 0x1_0000_0000_0000_0000 + len else len
  }

  /**
   What diag_cmd_recv() broadcasts, if anything, of the memory from the start
   of its buffer on, after a read that returned len. A failed read does not end
   the call.
   */
  function CmdRecv(memory: seq<uint8>, len: int): Option<seq<uint8>>
    requires REACH <= |memory| && -1 <= len
  {
    if memory[0] != 0x7e || memory[1] != 1 then None
    else if HEADER + Length(memory) + 1 > AsSize(len) then None
    else if memory[HEADER + Length(memory)] != 0x7e then None
    else Some(memory[HEADER..HEADER + Length(memory)])
  }

  /** After a read that worked, what was in the buffer before does not matter. */
  lemma ReadWorked(received: seq<uint8>, stale: seq<uint8>)
    requires |received| + |stale| >= REACH
    ensures CmdRecv(received + stale, |received|) == Unframe(received)
  {
    var memory := received + stale;
    if |received| >= HEADER {
      assert memory[2..4] == received[2..4];
      if HEADER + Length(received) + 1 <= |received| {
        assert memory[HEADER..HEADER + Length(received)] == received[HEADER..HEADER + Length(received)];
      }
    }
  }

  lemma TwoOctets(buf: seq<uint8>)
    requires HEADER <= |buf|
    ensures Length(buf) % 0x100 == buf[2] && Length(buf) / 0x100 % 0x100 == buf[3]
  {
    assert buf[2..4][0] == buf[2] && buf[2..4][1..] == [buf[3]] && [buf[3]][1..] == [];
    assert Le([buf[3]]) == buf[3];
    var low: nat, high: nat := buf[2], buf[3];
    assert Length(buf) == low + 0x100 * high;
    Digits(buf[2], buf[3]);
  }

  lemma Digits(low: uint8, high: uint8)
    ensures (low + 0x100 * high) % 0x100 == low && (low + 0x100 * high) / 0x100 % 0x100 == high
  {
  }

  /** What is taken for a payload is all of a frame that the buffer starts with. */
  lemma UnframedIsFrame(buf: seq<uint8>, payload: seq<uint8>)
    requires Unframe(buf) == Some(payload)
    ensures |payload| < 0x1_0000 && |Frame(payload)| <= |buf|
    ensures buf == Frame(payload) + buf[|Frame(payload)|..]
  {
    TwoOctets(buf);
    var frame, n := Frame(payload), |payload|;
    assert buf == buf[..HEADER] + buf[HEADER..HEADER + n] + [buf[HEADER + n]] + buf[HEADER + n + 1..];
    assert buf[..HEADER] == [0x7e, 1] + [n % 0x100, n / 0x100 % 0x100];
  }

  /**
   After a read that failed, a payload is broadcast exactly when the memory
   still starts with its frame, as an earlier call may have left it there.
   */
  lemma ReadFailedIff(memory: seq<uint8>, payload: seq<uint8>)
    requires REACH <= |memory|
    ensures CmdRecv(memory, -1) == Some(payload)
       <==> |payload| < 0x1_0000 && exists rest :: memory == Frame(payload) + rest
  {
    assert CmdRecv(memory, -1) == Unframe(memory);
    if Unframe(memory) == Some(payload) {
      UnframedIsFrame(memory, payload);
    }
    if |payload| < 0x1_0000 && exists rest :: memory == Frame(payload) + rest {
      var rest :| memory == Frame(payload) + rest;
      UnframeFrameIff(payload, rest);
    }
  }
}
