/**
 Many calls of a client's receiver (router/dm.c). Each call takes a piece of the
 stream and decodes it from scratch, so what is handled depends on where the
 pieces end.
 */
module ClientRuns {
  import opened Bytes
  import opened Crc
  import opened Hdlc
  import opened Receive

  /** One decoder would be fresh wherever a piece ends. */
  predicate FreshAtEnds(pieces: seq<seq<byte>>) {
    forall k | 0 <= k <= |pieces| :: Decode(FRESH, Flatten(pieces[..k])).decoder == FRESH
  }

  lemma Prefixes<T>(s: seq<T>, k: nat, n: nat)
    requires k <= n <= |s|
    ensures s[..n][..k] == s[..k]
  {
  }

  lemma LastPiece(a: seq<seq<byte>>, b: seq<seq<byte>>)
    requires b != []
    ensures b == b[..|b| - 1] + [b[|b| - 1]] && a + b == (a + b[..|b| - 1]) + [b[|b| - 1]]
  {
  }

  lemma {:induction false} PiecesConcat(a: seq<seq<byte>>, b: seq<seq<byte>>)
    ensures HandledBy(a + b) == HandledBy(a) + HandledBy(b)
    ensures Flatten(a + b) == Flatten(a) + Flatten(b)
    decreases |b|
  {
    if b == [] {
      assert a + b == a;
    } else {
      var front, last := b[..|b| - 1], b[|b| - 1];
      LastPiece(a, b);
      PiecesConcat(a, front);
      HandledSnoc(a + front, last);
      HandledSnoc(front, last);
      ConcatAssociative(HandledBy(a), HandledBy(front), Decode(FRESH, last).messages);
      ConcatAssociative(Flatten(a), Flatten(front), last);
    }
  }

  /** Pieces that end where one decoder is fresh are handled as one stream. */
  lemma {:induction false} FreshAllAlong(pieces: seq<seq<byte>>)
    requires FreshAtEnds(pieces)
    ensures HandledBy(pieces) == Decode(FRESH, Flatten(pieces)).messages
    decreases |pieces|
  {
    if pieces != [] {
      var n := |pieces| - 1;
      forall k | 0 <= k <= n ensures Decode(FRESH, Flatten(pieces[..n][..k])).decoder == FRESH {
        Prefixes(pieces, k, n);
      }
      FreshAllAlong(pieces[..n]);
      DecodeConcat(FRESH, Flatten(pieces[..n]), pieces[n]);
      assert Decode(FRESH, Flatten(pieces[..n])).decoder == FRESH;
    }
  }

  // ---------------------------------------------------------------- counting octets

  /** Payload octets and two for the check sequence of each message. */
  function Weight(msgs: seq<seq<byte>>): nat {
    if msgs == [] then 0 else Weight(msgs[..|msgs| - 1]) + |msgs[|msgs| - 1]| + 2
  }

  /** Octets that are neither a flag nor an escape: each becomes one raw octet, escaped or not. */
  function Plain(s: seq<byte>): nat {
    if s == [] then 0 else Plain(s[..|s| - 1]) + if Special(s[|s| - 1]) then 0 else 1
  }

  lemma {:induction false} WeightConcat(a: seq<seq<byte>>, b: seq<seq<byte>>)
    ensures Weight(a + b) == Weight(a) + Weight(b)
    decreases |b|
  {
    if b == [] {
      assert a + b == a;
    } else {
      WeightConcat(a, b[..|b| - 1]);
      assert (a + b)[..|a + b| - 1] == a + b[..|b| - 1];
    }
  }

  lemma {:induction false} PlainConcat(a: seq<byte>, b: seq<byte>)
    ensures Plain(a + b) == Plain(a) + Plain(b)
    decreases |b|
  {
    if b == [] {
      assert a + b == a;
    } else {
      PlainConcat(a, b[..|b| - 1]);
      assert (a + b)[..|a + b| - 1] == a + b[..|b| - 1];
    }
  }

  /** Within its domain the decoder hands out or holds every raw octet. */
  lemma {:induction false} RawCounted(d: Decoder, s: seq<byte>)
    requires Safe(d, s)
    ensures Weight(Decode(d, s).messages) + |Decode(d, s).decoder.raw| == |d.raw| + Plain(s)
    decreases |s|
  {
    if s != [] {
      var front, ch := s[..|s| - 1], s[|s| - 1];
      RawCounted(d, front);
      var r := Decode(d, front);
      if ch == 0x7e && r.decoder.raw != [] {
        assert (r.messages + [Payload(r.decoder.raw)])[..|r.messages|] == r.messages;
      }
    }
  }

  /** Raw octets that a call takes and the next one does not know of. */
  function Dropped(pieces: seq<seq<byte>>): nat {
    if pieces == [] then 0
    else Dropped(pieces[..|pieces| - 1]) + |Decode(FRESH, pieces[|pieces| - 1]).decoder.raw|
  }

  lemma {:induction false} HandledOrDropped(pieces: seq<seq<byte>>)
    requires AllSafe(pieces)
    ensures Weight(HandledBy(pieces)) + Dropped(pieces) == Plain(Flatten(pieces))
    decreases |pieces|
  {
    if pieces != [] {
      var front, last := pieces[..|pieces| - 1], pieces[|pieces| - 1];
      HandledOrDropped(front);
      RawCounted(FRESH, last);
      WeightConcat(HandledBy(front), Decode(FRESH, last).messages);
      PlainConcat(Flatten(front), last);
    }
  }

  lemma {:induction false} NothingDropped(pieces: seq<seq<byte>>, k: nat)
    requires Dropped(pieces) == 0 && k < |pieces|
    ensures Decode(FRESH, pieces[k]).decoder.raw == []
    decreases |pieces|
  {
    if k < |pieces| - 1 {
      NothingDropped(pieces[..|pieces| - 1], k);
    }
  }

  // ---------------------------------------------------------------- a piece that ends in an escape

  lemma {:induction false} RawGrows(d: Decoder, s: seq<byte>)
    requires 0x7e !in s
    ensures |d.raw| <= |Decode(d, s).decoder.raw|
    decreases |s|
  {
    if s != [] {
      assert s[|s| - 1] in s;
      RawGrows(d, s[..|s| - 1]);
    }
  }

  lemma {:induction false} EscapeIs(d: Decoder, s: seq<byte>)
    requires d.escape == 0 || d.escape == 0x20
    ensures Decode(d, s).decoder.escape == 0 || Decode(d, s).decoder.escape == 0x20
    decreases |s|
  {
    if s != [] {
      EscapeIs(d, s[..|s| - 1]);
    }
  }

  /** Whatever follows, the first message begins with the first raw octet, if it has any. */
  lemma {:induction false} FirstMessage(x: byte, s: seq<byte>)
    ensures var r := Decode(Decoder([x], 0), s);
            if r.messages == [] then r.decoder.raw != [] && r.decoder.raw[0] == x
            else r.messages[0] == [] || r.messages[0][0] == x
    decreases |s|
  {
    if s != [] {
      FirstMessage(x, s[..|s| - 1]);
    }
  }

  lemma EmptyPayload()
    ensures Fcs([])[0] == 0
  {
    assert CrcOf(0xffff, []) == 0xffff;
  }

  /** A frame begins with its first octet, stuffed. */
  lemma FrameBegins(msg: seq<byte>)
    ensures var first := (msg + Fcs(msg))[0];
            |StuffOctet(first)| < |Encode(msg)| && Encode(msg)[..|StuffOctet(first)|] == StuffOctet(first)
  {
    var body := msg + Fcs(msg);
    assert body == [body[0]] + body[1..];
    StuffConcat([body[0]], body[1..]);
    assert [body[0]][..0] == [];
    assert Stuff([body[0]]) == [] + StuffOctet(body[0]);
    assert Encode(msg) == StuffOctet(body[0]) + (Stuff(body[1..]) + [0x7e]);
  }

  lemma FlagOnlyAtEnd(msg: seq<byte>, p: seq<byte>)
    requires p <= Encode(msg) && |p| < |Encode(msg)|
    ensures 0x7e !in p
  {
    FrameShape(msg);
    var front := Encode(msg)[..|Encode(msg)| - 1];
    forall i | 0 <= i < |p| ensures p[i] != 0x7e {
      assert p[i] == front[i];
    }
  }

  lemma RawAfter(first: byte, rest: seq<byte>)
    requires 0x7e !in rest
    ensures Decode(FRESH, StuffOctet(first) + rest).decoder.raw != []
  {
    DecodeStuffedOctet(FRESH, [], [], first);
    assert [] + StuffOctet(first) == StuffOctet(first) && [] + [first] == [first];
    DecodeConcat(FRESH, StuffOctet(first), rest);
    RawGrows(Decoder([first], 0), rest);
  }

  lemma SplitAt(frame: seq<byte>, head: seq<byte>, p: seq<byte>)
    requires |head| <= |p| && p <= frame && head <= frame
    ensures p == head + p[|head|..]
  {
  }

  /** Past the first octet of a frame, stuffed, there is a raw octet. */
  lemma PastFirst(msg: seq<byte>, p: seq<byte>)
    requires p <= Encode(msg) && |StuffOctet((msg + Fcs(msg))[0])| <= |p| < |Encode(msg)|
    ensures Decode(FRESH, p).decoder.raw != []
  {
    var first := (msg + Fcs(msg))[0];
    FrameBegins(msg);
    FlagOnlyAtEnd(msg, p);
    SplitAt(Encode(msg), StuffOctet(first), p);
    RawAfter(first, p[|StuffOctet(first)|..]);
  }

  /** Within a frame, an escape is pending before any raw octet only after the very first octet. */
  lemma EscapeAtStart(msg: seq<byte>, p: seq<byte>)
    requires p <= Encode(msg) && |p| < |Encode(msg)|
    requires Decode(FRESH, p).decoder == Decoder([], 0x20)
    ensures |p| == 1 && msg != [] && Special(msg[0]) && Encode(msg)[1] == msg[0] ^ 0x20
  {
    var first := (msg + Fcs(msg))[0];
    FrameBegins(msg);
    if |p| >= |StuffOctet(first)| { PastFirst(msg, p); }
    assert p != [];
    EmptyPayload();
    var stuffed := Encode(msg)[..|StuffOctet(first)|];
    assert stuffed[1] == Encode(msg)[1];
  }

  /** Where a stream of frames is cut, a whole number of frames and the beginning of another one come before. */
  lemma {:induction false} CutStream(msgs: seq<seq<byte>>, c: seq<byte>, b: seq<byte>) returns (j: nat, p: seq<byte>)
    requires c + b == EncodeAll(msgs) && b != []
    ensures j < |msgs| && c == EncodeAll(msgs[..j]) + p
    ensures p <= Encode(msgs[j]) && |p| < |Encode(msgs[j])| && b[0] == Encode(msgs[j])[|p|]
    decreases |msgs|
  {
    var n := |msgs| - 1;
    var front, last := EncodeAll(msgs[..n]), Encode(msgs[n]);
    assert Frames(msgs)[..n] == Frames(msgs[..n]);
    assert EncodeAll(msgs) == front + last;
    if |c| >= |front| {
      j, p := n, c[|front|..];
      assert c == (front + last)[..|c|];
      assert b[0] == (front + last)[|c|];
    } else {
      var b' := front[|c|..];
      assert c + b' == front by { assert c == (front + last)[..|c|]; }
      assert b'[0] == (front + last)[|c|] == b[0];
      j, p := CutStream(msgs[..n], c, b');
      Prefixes(msgs, j, n);
    }
  }

  /** The first octet of the pieces is the first octet of one that hands it out in its first message, or holds it. */
  lemma {:induction false} FirstHandled(pieces: seq<seq<byte>>)
    requires Flatten(pieces) != [] && !Special(Flatten(pieces)[0])
    requires forall i | 0 <= i < |pieces| :: Decode(FRESH, pieces[i]).decoder.raw == []
    ensures HandledBy(pieces) != []
    ensures HandledBy(pieces)[0] == [] || HandledBy(pieces)[0][0] == Flatten(pieces)[0]
    decreases |pieces|
  {
    var first, rest := pieces[0], pieces[1..];
    assert pieces == [first] + rest;
    PiecesConcat([first], rest);
    OnePiece(first);
    if first == [] {
      assert Flatten(pieces) == Flatten(rest);
      FirstHandled(rest);
      assert Decode(FRESH, first).messages == [];
    } else {
      StartsWith(first);
    }
  }

  lemma OnePiece(piece: seq<byte>)
    ensures HandledBy([piece]) == Decode(FRESH, piece).messages && Flatten([piece]) == piece
  {
    assert [piece][..0] == [];
    assert HandledBy([]) == [] && Flatten([]) == [];
  }

  lemma StartsWith(piece: seq<byte>)
    requires piece != [] && !Special(piece[0]) && Decode(FRESH, piece).decoder.raw == []
    ensures var r := Decode(FRESH, piece);
            r.messages != [] && (r.messages[0] == [] || r.messages[0][0] == piece[0])
  {
    var x := piece[0];
    assert piece == [x] + piece[1..];
    DecodePlain(FRESH, [], [], x);
    assert [] + [x] == [x];
    DecodeConcat(FRESH, [x], piece[1..]);
    FirstMessage(x, piece[1..]);
  }

  lemma ChangedByEscape(x: byte)
    requires Special(x)
    ensures x ^ 0x20 != x && !Special(x ^ 0x20)
  {
  }

  /** A piece that ends in an escape before any raw octet makes the next message come out wrong. */
  lemma EscapeLost(msgs: seq<seq<byte>>, before: seq<seq<byte>>, after: seq<seq<byte>>)
    requires Flatten(before) + Flatten(after) == EncodeAll(msgs)
    requires HandledBy(before) == Decode(FRESH, Flatten(before)).messages
    requires Decode(FRESH, Flatten(before)).decoder == Decoder([], 0x20)
    requires forall i | 0 <= i < |after| :: Decode(FRESH, after[i]).decoder.raw == []
    ensures HandledBy(before) + HandledBy(after) != msgs
  {
    var c, b := Flatten(before), Flatten(after);
    DecodeEncodeAll(msgs);
    assert b == [] ==> c + b == c;
    if b != [] {
      var j, p := CutStream(msgs, c, b);
      DecodeEncodeAll(msgs[..j]);
      DecodeConcat(FRESH, EncodeAll(msgs[..j]), p);
      FlagOnlyAtEnd(msgs[j], p);
      NoFlagNoMessage(FRESH, p);
      EscapeAtStart(msgs[j], p);
      ChangedByEscape(msgs[j][0]);
      FirstHandled(after);
      assert HandledBy(before) == msgs[..j];
      assert (HandledBy(before) + HandledBy(after))[j] == HandledBy(after)[0];
    }
  }

  // ---------------------------------------------------------------- the exact condition

  lemma AllSent(msgs: seq<seq<byte>>, pieces: seq<seq<byte>>)
    requires AllSafe(pieces) && Flatten(pieces) == EncodeAll(msgs) && HandledBy(pieces) == msgs
    requires Safe(FRESH, EncodeAll(msgs))
    ensures Dropped(pieces) == 0
  {
    HandledOrDropped(pieces);
    DecodeEncodeAll(msgs);
    RawCounted(FRESH, EncodeAll(msgs));
  }

  /** If all is handled, the next piece leaves one decoder fresh too. */
  lemma NextEndFresh(msgs: seq<seq<byte>>, before: seq<seq<byte>>, piece: seq<byte>, after: seq<seq<byte>>)
    requires Flatten(before) + piece + Flatten(after) == EncodeAll(msgs)
    requires HandledBy(before) + Decode(FRESH, piece).messages + HandledBy(after) == msgs
    requires FreshAtEnds(before) && Decode(FRESH, piece).decoder.raw == []
    requires forall i | 0 <= i < |after| :: Decode(FRESH, after[i]).decoder.raw == []
    ensures Decode(FRESH, Flatten(before) + piece).decoder == FRESH
  {
    FreshAllAlong(before);
    assert before[..|before|] == before;
    DecodeConcat(FRESH, Flatten(before), piece);
    EscapeIs(FRESH, piece);
    if Decode(FRESH, piece).decoder == Decoder([], 0x20) {
      HandledSnoc(before, piece);
      EscapeLost(msgs, before + [piece], after);
    }
  }

  lemma PrefixOfMore(before: seq<seq<byte>>, piece: seq<byte>, k: nat)
    requires k <= |before| + 1
    ensures (before + [piece])[..k] == if k <= |before| then before[..k] else before + [piece]
  {
  }

  lemma FreshAtOneMore(before: seq<seq<byte>>, piece: seq<byte>)
    requires FreshAtEnds(before) && Decode(FRESH, Flatten(before) + piece).decoder == FRESH
    ensures FreshAtEnds(before + [piece])
  {
    HandledSnoc(before, piece);
    forall k | 0 <= k <= |before + [piece]|
      ensures Decode(FRESH, Flatten((before + [piece])[..k])).decoder == FRESH
    {
      PrefixOfMore(before, piece, k);
    }
  }

  lemma PiecesAround(pieces: seq<seq<byte>>, k: nat)
    requires k < |pieces|
    ensures pieces[..k + 1] == pieces[..k] + [pieces[k]]
    ensures pieces == pieces[..k + 1] + pieces[k + 1..]
  {
  }

  lemma Around(pieces: seq<seq<byte>>, k: nat)
    requires k < |pieces|
    ensures pieces[..k + 1] == pieces[..k] + [pieces[k]]
    ensures Flatten(pieces) == Flatten(pieces[..k]) + pieces[k] + Flatten(pieces[k + 1..])
    ensures HandledBy(pieces) == HandledBy(pieces[..k]) + Decode(FRESH, pieces[k]).messages + HandledBy(pieces[k + 1..])
  {
    PiecesAround(pieces, k);
    PiecesConcat(pieces[..k + 1], pieces[k + 1..]);
    HandledSnoc(pieces[..k], pieces[k]);
  }

  lemma {:induction false} FreshUpTo(msgs: seq<seq<byte>>, pieces: seq<seq<byte>>, k: nat)
    requires Flatten(pieces) == EncodeAll(msgs) && HandledBy(pieces) == msgs && Dropped(pieces) == 0
    requires k <= |pieces|
    ensures FreshAtEnds(pieces[..k])
    decreases k
  {
    if k > 0 {
      var before, piece, after := pieces[..k - 1], pieces[k - 1], pieces[k..];
      FreshUpTo(msgs, pieces, k - 1);
      Around(pieces, k - 1);
      NothingDropped(pieces, k - 1);
      forall i | 0 <= i < |after| ensures Decode(FRESH, after[i]).decoder.raw == [] {
        NothingDropped(pieces, k + i);
      }
      NextEndFresh(msgs, before, piece, after);
      FreshAtOneMore(before, piece);
    }
  }

  /**
   A stream of frames that fit, taken in pieces by any number of calls: the
   decoder stays in its domain and the calls handle just the messages that were
   sent exactly when each piece ends where one decoder would be fresh, that is,
   at the end of a frame.
   */
  lemma CallsDeliverIff(msgs: seq<seq<byte>>, pieces: seq<seq<byte>>)
    requires Flatten(pieces) == EncodeAll(msgs) && AllFit(msgs)
    ensures AllSafe(pieces) && HandledBy(pieces) == msgs <==> FreshAtEnds(pieces)
  {
    DecodeEncodeAll(msgs);
    SafeEncodeAll(msgs);
    if AllSafe(pieces) && HandledBy(pieces) == msgs {
      AllSent(msgs, pieces);
      FreshUpTo(msgs, pieces, |pieces|);
      assert pieces[..|pieces|] == pieces;
    }
    if FreshAtEnds(pieces) {
      FreshAllAlong(pieces);
      forall i | 0 <= i < |pieces| ensures Safe(FRESH, pieces[i]) {
        SafeFromFresh(pieces, i);
      }
    }
  }

  /** A piece that starts where one decoder is fresh is within the domain if the stream is. */
  lemma SafeFromFresh(pieces: seq<seq<byte>>, i: nat)
    requires i < |pieces| && Safe(FRESH, Flatten(pieces)) && Decode(FRESH, Flatten(pieces[..i])).decoder == FRESH
    ensures Safe(FRESH, pieces[i])
  {
    Around(pieces, i);
    AlongConcat(OctetFits, FRESH, Flatten(pieces[..i]) + pieces[i], Flatten(pieces[i + 1..]));
    AlongConcat(OctetFits, FRESH, Flatten(pieces[..i]), pieces[i]);
  }

  /** So for a client, after any number of calls that took the whole of a stream of frames. */
  lemma ClientDelivers(c: Client, msgs: seq<seq<byte>>)
    requires c.Valid() && Flatten(c.pieces) == EncodeAll(msgs) && AllFit(msgs)
    ensures AllSafe(c.pieces) && c.handled == msgs <==> FreshAtEnds(c.pieces)
  {
    CallsDeliverIff(msgs, c.pieces);
  }

  // ---------------------------------------------------------------- pieces outside the decoder's domain

  /** A piece closes a frame of which it has one raw octet. */
  predicate OneRawOctet(piece: seq<byte>) {
    0x7e in piece && Plain(piece[..FrameEnd(piece)]) == 1
  }

  /** Octets without a flag are within the domain if the raw octets they make fit; then there are as many as plain octets. */
  lemma {:induction false} FlaglessSafe(s: seq<byte>)
    requires 0x7e !in s && Plain(s) <= 16384
    ensures Safe(FRESH, s) && |Decode(FRESH, s).decoder.raw| == Plain(s)
    decreases |s|
  {
    if s != [] {
      assert s[|s| - 1] in s;
      FlaglessSafe(s[..|s| - 1]);
    }
  }

  /** The end of a frame is within the domain of a fresh decoder exactly when it does not have one raw octet, and leaves it fresh. */
  lemma FrameEndSafe(x: seq<byte>)
    requires 0x7e !in x && Plain(x) <= 16384
    ensures Safe(FRESH, x + [0x7e]) <==> Plain(x) != 1
    ensures Plain(x) != 0 ==> Decode(FRESH, x + [0x7e]).decoder == FRESH
    ensures Plain(x + [0x7e]) == Plain(x)
  {
    FlaglessSafe(x);
    AlongSnoc(OctetFits, FRESH, x, 0x7e);
    DecodeSnoc(FRESH, x, 0x7e);
    assert (x + [0x7e])[..|x|] == x;
  }

  /** A frame is its flagless front, which makes the raw octets of payload and check sequence, and a flag. */
  lemma FrontOf(msg: seq<byte>) returns (front: seq<byte>)
    requires |msg| + 2 <= 16384
    ensures Encode(msg) == front + [0x7e] && 0x7e !in front && Plain(front) == |msg| + 2
    ensures front != [] && !Special(front[|front| - 1])
  {
    front := Encode(msg)[..|Encode(msg)| - 1];
    FrameShape(msg);
    SafeFrame(msg);
    DecodeEncode(msg);
    RawCounted(FRESH, Encode(msg));
    WeightOne(msg);
    PlainConcat(front, [0x7e]);
    PlainOne(0x7e);
    assert Transparent(front);
    assert front[|front| - 1] != 0x7e;
  }

  lemma WeightOne(msg: seq<byte>)
    ensures Weight([msg]) == |msg| + 2
  {
    assert [msg][..0] == [];
  }

  lemma PlainOne(ch: byte)
    ensures Plain([ch]) == if Special(ch) then 0 else 1
  {
    assert [ch][..0] == [];
  }

  /** A suffix of a frame's front has a plain octet unless it is empty. */
  lemma SuffixHasPlain(front: seq<byte>, x: seq<byte>)
    requires |x| <= |front| && x == front[|front| - |x|..] && front != [] && !Special(front[|front| - 1])
    ensures Plain(x) <= Plain(front) && (x != [] ==> Plain(x) > 0)
  {
    assert front == front[..|front| - |x|] + x;
    PlainConcat(front[..|front| - |x|], x);
  }

  /** A stream of frames from the middle of one on. */
  lemma StreamFromMiddle(msgs: seq<seq<byte>>, c: seq<byte>, b: seq<byte>) returns (x: seq<byte>, later: seq<seq<byte>>)
    requires c + b == EncodeAll(msgs) && b != [] && AllFit(msgs)
    ensures b == x + [0x7e] + EncodeAll(later) && AllFit(later)
    ensures 0x7e !in x && Plain(x) <= 16384 && (x != [] ==> Plain(x) > 0)
  {
    var j, p := CutStream(msgs, c, b);
    var front := FrontOf(msgs[j]);
    x, later := front[|p|..], msgs[j + 1..];
    FramesAround(msgs, j);
    SuffixHasPlain(front, x);
    CutAfter(EncodeAll(msgs[..j]), p, front, EncodeAll(later), c, b);
  }

  lemma FramesAround(msgs: seq<seq<byte>>, j: nat)
    requires j < |msgs|
    ensures EncodeAll(msgs) == EncodeAll(msgs[..j]) + Encode(msgs[j]) + EncodeAll(msgs[j + 1..])
  {
    var frames := Frames(msgs);
    Around(frames, j);
    assert frames[..j] == Frames(msgs[..j]) && frames[j + 1..] == Frames(msgs[j + 1..]);
  }

  lemma CutAfter(earlier: seq<byte>, p: seq<byte>, front: seq<byte>, later: seq<byte>, c: seq<byte>, b: seq<byte>)
    requires c == earlier + p && |p| <= |front| && p <= front + [0x7e]
    requires c + b == earlier + (front + [0x7e]) + later
    ensures b == front[|p|..] + [0x7e] + later
  {
    assert b == (c + b)[|c|..];
    assert earlier + (front + [0x7e]) + later == c + (front[|p|..] + [0x7e] + later) by {
      assert front == p + front[|p|..];
    }
  }

  /**
   A piece of a stream of frames that fit is within the decoder's domain exactly
   when it does not close a frame of which it has one raw octet. On such a frame
   the program steps back before its buffer, for a length of SIZE_MAX.
   */
  lemma SafePieceIff(msgs: seq<seq<byte>>, before: seq<byte>, piece: seq<byte>, after: seq<byte>)
    requires before + piece + after == EncodeAll(msgs) && AllFit(msgs)
    ensures Safe(FRESH, piece) <==> !OneRawOctet(piece)
  {
    if piece != [] {
      ConcatAssociative(before, piece, after);
      var x, later := StreamFromMiddle(msgs, before, piece + after);
      if |piece| <= |x| {
        ConcatAssociative(x, [0x7e], EncodeAll(later));
        PieceWithin(piece, after, x, [0x7e] + EncodeAll(later));
      } else {
        PieceBeyond(piece, after, x, EncodeAll(later));
        SafeEncodeAll(later);
        SafeAcross(x, piece[|x| + 1..], EncodeAll(later));
      }
    }
  }

  lemma PieceWithin(piece: seq<byte>, after: seq<byte>, x: seq<byte>, rest: seq<byte>)
    requires |piece| <= |x| && 0x7e !in x && Plain(x) <= 16384
    requires piece + after == x + rest
    ensures Safe(FRESH, piece) && 0x7e !in piece
  {
    assert piece == x[..|piece|] by {
      assert forall i | 0 <= i < |piece| :: piece[i] == (piece + after)[i] == (x + rest)[i] == x[i];
    }
    assert x == piece + x[|piece|..];
    PlainConcat(piece, x[|piece|..]);
    FlaglessSafe(piece);
  }

  lemma PieceBeyond(piece: seq<byte>, after: seq<byte>, x: seq<byte>, rest: seq<byte>)
    requires |piece| > |x| && 0x7e !in x && piece + after == x + [0x7e] + rest
    ensures piece == x + [0x7e] + piece[|x| + 1..] && piece[|x| + 1..] <= rest
    ensures 0x7e in piece && FrameEnd(piece) == |x| + 1
  {
    var all, y := x + [0x7e] + rest, piece[|x| + 1..];
    assert forall i | 0 <= i < |piece| :: piece[i] == (piece + after)[i] == all[i];
    assert piece[..|x| + 1] == x + [0x7e];
    assert forall i | 0 <= i < |y| :: y[i] == all[|x| + 1 + i] == rest[i];
    assert piece[|x|] == 0x7e;
    assert forall i | 0 <= i < |x| :: piece[i] == x[i] && x[i] in x;
    EndsAtFlag(piece, |x|);
  }

  lemma {:induction false} EndsAtFlag(piece: seq<byte>, n: nat)
    requires n < |piece| && piece[n] == 0x7e && forall i | 0 <= i < n :: piece[i] != 0x7e
    ensures FrameEnd(piece) == n + 1
    decreases n
  {
    if n > 0 {
      assert piece[0] != 0x7e && piece[1..][n - 1] == piece[n];
      EndsAtFlag(piece[1..], n - 1);
    }
  }

  lemma SafeAcross(x: seq<byte>, y: seq<byte>, rest: seq<byte>)
    requires 0x7e !in x && Plain(x) <= 16384 && (x != [] ==> Plain(x) > 0)
    requires y <= rest && Safe(FRESH, rest)
    ensures Safe(FRESH, x + [0x7e] + y) <==> Plain(x + [0x7e]) != 1
  {
    FrameEndSafe(x);
    AlongConcat(OctetFits, FRESH, x + [0x7e], y);
    assert rest == y + rest[|y|..];
    AlongConcat(OctetFits, FRESH, y, rest[|y|..]);
    if x == [] {
      DecodeSnoc(FRESH, [], 0x7e);
    }
  }

  /** So calls stay in the domain exactly when none of their pieces closes a frame of which it has one raw octet. */
  lemma AllSafeIff(msgs: seq<seq<byte>>, pieces: seq<seq<byte>>)
    requires Flatten(pieces) == EncodeAll(msgs) && AllFit(msgs)
    ensures AllSafe(pieces) <==> forall i | 0 <= i < |pieces| :: !OneRawOctet(pieces[i])
  {
    forall i | 0 <= i < |pieces| ensures Safe(FRESH, pieces[i]) <==> !OneRawOctet(pieces[i]) {
      Around(pieces, i);
      SafePieceIff(msgs, Flatten(pieces[..i]), pieces[i], Flatten(pieces[i + 1..]));
    }
  }

  /** The shortest stream that can be cut so: the frame of an empty message, before its last raw octet. */
  lemma CutBeforeLastRawOctet()
    ensures Flatten([[0x00], [0x00, 0x7e]]) == EncodeAll([[]]) && AllFit([[]])
    ensures !AllSafe([[0x00], [0x00, 0x7e]])
  {
    EmptyFrame();
    TwoPieces([0x00], [0x00, 0x7e]);
    OnePiece(Encode([]));
    assert Frames([[]]) == [Encode([])];
    UnsafeEnd();
    assert [[0x00], [0x00, 0x7e]][1] == [0x00, 0x7e];
  }

  lemma TwoPieces(a: seq<byte>, b: seq<byte>)
    ensures Flatten([a, b]) == a + b
  {
    OnePiece(a);
    HandledSnoc([a], b);
    assert [a] + [b] == [a, b];
  }

  lemma UnsafeEnd()
    ensures !Safe(FRESH, [0x00, 0x7e])
  {
    PlainOne(0x00);
    FrameEndSafe([0x00]);
    assert [0x00] + [0x7e] == [0x00, 0x7e];
  }

  lemma EmptyFrame()
    ensures Encode([]) == [0x00, 0x00, 0x7e]
  {
    assert CrcOf(0xffff, []) == 0xffff;
    var fcs: seq<byte> := [0x00, 0x00];
    assert Fcs([]) == fcs;
    assert [] + fcs == fcs && fcs[..1] == [0x00] && [0x00][..0] == [];
    var one: seq<byte> := [0x00];
    assert Stuff(one) == Stuff(one[..0]) + StuffOctet(0x00);
    assert Stuff(fcs) == Stuff(fcs[..1]) + StuffOctet(0x00);
  }
}
