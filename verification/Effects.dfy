/**
 What each control packet changes, and what it leaves alone, with the commands,
 sizes and feature bits in numbers (router/diag_cntl.c, router/diag.h).
 */
module Effects {
  import opened Bytes
  import opened BitOps
  import opened ControlStream
  import opened ControlMessages
  import opened Control
  import Registrations
  import DiagIds

  // ---------------------------------------------------------------- features

  lemma {:induction false} NoBits(i: nat)
    ensures !HasBit(0, i)
    decreases i
  {
    if i > 0 { NoBits(i - 1); }
  }

  /** Adding a power of two above a number sets just that bit. */
  lemma {:induction false} AddBit(x: nat, k: nat, i: nat)
    requires x < Shl(1, k)
    ensures HasBit(x + Shl(1, k), i) <==> i == k || HasBit(x, i)
    decreases k
  {
    if k == 0 {
      if i > 0 { NoBits(i - 1); }
      NoBits(i);
    } else {
      assert Shl(1, k) == 2 * Shl(1, k - 1);
      assert (x + Shl(1, k)) / 2 == x / 2 + Shl(1, k - 1) && (x + Shl(1, k)) % 2 == x % 2;
      if i > 0 { AddBit(x / 2, k - 1, i - 1); }
    }
  }

  lemma Powers()
    ensures Shl(1, 0) == 0x1 && Shl(1, 1) == 0x2 && Shl(1, 4) == 0x10 && Shl(1, 6) == 0x40
    ensures Shl(1, 13) == 0x2000 && Shl(1, 15) == 0x8000 && Shl(1, 19) == 0x8_0000
  {
    assert Shl(1, 3) == 2 * Shl(1, 2) && Shl(1, 5) == 2 * Shl(1, 4);
    assert Shl(1, 7) == 0x80 && Shl(1, 8) == 0x100;
    assert Shl(1, 9) == 0x200 && Shl(1, 10) == 0x400;
    assert Shl(1, 11) == 0x800 && Shl(1, 12) == 0x1000;
    assert Shl(1, 14) == 0x4000;
    assert Shl(1, 16) == 0x1_0000 && Shl(1, 17) == 0x2_0000 && Shl(1, 18) == 0x4_0000;
  }

  /** The features this router has: five always, and those for a command channel and for sockets if the peripheral has them. */
  predicate Local(hasCmd: bool, sockets: bool, i: nat) {
    i == 0 || i == 1 || (i == 4 && hasCmd) || i == 6 || (i == 13 && sockets) || i == 15 || i == 19
  }

  lemma LocalFeatureBits(hasCmd: bool, sockets: bool, i: nat)
    ensures HasBit(LocalFeatures(hasCmd, sockets), i) <==> Local(hasCmd, sockets, i)
  {
    Powers();
    NoBits(i);
    AddBit(0, 0, i);
    AddBit(0x1, 1, i);
    AddBit(0x3, 4, i);
    var low := 0x3 + if hasCmd then 0x10 else 0;
    AddBit(low, 6, i);
    AddBit(low + 0x40, 13, i);
    var middle := low + 0x40 + if sockets then 0x2000 else 0;
    AddBit(middle, 15, i);
    AddBit(middle + 0x8000, 19, i);
  }

  // ---------------------------------------------------------------- packets

  /** A feature mask leaves the features that both sides have, and answers with them; it changes nothing else. */
  lemma FeaturesAgreed(env: Env, st: State, p: Packet, n: nat, i: nat)
    requires GoodEnv(env) && WellFormed(st.features, p, n) && p.cmd == 8
    ensures 8 <= |p.body|
    ensures var next := Handle(env, st, p, n);
            && (HasBit(next.features, i) <==> HasBit(U32(p.body, 4), i) && Local(env.hasCmd, env.sockets, i))
            && next.sent == st.sent + Greeting(env, next.features)
            && next.diag == st.diag && next.ids == st.ids
  {
    HasBitAnd(U32(p.body, 4), LocalFeatures(env.hasCmd, env.sockets), i);
    LocalFeatureBits(env.hasCmd, env.sockets, i);
  }

  /** Registrations and withdrawals change the routing table only, and commands that are not known change nothing. */
  lemma TableOnly(env: Env, st: State, p: Packet, n: nat)
    requires GoodEnv(env) && WellFormed(st.features, p, n)
    ensures p.cmd == 1 ==>
              RangesFit(p.body, 12, 8)
              && Handle(env, st, p, n) == st.(diag := Registrations.Table(st.diag, Registrations.Adds(env.p, Spans(p.body, 12, 8))))
    ensures p.cmd == 27 ==>
              RangesFit(p.body, 10, 4)
              && Handle(env, st, p, n)
                 == st.(diag := Registrations.Table(st.diag, Registrations.Withdrawals(env.p, Spans(p.body, 10, 4))))
    ensures p.cmd !in {1, 8, 27, 33} ==> Handle(env, st, p, n) == st
  {
  }

  /**
   An identifier request in a buffer that is too short for its structure, which
   is longer when names follow a feature mask, changes nothing. Any other is
   answered, if it is, with its name and with what the name has or was given.
   */
  lemma IdRequestHandled(env: Env, st: State, p: Packet, n: nat)
    requires GoodEnv(env) && WellFormed(st.features, p, n) && p.cmd == 33
    ensures 8 <= |p.body|
    ensures n < (if HasBit(st.features, 19) && U32(p.body, 0) >= 2 then 28 else 16) ==> Handle(env, st, p, n) == st
    ensures n >= (if HasBit(st.features, 19) && U32(p.body, 0) >= 2 then 28 else 16) ==>
              && Readable(st.features, p.body) && NameStart(st.features, p.body) <= |p.body|
              && var q, next := RequestOf(st.features, p.body), Handle(env, st, p, n);
                 && next.ids == DiagIds.Process(st.ids, q).0 && next.diag == st.diag && next.features == st.features
                 && match DiagIds.Process(st.ids, q).1
                    case None => next.sent == st.sent
                    case Some(id) => next.sent == st.sent + [DiagId(id, q.name)]
  {
  }
}
