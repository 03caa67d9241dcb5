/**
 When a peripheral's reader is starved for good: packets of its flow that are
 held back by stuck watches, or were orphaned, stay counted.
 */
module Starvation {
  import opened Bytes
  import opened Watch
  import Encoding

  // ---------------------------------------------------------------- what is held back

  /** The packets of a flow that a stuck watch holds back: the pending one and those queued behind it. */
  function HeldBy(s: Loop, i: nat, f: nat): nat
    requires i < |s.aio| && s.aio[i].queue < |s.queues|
  {
    if Stuck(s, i) then Count(f, PendingSeq(s.aio[i])) + Count(f, s.queues[s.aio[i].queue]) else 0
  }

  function HeldByFirst(s: Loop, n: nat, f: nat): nat
    requires n <= |s.aio| && WatchesOk(s.aio, |s.queues|)
    decreases n
  {
    if n == 0 then 0 else HeldByFirst(s, n - 1, f) + HeldBy(s, n - 1, f)
  }

  /** The packets of a flow held back by all stuck watches, and those orphaned. */
  ghost function Held(s: Loop, f: nat): nat
    requires WatchesOk(s.aio, |s.queues|)
  {
    HeldByFirst(s, |s.aio|, f) + Count(f, s.orphans)
  }

  // ---------------------------------------------------------------- held packets are counted

  lemma CountMonotone(f: nat, a: seq<Mbuf>, b: seq<Mbuf>)
    requires a <= b
    ensures Count(f, a) <= Count(f, b)
  {
    assert b == a + b[|a|..];
    CountConcat(f, a, b[|a|..]);
  }

  /** The queues with those of the first n watches emptied. */
  function Emptied(aio: seq<AioWatch>, queues: seq<seq<Mbuf>>, n: nat): (rest: seq<seq<Mbuf>>)
    requires n <= |aio| && WatchesOk(aio, |queues|)
    ensures |rest| == |queues|
    decreases n
  {
    if n == 0 then queues else Emptied(aio, queues, n - 1)[aio[n - 1].queue := []]
  }

  lemma {:induction false} EmptiedIs(aio: seq<AioWatch>, queues: seq<seq<Mbuf>>, n: nat, q: nat)
    requires n <= |aio| && WatchesOk(aio, |queues|) && q < |queues|
    ensures var rest := Emptied(aio, queues, n);
            && (rest[q] == queues[q] || rest[q] == [])
            && (forall i | 0 <= i < n :: aio[i].queue == q ==> rest[q] == [])
            && ((forall i | 0 <= i < n :: aio[i].queue != q) ==> rest[q] == queues[q])
    decreases n
  {
    if n > 0 { EmptiedIs(aio, queues, n - 1, q); }
  }

  /** The packets of a flow pending on the first n watches. */
  function PendingFirst(s: Loop, n: nat, f: nat): nat
    requires n <= |s.aio|
    decreases n
  {
    if n == 0 then 0 else PendingFirst(s, n - 1, f) + Count(f, PendingSeq(s.aio[n - 1]))
  }

  /** The packets of a flow queued for the first n watches. */
  function QueuedFirst(s: Loop, n: nat, f: nat): nat
    requires n <= |s.aio| && WatchesOk(s.aio, |s.queues|)
    decreases n
  {
    if n == 0 then 0 else QueuedFirst(s, n - 1, f) + Count(f, s.queues[s.aio[n - 1].queue])
  }

  function WithFirst(s: Loop, n: nat, f: nat): nat
    requires n <= |s.aio| && WatchesOk(s.aio, |s.queues|)
  {
    PendingFirst(s, n, f) + QueuedFirst(s, n, f)
  }

  lemma CountAllNext(f: nat, ss: seq<seq<Mbuf>>, n: nat)
    requires 0 < n <= |ss|
    ensures CountAll(f, ss[..n]) == CountAll(f, ss[..n - 1]) + Count(f, ss[n - 1])
  {
    assert ss[..n][..n - 1] == ss[..n - 1];
  }

  lemma EmptyOne(aio: seq<AioWatch>, queues: seq<seq<Mbuf>>, n: nat, f: nat)
    requires 0 < n <= |aio| && WatchesOk(aio, |queues|)
    ensures CountAll(f, Emptied(aio, queues, n - 1)) == CountAll(f, Emptied(aio, queues, n)) + Count(f, queues[aio[n - 1].queue])
  {
    EmptiedIs(aio, queues, n - 1, aio[n - 1].queue);
    CountAllUpdate(f, Emptied(aio, queues, n - 1), aio[n - 1].queue, []);
  }

  lemma {:induction false} PendingsAre(s: Loop, pendings: seq<seq<Mbuf>>, n: nat, f: nat)
    requires n <= |s.aio| == |pendings| && forall i | 0 <= i < |s.aio| :: pendings[i] == PendingSeq(s.aio[i])
    ensures CountAll(f, pendings[..n]) == PendingFirst(s, n, f)
    decreases n
  {
    if n == 0 {
      assert pendings[..0] == [];
    } else {
      PendingsAre(s, pendings, n - 1, f);
      CountAllNext(f, pendings, n);
    }
  }

  lemma {:induction false} QueuesAre(s: Loop, n: nat, f: nat)
    requires n <= |s.aio| && WatchesOk(s.aio, |s.queues|)
    ensures CountAll(f, s.queues) == QueuedFirst(s, n, f) + CountAll(f, Emptied(s.aio, s.queues, n))
    decreases n
  {
    if n > 0 {
      QueuesAre(s, n - 1, f);
      EmptyOne(s.aio, s.queues, n, f);
    }
  }

  /** What is outstanding belongs to the watches, to queues without one, and to the orphans. */
  lemma OutstandingIs(s: Loop, f: nat)
    requires WatchesOk(s.aio, |s.queues|)
    ensures Outstanding(s, f)
         == WithFirst(s, |s.aio|, f) + CountAll(f, Emptied(s.aio, s.queues, |s.aio|)) + Count(f, s.orphans)
  {
    PendingsAre(s, Pendings(s.aio), |s.aio|, f);
    QueuesAre(s, |s.aio|, f);
    assert Pendings(s.aio)[..|s.aio|] == Pendings(s.aio);
  }

  lemma {:induction false} HeldWithFirst(s: Loop, n: nat, f: nat)
    requires n <= |s.aio| && WatchesOk(s.aio, |s.queues|)
    ensures HeldByFirst(s, n, f) <= WithFirst(s, n, f)
    ensures (forall i | 0 <= i < n :: Stuck(s, i) || !Busy(s, i)) ==> HeldByFirst(s, n, f) == WithFirst(s, n, f)
    decreases n
  {
    if n > 0 { HeldWithFirst(s, n - 1, f); }
  }

  lemma HeldIsCounted(s: Loop, f: nat, frames: nat)
    requires Inv(s, frames)
    ensures Held(s, f) <= PacketsOf(s.packets, f)
  {
    OutstandingIs(s, f);
    HeldWithFirst(s, |s.aio|, f);
    assert PacketsOf(s.packets, f) == Outstanding(s, f);
  }

  lemma {:induction false} CountAllNone(f: nat, ss: seq<seq<Mbuf>>)
    requires forall q | 0 <= q < |ss| :: ss[q] == []
    ensures CountAll(f, ss) == 0
    decreases |ss|
  {
    if ss != [] { CountAllNone(f, ss[..|ss| - 1]); }
  }

  /** Every queue with something in it has a watch. */
  ghost predicate AllServed(s: Loop) {
    forall q | 0 <= q < |s.queues| && s.queues[q] != [] :: exists i :: 0 <= i < |s.aio| && s.aio[i].queue == q
  }

  /** When only stuck watches have something to write, all that is counted is held. */
  lemma OnlyHeldLeft(s: Loop, f: nat, frames: nat)
    requires Inv(s, frames) && AllServed(s) && forall i | 0 <= i < |s.aio| :: Stuck(s, i) || !Busy(s, i)
    ensures PacketsOf(s.packets, f) == Held(s, f)
  {
    OutstandingIs(s, f);
    HeldWithFirst(s, |s.aio|, f);
    var rest := Emptied(s.aio, s.queues, |s.aio|);
    forall q | 0 <= q < |rest| ensures rest[q] == [] {
      EmptiedIs(s.aio, s.queues, |s.aio|, q);
      if s.queues[q] != [] {
        var i :| 0 <= i < |s.aio| && s.aio[i].queue == q;
      }
    }
    CountAllNone(f, rest);
    assert PacketsOf(s.packets, f) == Outstanding(s, f);
  }

  // ---------------------------------------------------------------- no step that keeps the watches lets go of a held packet

  /** Queues only grow at their end, and no orphan is forgotten. */
  ghost predicate Grows(s: Loop, t: Loop) {
    && s.orphans <= t.orphans && |s.queues| <= |t.queues|
    && forall q | 0 <= q < |s.queues| :: s.queues[q] <= t.queues[q]
  }

  lemma {:induction false} BroadcastGrows(s: Loop, n: nat, payload: seq<byte>, flow: Option<nat>)
    requires ClientsOk(s) && n <= |s.clients|
    ensures Grows(s, Broadcast(s, n, payload, flow))
    decreases n
  {
    if n > 0 { BroadcastGrows(s, n - 1, payload, flow); }
  }

  lemma {:induction false} BroadcastAllGrows(s: Loop, payloads: seq<seq<byte>>, flow: Option<nat>)
    requires ClientsOk(s)
    ensures Grows(s, BroadcastAll(s, payloads, flow))
    decreases |payloads|
  {
    if payloads != [] {
      var t := BroadcastAll(s, payloads[..|payloads| - 1], flow);
      BroadcastAllGrows(s, payloads[..|payloads| - 1], flow);
      BroadcastGrows(t, |t.clients|, payloads[|payloads| - 1], flow);
    }
  }

  /** A stuck watch stays as it is, and its queue only grows. */
  lemma StuckStays(s: Loop, a: Action, frames: nat, i: nat)
    requires Inv(s, frames) && Enabled(s, a, frames) && !a.DoRemoveAio? && i < |s.aio| && Stuck(s, i)
    ensures var t := Apply(s, a, frames);
            && i < |t.aio| && t.aio[i] == s.aio[i] && Stuck(t, i)
            && s.aio[i].queue < |t.queues| && s.queues[s.aio[i].queue] <= t.queues[s.aio[i].queue]
  {
    if a.DoCallback? {
      BroadcastAllGrows(s.(armed := s.armed - {s.readers[a.r].fd}), a.payloads, s.readers[a.r].flow);
    }
  }

  lemma OrphansStay(s: Loop, a: Action, frames: nat)
    requires Inv(s, frames) && Enabled(s, a, frames) && !a.DoRemoveAio?
    ensures s.orphans <= Apply(s, a, frames).orphans && |s.aio| <= |Apply(s, a, frames).aio|
  {
    if a.DoCallback? {
      BroadcastAllGrows(s.(armed := s.armed - {s.readers[a.r].fd}), a.payloads, s.readers[a.r].flow);
    }
  }

  lemma {:induction false} HeldByFirstGrows(s: Loop, a: Action, t: Loop, frames: nat, n: nat, f: nat)
    requires Inv(s, frames) && Enabled(s, a, frames) && !a.DoRemoveAio? && t == Apply(s, a, frames) && Inv(t, frames)
    requires n <= |s.aio| <= |t.aio|
    ensures HeldByFirst(s, n, f) <= HeldByFirst(t, n, f)
    decreases n
  {
    if n > 0 {
      HeldByFirstGrows(s, a, t, frames, n - 1, f);
      if Stuck(s, n - 1) {
        StuckStays(s, a, frames, n - 1);
        CountMonotone(f, s.queues[s.aio[n - 1].queue], t.queues[s.aio[n - 1].queue]);
      }
    }
  }

  lemma {:induction false} HeldByMore(s: Loop, n: nat, m: nat, f: nat)
    requires n <= m <= |s.aio| && WatchesOk(s.aio, |s.queues|)
    ensures HeldByFirst(s, n, f) <= HeldByFirst(s, m, f)
    decreases m
  {
    if n < m { HeldByMore(s, n, m - 1, f); }
  }

  lemma HeldGrows(s: Loop, a: Action, t: Loop, frames: nat, f: nat)
    requires Inv(s, frames) && Enabled(s, a, frames) && !a.DoRemoveAio? && t == Apply(s, a, frames) && Inv(t, frames)
    ensures Held(s, f) <= Held(t, f)
  {
    OrphansStay(s, a, frames);
    HeldByFirstGrows(s, a, t, frames, |s.aio|, f);
    HeldByMore(t, |s.aio|, |t.aio|, f);
    CountMonotone(f, s.orphans, t.orphans);
  }

  /** Steps that remove no write watch. */
  predicate KeepsWatches(acts: seq<Action>) { forall a | a in acts :: !a.DoRemoveAio? }

  lemma {:induction false} HeldStays(s: Loop, acts: seq<Action>, t: Loop, frames: nat, f: nat)
    requires Ran(s, t, acts, frames) && KeepsWatches(acts)
    ensures Inv(s, frames) && Inv(t, frames) && Held(s, f) <= Held(t, f)
    decreases |acts|
  {
    RanReaches(s, t, acts, frames);
    if acts != [] {
      assert acts[0] in acts;
      var u := Apply(s, acts[0], frames);
      HeldStays(u, acts[1..], t, frames, f);
      HeldGrows(s, acts[0], u, frames, f);
    }
  }

  // ---------------------------------------------------------------- draining everything else

  /** How many packets are queued or pending. */
  function Length(ss: seq<seq<Mbuf>>): nat {
    if ss == [] then 0 else Length(ss[..|ss| - 1]) + |ss[|ss| - 1]|
  }

  lemma {:induction false} LengthConcat(a: seq<seq<Mbuf>>, b: seq<seq<Mbuf>>)
    ensures Length(a + b) == Length(a) + Length(b)
    decreases |b|
  {
    if b == [] {
      assert a + b == a;
    } else {
      LengthConcat(a, b[..|b| - 1]);
      assert (a + b)[..|a + b| - 1] == a + b[..|b| - 1];
    }
  }

  lemma LengthOne(x: seq<Mbuf>)
    ensures Length([x]) == |x|
  {
    assert [x][..0] == [];
  }

  lemma LengthUpdate(ss: seq<seq<Mbuf>>, i: nat, x: seq<Mbuf>)
    requires i < |ss|
    ensures Length(ss[i := x]) + |ss[i]| == Length(ss) + |x|
  {
    var a, b := ss[..i], ss[i + 1..];
    assert ss == a + [ss[i]] + b && ss[i := x] == a + [x] + b;
    LengthConcat(a + [ss[i]], b);
    LengthConcat(a + [x], b);
    LengthConcat(a, [ss[i]]);
    LengthConcat(a, [x]);
    LengthOne(ss[i]);
    LengthOne(x);
  }

  function ToWrite(s: Loop): nat { Length(s.queues) + Length(Pendings(s.aio)) }

  /** t is s but for packets that went from watches that are not stuck. */
  ghost predicate Drains(s: Loop, t: Loop) {
    && t.readers == s.readers && |t.queues| == |s.queues| && |t.aio| == |s.aio| && t.orphans == s.orphans
    && (forall k | 0 <= k < |s.aio| :: DrainsWatch(s, t, k))
  }

  ghost predicate DrainsWatch(s: Loop, t: Loop, k: nat)
    requires k < |s.aio| == |t.aio|
  {
    && t.aio[k].queue == s.aio[k].queue && t.aio[k].fd == s.aio[k].fd && (Stuck(t, k) <==> Stuck(s, k))
    && (Stuck(s, k) ==>
         && t.aio[k] == s.aio[k] && s.aio[k].queue < |s.queues| && s.aio[k].queue < |t.queues|
         && t.queues[s.aio[k].queue] == s.queues[s.aio[k].queue])
  }

  lemma {:induction false} DrainsHeldByFirst(s: Loop, t: Loop, n: nat, f: nat)
    requires Drains(s, t) && n <= |s.aio| && WatchesOk(s.aio, |s.queues|) && WatchesOk(t.aio, |t.queues|)
    ensures HeldByFirst(t, n, f) == HeldByFirst(s, n, f)
    decreases n
  {
    if n > 0 {
      DrainsHeldByFirst(s, t, n - 1, f);
      assert DrainsWatch(s, t, n - 1);
    }
  }

  lemma DrainsHeld(s: Loop, t: Loop, f: nat)
    requires Drains(s, t) && WatchesOk(s.aio, |s.queues|) && WatchesOk(t.aio, |t.queues|)
    ensures Held(t, f) == Held(s, f)
  {
    DrainsHeldByFirst(s, t, |s.aio|, f);
  }

  /** Completing the write of a watch. */
  lemma CompleteDrains(s: Loop, i: nat, t: Loop, frames: nat)
    requires Inv(s, frames) && i < |s.aio| && s.aio[i].fd in s.kernel && s.aio[i].pending.Some? && t == Complete(s, i, 0)
    ensures Drains(s, t) && ToWrite(t) < ToWrite(s) && t.queues == s.queues
  {
    forall k | 0 <= k < |s.aio| ensures DrainsWatch(s, t, k) {
      assert k != i ==> s.aio[k].fd != s.aio[i].fd;
    }
    PendingsUpdate(s.aio, i, s.aio[i].(pending := None));
    LengthUpdate(Pendings(s.aio), i, []);
  }

  /** Handing the first packet of a queue to the kernel. */
  lemma SubmitDrains(s: Loop, i: nat, t: Loop, frames: nat)
    requires Inv(s, frames) && Enabled(s, DoSubmit(i, true), frames) && t == Submit(s, i, true)
    ensures Drains(s, t) && ToWrite(t) == ToWrite(s)
    ensures t.aio[i].pending.Some? && t.aio[i].fd in t.kernel
  {
    forall k | 0 <= k < |s.aio| ensures DrainsWatch(s, t, k) {
      assert k != i ==> s.aio[k].fd != s.aio[i].fd && s.aio[k].queue != s.aio[i].queue;
    }
    var q := s.aio[i].queue;
    LengthUpdate(s.queues, q, s.queues[q][1..]);
    PendingsUpdate(s.aio, i, s.aio[i].(pending := Some(s.queues[q][0])));
    LengthUpdate(Pendings(s.aio), i, [s.queues[q][0]]);
  }

  lemma DrainsTwice(s: Loop, t: Loop, u: Loop)
    requires Drains(s, t) && Drains(t, u)
    ensures Drains(s, u)
  {
    forall k | 0 <= k < |s.aio| ensures DrainsWatch(s, u, k) {
      assert DrainsWatch(s, t, k) && DrainsWatch(t, u, k);
    }
  }

  lemma RanOne(s: Loop, a: Action, t: Loop, frames: nat)
    requires Inv(s, frames) && Enabled(s, a, frames) && t == Apply(s, a, frames)
    ensures Ran(s, t, [a], frames) && Inv(t, frames)
  {
    StepKeeps(s, a, frames);
    assert [a][1..] == [];
  }

  /** Queues that shrink stay served. */
  lemma StillServed(s: Loop, t: Loop)
    requires AllServed(s) && Drains(s, t) && forall q | 0 <= q < |s.queues| :: s.queues[q] == [] ==> t.queues[q] == []
    ensures AllServed(t)
  {
    forall q | 0 <= q < |t.queues| && t.queues[q] != [] ensures exists i :: 0 <= i < |t.aio| && t.aio[i].queue == q {
      var i :| 0 <= i < |s.aio| && s.aio[i].queue == q;
      assert DrainsWatch(s, t, i);
    }
  }

  lemma DrainPending(s: Loop, i: nat, frames: nat) returns (t: Loop)
    requires Inv(s, frames) && i < |s.aio| && s.aio[i].pending.Some? && s.aio[i].fd in s.kernel
    ensures Ran(s, t, [DoComplete(i, 0)], frames) && Inv(t, frames)
    ensures Drains(s, t) && ToWrite(t) < ToWrite(s) && (AllServed(s) ==> AllServed(t))
  {
    t := Complete(s, i, 0);
    CompleteDrains(s, i, t, frames);
    RanOne(s, DoComplete(i, 0), t, frames);
    if AllServed(s) { StillServed(s, t); }
  }

  lemma SubmitQueued(s: Loop, i: nat, frames: nat) returns (t: Loop)
    requires Inv(s, frames) && Enabled(s, DoSubmit(i, true), frames)
    ensures Ran(s, t, [DoSubmit(i, true)], frames) && Inv(t, frames)
    ensures Drains(s, t) && ToWrite(t) == ToWrite(s) && (AllServed(s) ==> AllServed(t))
    ensures i < |t.aio| && t.aio[i].pending.Some? && t.aio[i].fd in t.kernel
  {
    t := Submit(s, i, true);
    SubmitDrains(s, i, t, frames);
    RanOne(s, DoSubmit(i, true), t, frames);
    if AllServed(s) { StillServed(s, t); }
  }

  /** One packet more goes from a busy watch that is not stuck. */
  lemma DrainOne(s: Loop, i: nat, frames: nat) returns (acts: seq<Action>, t: Loop)
    requires Inv(s, frames) && i < |s.aio| && Busy(s, i) && !Stuck(s, i)
    ensures Ran(s, t, acts, frames) && Inv(t, frames) && KeepsWatches(acts)
    ensures Drains(s, t) && ToWrite(t) < ToWrite(s) && (AllServed(s) ==> AllServed(t))
  {
    if s.aio[i].pending.Some? {
      t := DrainPending(s, i, frames);
      acts := [DoComplete(i, 0)];
    } else {
      acts, t := DrainQueued(s, i, frames);
    }
  }

  /** A watch with nothing pending submits a packet first. */
  lemma DrainQueued(s: Loop, i: nat, frames: nat) returns (acts: seq<Action>, t: Loop)
    requires Inv(s, frames) && i < |s.aio| && Busy(s, i) && s.aio[i].pending.None?
    ensures Ran(s, t, acts, frames) && Inv(t, frames) && KeepsWatches(acts)
    ensures Drains(s, t) && ToWrite(t) < ToWrite(s) && (AllServed(s) ==> AllServed(t))
  {
    var u := SubmitQueued(s, i, frames);
    t := DrainPending(u, i, frames);
    DrainsTwice(s, u, t);
    acts := [DoSubmit(i, true)] + [DoComplete(i, 0)];
    RanTwice(s, u, t, [DoSubmit(i, true)], [DoComplete(i, 0)], frames);
  }

  lemma DrainsNothing(s: Loop, frames: nat)
    requires Inv(s, frames)
    ensures Drains(s, s) && Ran(s, s, [], frames)
  {
    forall k | 0 <= k < |s.aio| ensures DrainsWatch(s, s, k) {
    }
  }

  /** All packets go that no stuck watch holds back. */
  lemma {:induction false} DrainAll(s: Loop, frames: nat) returns (acts: seq<Action>, t: Loop)
    requires Inv(s, frames)
    ensures Ran(s, t, acts, frames) && Inv(t, frames) && KeepsWatches(acts) && Drains(s, t)
    ensures AllServed(s) ==> AllServed(t)
    ensures forall i | 0 <= i < |t.aio| :: Stuck(t, i) || !Busy(t, i)
    decreases ToWrite(s)
  {
    if i: nat :| i < |s.aio| && Busy(s, i) && !Stuck(s, i) {
      var first, u := DrainOne(s, i, frames);
      var rest;
      rest, t := DrainAll(u, frames);
      DrainsTwice(s, u, t);
      RanTwice(s, u, t, first, rest, frames);
      acts := first + rest;
    } else {
      acts, t := [], s;
      DrainsNothing(s, frames);
    }
  }

  // ---------------------------------------------------------------- queues without a watch

  lemma {:induction false} AboveAll(fds: set<int>) returns (m: int)
    ensures forall fd | fd in fds :: fd < m
    decreases |fds|
  {
    m := 0;
    if fd: int :| fd in fds {
      var above := AboveAll(fds - {fd});
      m := if above <= fd then fd + 1 else above;
      forall x | x in fds ensures x < m {
        assert x == fd || x in fds - {fd};
      }
    }
  }

  predicate Served(s: Loop, q: nat) { exists i :: 0 <= i < |s.aio| && s.aio[i].queue == q }

  lemma {:induction false} HeldByFirstSame(s: Loop, t: Loop, n: nat, f: nat)
    requires n <= |s.aio| <= |t.aio| && WatchesOk(s.aio, |s.queues|) && WatchesOk(t.aio, |t.queues|)
    requires s.aio <= t.aio && t.queues == s.queues && t.kernel == s.kernel
    ensures HeldByFirst(t, n, f) == HeldByFirst(s, n, f)
    decreases n
  {
    if n > 0 { HeldByFirstSame(s, t, n - 1, f); }
  }

  /** A descriptor that no watch and no outstanding write uses. */
  lemma FreshFd(s: Loop) returns (fd: int)
    ensures fd !in s.kernel && forall i | 0 <= i < |s.aio| :: s.aio[i].fd != fd
  {
    var used := set i | 0 <= i < |s.aio| :: s.aio[i].fd;
    fd := AboveAll(s.kernel.Keys + used);
    forall i | 0 <= i < |s.aio| ensures s.aio[i].fd != fd {
      assert s.aio[i].fd in used;
    }
    assert fd !in s.kernel.Keys;
  }

  lemma IdleWatchHoldsNothing(s: Loop, t: Loop, f: nat)
    requires WatchesOk(s.aio, |s.queues|) && WatchesOk(t.aio, |t.queues|)
    requires |t.aio| == |s.aio| + 1 && s.aio <= t.aio && t.aio[|s.aio|].pending.None?
    requires t.queues == s.queues && t.kernel == s.kernel && t.orphans == s.orphans
    ensures Held(t, f) == Held(s, f)
  {
    HeldByFirstSame(s, t, |s.aio|, f);
  }

  /** A queue is given a watch of its own, if it has none. */
  lemma GiveWatch(s: Loop, q: nat, f: nat, frames: nat) returns (acts: seq<Action>, t: Loop)
    requires Inv(s, frames) && q < |s.queues|
    ensures Ran(s, t, acts, frames) && Inv(t, frames) && KeepsWatches(acts) && Held(t, f) == Held(s, f)
    ensures t.readers == s.readers && t.queues == s.queues && s.aio <= t.aio && Served(t, q)
  {
    if Served(s, q) {
      acts, t := [], s;
      DrainsNothing(s, frames);
    } else {
      var fd := FreshFd(s);
      t, acts := s.(aio := s.aio + [AioWatch(fd, q, None)]), [DoAddWriteq(fd, q)];
      RanOne(s, DoAddWriteq(fd, q), t, frames);
      assert t.aio[|s.aio|] == AioWatch(fd, q, None);
      IdleWatchHoldsNothing(s, t, f);
    }
  }

  lemma ServedStays(s: Loop, t: Loop, q: nat)
    requires Served(s, q) && s.aio <= t.aio
    ensures Served(t, q)
  {
    var i :| 0 <= i < |s.aio| && s.aio[i].queue == q;
    assert t.aio[i] == s.aio[i];
  }

  /** All of the first n queues are given watches if they need them. */
  lemma {:induction false} GiveWatches(s: Loop, n: nat, f: nat, frames: nat) returns (acts: seq<Action>, t: Loop)
    requires Inv(s, frames) && n <= |s.queues|
    ensures Ran(s, t, acts, frames) && Inv(t, frames) && KeepsWatches(acts) && Held(t, f) == Held(s, f)
    ensures t.readers == s.readers && t.queues == s.queues && forall q | 0 <= q < n :: Served(t, q)
    decreases n
  {
    if n == 0 {
      acts, t := [], s;
      DrainsNothing(s, frames);
    } else {
      var a, u := GiveWatches(s, n - 1, f, frames);
      var b;
      b, t := GiveWatch(u, n - 1, f, frames);
      acts := a + b;
      RanTwice(s, u, t, a, b, frames);
      forall q | 0 <= q < n - 1 ensures Served(t, q) {
        ServedStays(u, t, q);
      }
    }
  }

  // ---------------------------------------------------------------- the exact condition

  /** In no run that removes no write watch is a reader of a flow armed. */
  ghost predicate Starves(s: Loop, f: nat, frames: nat) {
    forall acts, t | Ran(s, t, acts, frames) && KeepsWatches(acts) ::
      forall r | r in t.readers && r.flow == Some(f) :: r.fd !in t.armed
  }

  lemma HeldStarves(s: Loop, f: nat, frames: nat)
    requires Inv(s, frames) && Held(s, f) > FLOW_WATERMARK
    ensures Starves(s, f, frames)
  {
    forall acts, t | Ran(s, t, acts, frames) && KeepsWatches(acts)
      ensures forall r | r in t.readers && r.flow == Some(f) :: r.fd !in t.armed
    {
      HeldStays(s, acts, t, frames, f);
      HeldIsCounted(t, f, frames);
    }
  }

  /** Everything that is not held back can drain. */
  lemma DrainToHeld(s: Loop, f: nat, frames: nat) returns (acts: seq<Action>, t: Loop)
    requires Inv(s, frames)
    ensures Ran(s, t, acts, frames) && Inv(t, frames) && KeepsWatches(acts)
    ensures t.readers == s.readers && PacketsOf(t.packets, f) == Held(s, f)
  {
    var a, u := GiveWatches(s, |s.queues|, f, frames);
    forall q | 0 <= q < |u.queues| && u.queues[q] != [] ensures exists i :: 0 <= i < |u.aio| && u.aio[i].queue == q {
      assert Served(u, q);
    }
    var b;
    b, t := DrainAll(u, frames);
    DrainsHeld(u, t, f);
    OnlyHeldLeft(t, f, frames);
    RanTwice(s, u, t, a, b, frames);
    acts := a + b;
  }

  /** When no more is held back than the watermark, the reader can be armed. */
  lemma CanArm(s: Loop, r: ReadWatch, f: nat, frames: nat) returns (acts: seq<Action>, t: Loop)
    requires Inv(s, frames) && r in s.readers && r.flow == Some(f) && Held(s, f) <= FLOW_WATERMARK
    ensures Ran(s, t, acts, frames) && KeepsWatches(acts) && r in t.readers && r.fd in t.armed
  {
    var a, u := DrainToHeld(s, f, frames);
    t := Poll(u);
    RanOne(u, DoPoll, t, frames);
    RanTwice(s, u, t, a, [DoPoll], frames);
    acts := a + [DoPoll];
  }

  /**
   A peripheral's reader is starved, in every run that removes no write watch,
   exactly when more packets of its flow than the watermark are orphaned or held
   back by stuck watches, all of them together.
   */
  lemma StarvedIff(s: Loop, f: nat, frames: nat)
    requires Inv(s, frames) && exists r :: r in s.readers && r.flow == Some(f)
    ensures Starves(s, f, frames) <==> Held(s, f) > FLOW_WATERMARK
  {
    if Held(s, f) > FLOW_WATERMARK {
      HeldStarves(s, f, frames);
    } else {
      var r :| r in s.readers && r.flow == Some(f);
      var acts, t := CanArm(s, r, f, frames);
    }
  }

  // ---------------------------------------------------------------- a run that gets there

  /** A run from the start to one packet more than the watermark, all on one queue. */
  lemma OverWatermark(frames: nat) returns (acts: seq<Action>, t: Loop)
    requires frames > 0
    ensures Reachable(acts, t, frames) && Inv(t, frames) && Staged(t, 1, 1, FLOW_WATERMARK + 1)
  {
    acts, t := StageClients(1, frames);
    acts, t := EnableNext(acts, t, 1, 0, 0, frames);
    var p := 0;
    while p <= FLOW_WATERMARK
      invariant p <= FLOW_WATERMARK + 1 && Inv(t, frames) && Reachable(acts, t, frames) && Staged(t, 1, 1, p)
    {
      acts, t := BroadcastTurn(acts, t, 1, 1, p, [[]], frames);
      p := p + 1;
    }
  }

  /** A run from the start in which one client's write ends with EAGAIN and the reader is starved from then on. */
  lemma StarvedReached(frames: nat) returns (acts: seq<Action>, t: Loop)
    requires frames > 0
    ensures Reachable(acts, t, frames) && Inv(t, frames)
    ensures ReadWatch(0, Some(0)) in t.readers && |t.clients| == 1 && Held(t, 0) == FLOW_WATERMARK + 1
  {
    var a, s := OverWatermark(frames);
    QueueNotEmpty(s, frames);
    var b, u := Extend(a, s, DoSubmit(0, true), frames);
    assert u == Submit(s, 0, true) && u.aio[0].fd in u.kernel;
    acts, t := Extend(b, u, DoComplete(0, -EAGAIN), frames);
    assert t == Complete(u, 0, -EAGAIN);
    OneStuck(t, frames);
    assert t.readers[0] in t.readers;
  }

  lemma OneStuck(t: Loop, frames: nat)
    requires Inv(t, frames) && |t.aio| == |t.queues| == 1 && Stuck(t, 0)
    ensures Held(t, 0) == PacketsOf(t.packets, 0)
  {
    assert t.aio[0].queue == 0;
    OnlyHeldLeft(t, 0, frames);
  }

  lemma QueueNotEmpty(t: Loop, frames: nat)
    requires Inv(t, frames) && Staged(t, 1, 1, FLOW_WATERMARK + 1)
    ensures t.queues[0] != []
  {
    OutstandingIs(t, 0);
    assert PacketsOf(t.packets, 0) == Outstanding(t, 0);
    var rest := Emptied(t.aio, t.queues, 1);
    EmptiedIs(t.aio, t.queues, 1, 0);
    assert t.aio[0].queue == 0;
    CountAllNone(0, rest);
    assert PendingFirst(t, 1, 0) == PendingFirst(t, 0, 0) + Count(0, []);
    assert QueuedFirst(t, 1, 0) == QueuedFirst(t, 0, 0) + Count(0, t.queues[0]);
  }
}
