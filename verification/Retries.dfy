/**
 A request for an identifier (router/diag_cntl.c) that is tried again and again,
 from any value of the counter, also across its wrap at 32 bits.
 */
module Retries {
  import opened Bytes
  import opened DiagIds

  /** The identifier of the k-th try, the first one being number 0. */
  function TryId(counter: nat, k: nat): uint32 { (counter + k + 1) % 0x1_0000_0000 }

  /** A try that is refused: its identifier is taken, or has a low octet of zero. */
  predicate Refused(table: seq<Entry>, counter: nat, k: nat) {
    IdIn(table, TryId(counter, k)) || TryId(counter, k) % 0x100 == 0
  }

  // ---------------------------------------------------------------- how many tries can be refused

  /** The identifiers of a table other than zero. */
  function NonZero(table: seq<Entry>): (ids: set<nat>)
    ensures forall x :: x in ids ==> 0 < x < 0x100
    ensures forall x: nat :: x > 0 && IdIn(table, x) ==> x in ids
  {
    var ids := IdSet(table);
    forall x: nat | IdIn(table, x) ensures x in ids {
      var e :| e in table && e.id == x;
    }
    ids - {0}
  }

  lemma NonZeroSize(table: seq<Entry>)
    ensures |NonZero(table)| <= |table|
  {
    IdSetSize(table);
    SubsetSize(IdSet(table) - {0}, IdSet(table));
  }

  lemma OctetsSize(ids: set<nat>)
    requires forall x :: x in ids ==> 0 < x < 0x100
    ensures |ids| <= 255
  {
    SubsetSize(ids, Range(1, 255));
  }

  lemma TriesDiffer(counter: nat, i: nat, j: nat)
    requires i < j < 0x1_0000_0000
    ensures TryId(counter, i) != TryId(counter, j)
  {
    var p, q := (counter + i + 1) / 0x1_0000_0000, (counter + j + 1) / 0x1_0000_0000;
    assert counter + i + 1 == 0x1_0000_0000 * p + TryId(counter, i);
    assert counter + j + 1 == 0x1_0000_0000 * q + TryId(counter, j);
  }

  /** Tries whose identifiers are in a set are no more than the set has. */
  lemma {:induction false} TriesIn(counter: nat, tries: set<nat>, ids: set<nat>)
    requires forall k | k in tries :: k < 0x1_0000_0000 && TryId(counter, k) in ids
    ensures |tries| <= |ids|
    decreases |tries|
  {
    if k: nat :| k in tries {
      var id: nat := TryId(counter, k);
      forall j | j in tries - {k} ensures j < 0x1_0000_0000 && TryId(counter, j) in ids - {id} {
        if j < k { TriesDiffer(counter, j, k); } else { TriesDiffer(counter, k, j); }
      }
      TriesIn(counter, tries - {k}, ids - {id});
    }
  }

  lemma MultipleAdds(m: nat, r: nat)
    ensures (0x100 * m + r) % 0x100 == r % 0x100
  {
  }

  lemma LowOctet(counter: nat, k: nat)
    ensures TryId(counter, k) % 0x100 == (counter + k + 1) % 0x100
  {
    var n := counter + k + 1;
    MultipleAdds(0x100_0000 * (n / 0x1_0000_0000), n % 0x1_0000_0000);
  }

  /** The first try whose identifier has a low octet of zero. */
  function FirstZero(counter: nat): nat { 0xff - counter % 0x100 }

  lemma ZeroAt(counter: nat, k: nat)
    requires k < 258 && TryId(counter, k) % 0x100 == 0
    ensures k == FirstZero(counter) || k == FirstZero(counter) + 0x100
  {
    LowOctet(counter, k);
  }

  /** Of 258 tries at most two have a low octet of zero. */
  lemma ZeroTries(counter: nat, tries: set<nat>)
    requires forall k | k in tries :: k < 258 && TryId(counter, k) % 0x100 == 0
    ensures |tries| <= 2
  {
    var z := FirstZero(counter);
    forall k | k in tries ensures k in {z, z + 0x100} {
      ZeroAt(counter, k);
    }
    SubsetSize(tries, {z, z + 0x100});
  }

  /** Refused tries are no more than the table has identifiers, and two. */
  lemma RefusedTries(table: seq<Entry>, counter: nat, tries: set<nat>)
    requires forall k | k in tries :: k < 258 && Refused(table, counter, k)
    ensures |tries| <= |NonZero(table)| + 2
  {
    var ids := NonZero(table);
    var zero := set k | k in tries && TryId(counter, k) % 0x100 == 0;
    TriesIn(counter, tries - zero, ids);
    ZeroTries(counter, zero);
    assert tries == zero + (tries - zero);
  }

  /** Among as many tries and one more there is one that is not refused; n is the first. */
  lemma FirstAccepted(table: seq<Entry>, counter: nat) returns (n: nat)
    ensures n <= |table| + 2 && !Refused(table, counter, n) && forall k | 0 <= k < n :: Refused(table, counter, k)
  {
    var m := |NonZero(table)| + 2;
    NonZeroSize(table);
    OctetsSize(NonZero(table));
    n := 0;
    while n <= m && Refused(table, counter, n)
      invariant n <= m + 1 && forall k | 0 <= k < n :: Refused(table, counter, k)
    {
      n := n + 1;
    }
    if n == m + 1 {
      RefusedTries(table, counter, Range(0, m + 1));
      assert false;
    }
  }

  // ---------------------------------------------------------------- trying

  function After(s: Ids, n: nat): Ids { Ids(s.table, (s.counter + n) % 0x1_0000_0000) }

  /** A refused try moves the counter on by one. */
  lemma RefusedMovesOn(s: Ids, q: Request)
    requires Find(s.table, q.name).None? && q.version < VERSION_3 && Refused(s.table, s.counter, 0)
    ensures Process(s, q).0 == After(s, 1)
  {
  }

  lemma AcceptedAnswers(s: Ids, q: Request)
    requires Find(s.table, q.name).None? && q.version < VERSION_3 && |q.name| <= 254 && !Refused(s.table, s.counter, 0)
    ensures Process(s, q).1 == Some(TryId(s.counter, 0))
  {
  }

  lemma Shifted(s: Ids, k: nat)
    ensures TryId(After(s, 1).counter, k) == TryId(s.counter, k + 1)
    ensures After(After(s, 1), k) == After(s, k + 1)
    ensures TryId(After(s, k).counter, 0) == TryId(s.counter, k)
  {
    ModAdd(s.counter + 1, k);
    ModAdd(s.counter + 1, k + 1);
    ModAdd(s.counter + k, 1);
  }

  lemma ModAdd(a: nat, b: nat)
    ensures (a % 0x1_0000_0000 + b) % 0x1_0000_0000 == (a + b) % 0x1_0000_0000
  {
    var p, r := a / 0x1_0000_0000, a % 0x1_0000_0000;
    assert a + b == 0x1_0000_0000 * p + (r + b);
    WordAdds(p, r + b);
  }

  lemma WordAdds(p: nat, r: nat)
    ensures (0x1_0000_0000 * p + r) % 0x1_0000_0000 == r % 0x1_0000_0000
  {
  }

  lemma {:induction false} TriesMoveOn(s: Ids, q: Request, n: nat)
    requires Find(s.table, q.name).None? && q.version < VERSION_3
    requires forall k | 0 <= k < n :: Refused(s.table, s.counter, k)
    ensures Run(s, Tries(q, n)) == After(s, n)
    decreases n
  {
    if n > 0 {
      var next := After(s, 1);
      RefusedMovesOn(s, q);
      forall k | 0 <= k < n - 1 ensures Refused(next.table, next.counter, k) {
        assert Refused(s.table, s.counter, k + 1);
        Shifted(s, k);
      }
      TriesMoveOn(next, q, n - 1);
      Shifted(s, n - 1);
      FirstTry(s, q, n);
    }
  }

  lemma FirstTry(s: Ids, q: Request, n: nat)
    requires n > 0
    ensures Run(s, Tries(q, n)) == Run(Process(s, q).0, Tries(q, n - 1))
  {
    assert Tries(q, n)[1..] == Tries(q, n - 1);
  }

  /**
   From any counter a request of version 1 or 2 that is tried again and again,
   with nothing else registering, is answered within three tries more than the
   table has entries, with the first identifier that is not taken and has a low
   octet other than zero.
   */
  lemma RetryAnywhere(s: Ids, q: Request) returns (n: nat)
    requires Find(s.table, q.name).None? && q.version < VERSION_3 && |q.name| <= 254
    ensures n <= |s.table| + 2 && forall k | 0 <= k < n :: Refused(s.table, s.counter, k)
    ensures Run(s, Tries(q, n)).table == s.table
    ensures Process(Run(s, Tries(q, n)), q).1 == Some(TryId(s.counter, n))
  {
    n := FirstAccepted(s.table, s.counter);
    TriesMoveOn(s, q, n);
    Shifted(s, n);
    AcceptedAnswers(After(s, n), q);
  }
}
