/**
 The table of diag identifiers of router/diag_cntl.c: process names and the
 octet each one is known by, and the counter that new identifiers come from.
 */
module DiagIds {
  import opened Bytes

  const DIAG_ID_APPS: uint32 := 1
  const VERSION_3: uint32 := 3

  datatype Entry = Entry(name: seq<uint8>, id: uint8)

  /** The table, in order of registration, and the static counter. */
  datatype Ids = Ids(table: seq<Entry>, counter: uint32)

  const START: Ids := Ids([], DIAG_ID_APPS)

  /** A request names a process; from version 3 on it brings its identifier. */
  datatype Request = Request(name: seq<uint8>, version: uint32, id: uint32)

  function Find(table: seq<Entry>, name: seq<uint8>): (id: Option<uint8>)
    ensures id.Some? ==> Entry(name, id.value) in table
    ensures id.None? ==> forall e | e in table :: e.name != name
    decreases |table|
  {
    if table == [] then None
    else if table[0].name == name then Some(table[0].id)
    else Find(table[1..], name)
  }

  predicate IdIn(table: seq<Entry>, id: nat) { exists e | e in table :: e.id == id }

  function Increment(counter: uint32): uint32 { (counter + 1) % 0x1_0000_0000 }

  /** The identifier a request is given and, if it is answered, the table it leaves. */
  function Process(s: Ids, q: Request): (Ids, Option<uint32>)
  {
    match Find(s.table, q.name)
    case Some(id) => (Ids(s.table, id), Some(id))
    case None =>
      var id := if q.version >= VERSION_3 then q.id else Increment(s.counter);
      var counter := if q.version >= VERSION_3 then s.counter else id;
      if IdIn(s.table, id) || !Registrable(q.name, id % 0x100)
      then (Ids(s.table, counter), None)
      else (Ids(s.table + [Entry(Kept(q.name), id % 0x100)], id), Some(id))
  }

  /** register_diag_id() takes a length and an identifier of one octet each and refuses zeros. */
  predicate Registrable(name: seq<uint8>, id: uint8) {
    (|name| + 1) % 0x100 != 0 && id != 0
  }

  /** The length of a name wraps with its octet, and the table keeps that much of the name. */
  function Kept(name: seq<uint8>): (kept: seq<uint8>)
    requires (|name| + 1) % 0x100 != 0
    ensures |name| <= 254 ==> kept == name
  {
    name[..(|name| + 1) % 0x100 - 1]
  }

  class DiagIdTable {
    var table: seq<Entry>
    var counter: uint32

    ghost function State(): Ids
      reads this
    {
      Ids(table, counter)
    }

    constructor ()
      ensures State() == START
    {
      table, counter := [], DIAG_ID_APPS;
    }

    /** find_diag_id() */
    method FindDiagId(name: seq<uint8>) returns (id: Option<uint8>)
      ensures id == Find(table, name)
    {
      var i := 0;
      while i < |table|
        invariant i <= |table| && Find(table, name) == Find(table[i..], name)
      {
        assert table[i..][1..] == table[i + 1..];
        if table[i].name == name {
          return Some(table[i].id);
        }
        i := i + 1;
      }
      return None;
    }

    /** diag_id_exists() */
    method DiagIdExists(id: uint32) returns (exists_: bool)
      ensures exists_ == IdIn(table, id)
    {
      var i := 0;
      while i < |table|
        invariant i <= |table| && forall e | e in table[..i] :: e.id != id
      {
        if table[i].id == id {
          return true;
        }
        assert table[..i + 1] == table[..i] + [table[i]];
        i := i + 1;
      }
      assert table[..i] == table;
      return false;
    }

    /** register_diag_id() */
    method RegisterDiagId(id: uint8, name: seq<uint8>, len: uint8) returns (ok: bool)
      requires len == (|name| + 1) % 0x100
      modifies this`table
      ensures ok == Registrable(name, id)
      ensures table == if ok then old(table) + [Entry(Kept(name), id)] else old(table)
    {
      if len == 0 || id == 0 {
        return false;
      }
      table := table + [Entry(name[..len - 1], id)];
      return true;
    }

    /** diag_cntl_process_diag_id(), once it has found the name in the packet. */
    method ProcessDiagId(q: Request) returns (answer: Option<uint32>)
      modifies this
      ensures (State(), answer) == Process(old(State()), q)
    {
      var found := FindDiagId(q.name);
      var id: uint32;
      if found.Some? {
        id := found.value;
      } else {
        if q.version >= VERSION_3 {
          id := q.id;
        } else {
          counter := Increment(counter);
          id := counter;
        }
        var taken := DiagIdExists(id);
        if taken {
          return None;
        }
        var ok := RegisterDiagId(id % 0x100, q.name, (|q.name| + 1) % 0x100);
        if !ok {
          return None;
        }
      }
      counter := id;
      return Some(id);
    }
  }

  // ---------------------------------------------------------------- which identifier is next

  /** What a request is answered, in terms of the table: what the name has, or a new identifier unless it is taken or cannot be registered. */
  lemma AnswerIs(s: Ids, q: Request)
    ensures Find(s.table, q.name).Some? ==> Process(s, q).1 == Some(Find(s.table, q.name).value) && Process(s, q).0.table == s.table
    ensures Find(s.table, q.name).None? && q.version >= 3 ==>
              Process(s, q).1 == if IdIn(s.table, q.id) || q.id % 0x100 == 0 || (|q.name| + 1) % 0x100 == 0 then None else Some(q.id)
    ensures Find(s.table, q.name).None? && q.version < 3 ==>
              var id := (s.counter + 1) % 0x1_0000_0000;
              Process(s, q).1 == if IdIn(s.table, id) || id % 0x100 == 0 || (|q.name| + 1) % 0x100 == 0 then None else Some(id)
    ensures Process(s, q).1.None? ==> Process(s, q).0.table == s.table
  {
  }

  /**
   After a request that was answered, whether its name was known or new, the
   next new name without an identifier of its own is given the one after the
   answer. A refused request uses up the identifier it was tried with, unless
   it had brought it.
   */
  lemma NextNewId(s: Ids, q: Request, next: Request)
    requires next.version < 3 && Find(Process(s, q).0.table, next.name).None?
    requires Process(Process(s, q).0, next).1.Some?
    ensures var last := if Process(s, q).1.Some? then Process(s, q).1.value
                        else if q.version < 3 then s.counter + 1 else s.counter;
            Process(Process(s, q).0, next).1 == Some((last + 1) % 0x1_0000_0000)
  {
    CounterIs(s, q);
    AnswerIs(Process(s, q).0, next);
  }

  lemma CounterIs(s: Ids, q: Request)
    ensures Process(s, q).0.counter
         == if Process(s, q).1.Some? then Process(s, q).1.value
            else if q.version < 3 then (s.counter + 1) % 0x1_0000_0000 else s.counter
  {
  }

  /** So a request for a known name can make the next new name fail that was free before it: its identifier is taken. */
  lemma KnownNameSetsBack()
    ensures var s := Run(START, [Request([1], 1, 0), Request([2], 1, 0)]);
            && s.table == [Entry([1], 2), Entry([2], 3)]
            && Process(s, Request([3], 1, 0)).1 == Some(4)
            && Process(Process(s, Request([1], 1, 0)).0, Request([3], 1, 0)).1 == None
  {
    var s := TwoNames();
    assert s.table[1..] == [Entry([2], 3)] && s.table[1..][1..] == [];
    assert Find(s.table, [3]).None? && Find(s.table, [1]) == Some(2);
    assert forall e | e in s.table :: e.id == 2 || e.id == 3;
    assert s.table[1] in s.table;
  }

  lemma TwoNames() returns (s: Ids)
    ensures s == Run(START, [Request([1], 1, 0), Request([2], 1, 0)]) == Ids([Entry([1], 2), Entry([2], 3)], 3)
  {
    var qs := [Request([1], 1, 0), Request([2], 1, 0)];
    var first := Process(START, qs[0]).0;
    assert first == Ids([Entry([1], 2)], 2);
    assert forall e | e in first.table :: e.id == 2;
    assert first.table[1..] == [] && Find(first.table, [2]).None?;
    s := Process(first, qs[1]).0;
    assert qs[1..] == [qs[1]] && qs[1..][1..] == [];
    assert Run(START, qs) == Run(first, qs[1..]) == Run(s, []);
  }

  // ---------------------------------------------------------------- runs

  predicate DistinctEntries(table: seq<Entry>) {
    forall i, j | 0 <= i < j < |table| :: table[i].name != table[j].name && table[i].id != table[j].id
  }

  predicate Good(s: Ids) { DistinctEntries(s.table) && forall e | e in s.table :: e.id != 0 }

  /** A request whose new identifier, if it needs one, fits an octet. */
  predicate Narrow(s: Ids, q: Request) {
    |q.name| <= 254 && if q.version >= VERSION_3 then q.id < 0x100 else Increment(s.counter) < 0x100
  }

  function Run(s: Ids, qs: seq<Request>): Ids
    decreases |qs|
  {
    if qs == [] then s else Run(Process(s, qs[0]).0, qs[1..])
  }

  predicate AllNarrow(s: Ids, qs: seq<Request>)
    decreases |qs|
  {
    qs == [] || (Narrow(s, qs[0]) && AllNarrow(Process(s, qs[0]).0, qs[1..]))
  }

  lemma ProcessKeeps(s: Ids, q: Request)
    requires Good(s) && Narrow(s, q)
    ensures Good(Process(s, q).0)
  {
    if Find(s.table, q.name).None? {
      assert forall i | 0 <= i < |s.table| :: s.table[i] in s.table;
    }
  }

  /** The identifier that a new name would be given. */
  function Candidate(s: Ids, q: Request): uint32 {
    if q.version >= VERSION_3 then q.id else Increment(s.counter)
  }

  /** A new name whose identifier is not in the table, but whose identifier's low octet is. */
  predicate Clash(s: Ids, q: Request) {
    && Find(s.table, q.name).None? && !IdIn(s.table, Candidate(s, q))
    && Candidate(s, q) % 0x100 != 0 && IdIn(s.table, Candidate(s, q) % 0x100)
  }

  /** A request keeps names and identifiers distinct exactly when it does not clash. */
  lemma StepKeepsIff(s: Ids, q: Request)
    requires Good(s) && |q.name| <= 254
    ensures Good(Process(s, q).0) <==> !Clash(s, q)
  {
    var next := Process(s, q).0.table;
    if |next| > |s.table| {
      AppendKeepsIff(s.table, next[|s.table|], next);
      if Clash(s, q) {
        var e :| e in s.table && e.id == Candidate(s, q) % 0x100;
      }
    } else {
      assert next == s.table;
    }
  }

  /** One more entry of a new name keeps entries distinct exactly when its identifier is new and not zero. */
  lemma AppendKeepsIff(table: seq<Entry>, e: Entry, next: seq<Entry>)
    requires DistinctEntries(table) && (forall d | d in table :: d.id != 0 && d.name != e.name) && next == table + [e]
    ensures DistinctEntries(next) && (forall d | d in next :: d.id != 0) <==> e.id != 0 && !IdIn(table, e.id)
  {
    assert forall i | 0 <= i < |table| :: table[i] in table && next[i] == table[i];
    assert next[|table|] == e && e in next;
    if IdIn(table, e.id) {
      var d :| d in table && d.id == e.id;
      var i :| 0 <= i < |table| && table[i] == d;
      assert next[i].id == next[|table|].id;
    }
  }

  /** Once names or identifiers are not distinct they never are again. */
  lemma BadStays(s: Ids, q: Request)
    requires !Good(s)
    ensures !Good(Process(s, q).0)
  {
    var n, next := |s.table|, Process(s, q).0.table;
    assert forall i | 0 <= i < n :: next[i] == s.table[i] && s.table[i] in next;
    if !DistinctEntries(s.table) {
      var i, j :| 0 <= i < j < n && !(s.table[i].name != s.table[j].name && s.table[i].id != s.table[j].id);
      assert !(next[i].name != next[j].name && next[i].id != next[j].id);
    } else {
      var e :| e in s.table && e.id == 0;
      var i :| 0 <= i < n && s.table[i] == e;
      assert e in next;
    }
  }

  lemma {:induction false} BadForGood(s: Ids, qs: seq<Request>)
    requires !Good(s)
    ensures !Good(Run(s, qs))
    decreases |qs|
  {
    if qs != [] {
      BadStays(s, qs[0]);
      BadForGood(Process(s, qs[0]).0, qs[1..]);
    }
  }

  /** No request of a run clashes. */
  predicate NoClash(s: Ids, qs: seq<Request>)
    decreases |qs|
  {
    qs == [] || (!Clash(s, qs[0]) && NoClash(Process(s, qs[0]).0, qs[1..]))
  }

  /** Over any run of requests of all versions, names and identifiers stay distinct exactly when no request clashes. */
  lemma {:induction false} RunKeepsIff(s: Ids, qs: seq<Request>)
    requires Good(s) && forall q | q in qs :: |q.name| <= 254
    ensures Good(Run(s, qs)) <==> NoClash(s, qs)
    decreases |qs|
  {
    if qs != [] {
      assert qs[0] in qs;
      StepKeepsIff(s, qs[0]);
      var next := Process(s, qs[0]).0;
      if Good(next) {
        RunKeepsIff(next, qs[1..]);
      } else {
        BadForGood(next, qs[1..]);
      }
    }
  }

  /** Names and identifiers stay distinct over every run of narrow requests, of all versions. */
  lemma {:induction false} RunKeeps(s: Ids, qs: seq<Request>)
    requires Good(s) && AllNarrow(s, qs)
    ensures Good(Run(s, qs))
    decreases |qs|
  {
    if qs != [] {
      ProcessKeeps(s, qs[0]);
      RunKeeps(Process(s, qs[0]).0, qs[1..]);
    }
  }

  lemma FindAppend(table: seq<Entry>, e: Entry, name: seq<uint8>)
    ensures Find(table, name).Some? ==> Find(table + [e], name) == Find(table, name)
    ensures Find(table, name).None? ==> Find(table + [e], name) == if e.name == name then Some(e.id) else None
    decreases |table|
  {
    if table != [] {
      assert (table + [e])[1..] == table[1..] + [e];
      FindAppend(table[1..], e, name);
    } else {
      assert Find([e], name) == if e.name == name then Some(e.id) else Find([e][1..], name);
    }
  }

  /** A name keeps its identifier over every run, narrow or not. */
  lemma {:induction false} NameKeepsId(s: Ids, qs: seq<Request>, name: seq<uint8>)
    requires Find(s.table, name).Some?
    ensures Find(Run(s, qs).table, name) == Find(s.table, name)
    decreases |qs|
  {
    if qs != [] {
      var next := Process(s, qs[0]).0;
      if |next.table| > |s.table| {
        FindAppend(s.table, next.table[|s.table|], name);
        assert next.table == s.table + [next.table[|s.table|]];
      }
      NameKeepsId(next, qs[1..], name);
    }
  }

  /**
   A name that was answered gets the same answer whenever it asks again,
   exactly when that answer fits an octet: a wider one is cut to its low octet
   in the table, so the second answer differs from the first.
   */
  lemma SameAnswerIffNarrow(s: Ids, q: Request, between: seq<Request>, again: Request)
    requires Process(s, q).1.Some? && again.name == q.name && |q.name| <= 254
    ensures Process(Run(Process(s, q).0, between), again).1
         == Some(if Find(s.table, q.name).Some? then Process(s, q).1.value else Process(s, q).1.value % 0x100)
    ensures Process(Run(Process(s, q).0, between), again).1 == Process(s, q).1 <==> Process(s, q).1.value < 0x100
  {
    var (next, answer) := Process(s, q);
    if Find(s.table, q.name).None? {
      FindAppend(s.table, Entry(q.name, answer.value % 0x100), q.name);
    }
    NameKeepsId(next, between, q.name);
  }

  /** Two names can end up with one identifier when a request of version 3 brings a wide one. */
  lemma WideIdCollides()
    ensures var s := Run(START, [Request([1], 3, 5), Request([2], 3, 261)]);
            s.table == [Entry([1], 5), Entry([2], 5)]
  {
    var q1, q2 := Request([1], 3, 5), Request([2], 3, 261);
    assert Process(START, q1).0 == Ids([Entry([1], 5)], 5);
    assert [q1, q2][1..] == [q2];
    assert Find([Entry([1], 5)], [2]) == Find([Entry([1], 5)][1..], [2]);
    assert [Entry([1], 5)][1..] == [];
    assert Process(Ids([Entry([1], 5)], 5), q2).0 == Ids([Entry([1], 5)] + [Entry([2], 5)], 261);
    assert Run(Process(Ids([Entry([1], 5)], 5), q2).0, []) == Ids([Entry([1], 5)] + [Entry([2], 5)], 261);
    assert [q2][1..] == [];
  }

  // ---------------------------------------------------------------- trying again

  /** The same request again and again. */
  function Tries(q: Request, n: nat): (qs: seq<Request>)
    ensures |qs| == n
  {
    seq(n, _ => q)
  }

  /** The identifiers of a table. */
  function IdSet(table: seq<Entry>): (ids: set<nat>) {
    set e | e in table :: e.id as nat
  }

  /** The n numbers from lo on. */
  function Range(lo: nat, n: nat): (r: set<nat>)
    ensures |r| == n && forall x :: x in r <==> lo <= x < lo + n
    decreases n
  {
    if n == 0 then {} else Range(lo, n - 1) + {lo + n - 1}
  }

  lemma {:induction false} IdSetSize(table: seq<Entry>)
    ensures |IdSet(table)| <= |table|
    decreases |table|
  {
    if table == [] {
      assert IdSet(table) == {};
    } else {
      var init := table[..|table| - 1];
      IdSetSize(init);
      assert table == init + [table[|table| - 1]];
      assert IdSet(table) == IdSet(init) + {table[|table| - 1].id as nat};
    }
  }

  /** Of one more number than there are entries, one is free. */
  lemma SomeFree(table: seq<Entry>, lo: nat) returns (id: nat)
    ensures lo <= id <= lo + |table| && !IdIn(table, id)
  {
    if forall x | lo <= x <= lo + |table| :: IdIn(table, x) {
      var r := Range(lo, |table| + 1);
      forall x | x in r ensures x in IdSet(table) { assert IdIn(table, x); }
      SubsetSize(r, IdSet(table));
      IdSetSize(table);
      assert false;
    }
    id :| lo <= id <= lo + |table| && !IdIn(table, id);
  }

  lemma {:induction false} SubsetSize(a: set<nat>, b: set<nat>)
    requires a <= b
    ensures |a| <= |b|
    decreases |a|
  {
    if a != {} {
      var x :| x in a;
      SubsetSize(a - {x}, b - {x});
    }
  }

  lemma TakenMovesOn(s: Ids, q: Request)
    requires Find(s.table, q.name).None? && q.version < VERSION_3
    requires s.counter + 1 < 0x100 && IdIn(s.table, s.counter + 1)
    ensures Process(s, q).0 == Ids(s.table, s.counter + 1)
  {
  }

  /** Every try up to a free identifier fails and moves the counter on by one. */
  lemma {:induction false} TriesAdvance(s: Ids, q: Request, n: nat)
    requires Find(s.table, q.name).None? && q.version < VERSION_3 && s.counter + n < 0x100
    requires forall x | s.counter < x <= s.counter + n :: IdIn(s.table, x)
    ensures Run(s, Tries(q, n)) == Ids(s.table, s.counter + n)
    decreases n
  {
    if n > 0 {
      TakenMovesOn(s, q);
      assert Tries(q, n)[1..] == Tries(q, n - 1);
      TriesAdvance(Ids(s.table, s.counter + 1), q, n - 1);
    }
  }

  /** How many identifiers after a counter are taken before the first free one. */
  lemma FirstFree(table: seq<Entry>, counter: nat) returns (n: nat)
    ensures n <= |table| && !IdIn(table, counter + n + 1)
    ensures forall x | counter < x <= counter + n :: IdIn(table, x)
  {
    var id := SomeFree(table, counter + 1);
    n := 0;
    while IdIn(table, counter + n + 1)
      invariant counter + n + 1 <= id
      invariant forall x | counter < x <= counter + n :: IdIn(table, x)
      decreases id - n
    {
      n := n + 1;
    }
  }

  lemma FreeIsAnswered(s: Ids, q: Request)
    requires Find(s.table, q.name).None? && q.version < VERSION_3 && |q.name| <= 254
    requires s.counter + 1 < 0x100 && !IdIn(s.table, s.counter + 1)
    ensures Process(s, q).1 == Some(s.counter + 1)
  {
  }

  /**
   A request of version 1 or 2 that is tried again and again, with nothing else
   registering, is answered within one try more than the table has entries.
   */
  lemma RetrySucceeds(s: Ids, q: Request) returns (n: nat)
    requires Find(s.table, q.name).None? && q.version < VERSION_3 && |q.name| <= 254
    requires s.counter + |s.table| + 1 < 0x100
    ensures n <= |s.table| && Run(s, Tries(q, n)).table == s.table
    ensures Process(Run(s, Tries(q, n)), q).1 == Some(s.counter + n + 1)
    ensures forall x | s.counter < x <= s.counter + n :: IdIn(s.table, x)
  {
    n := FirstFree(s.table, s.counter);
    TriesAdvance(s, q, n);
    FreeIsAnswered(Ids(s.table, s.counter + n), q);
  }
}
