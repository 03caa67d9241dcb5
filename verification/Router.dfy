/**
 Command routing of router/router.c: three lists of 32-bit key ranges, searched
 in turn. The middle list changes as peripherals register and deregister
 ranges and go away (router/diag_cntl.c).
 */
module Router {
  import opened Bytes
  import opened BitOps

  const ENOENT: int := 2
  const EINVAL: int := 22
  const EMSGSIZE: int := 90

  datatype Handler = Callback(id: nat) | ToPeripheral(p: nat)

  datatype Cmd = Cmd(first: nat, last: nat, handler: Handler)

  // ---------------------------------------------------------------- keys

  /** The commands that carry a subsystem and a 16-bit code. */
  predicate IsDispatch(cmd: uint8) { cmd == 75 || cmd == 128 }

  /** Command, subsystem and code shifted and ored into a word of 32 bits. */
  function Join(cmd: uint16, subsys: uint16, code: uint16): nat {
    Or(Or(cmd * 0x100_0000 % 0x1_0000_0000, subsys * 0x1_0000), code)
  }

  /** The shifts of the program, cut to 32 bits, are these products. */
  lemma JoinIsOr(cmd: uint16, subsys: uint16, code: uint16)
    ensures Join(cmd, subsys, code) == Or(Or(Shl(cmd, 24) % 0x1_0000_0000, Shl(subsys, 16)), code)
  {
    ShlTwentyFour(cmd);
    ShlSixteen(subsys);
  }

  /** Fields that fit are added up. */
  lemma JoinIsSum(cmd: uint8, subsys: uint8, code: uint16)
    ensures Join(cmd, subsys, code) == Fields(cmd, subsys, code)
  {
    OrAboveTwentyFour(cmd, 0x1_0000 * subsys);
    OrAboveSixteen(0x100 * cmd + subsys, code);
  }

  function Fields(cmd: nat, subsys: nat, code: nat): nat {
    cmd * 0x100_0000 + subsys * 0x1_0000 + code
  }

  function Code(b2: uint8, b3: uint8): uint16 { b3 * 0x100 + b2 }

  /** The key of a request, from its first four octets. */
  function RequestKey(b0: uint8, b1: uint8, b2: uint8, b3: uint8): nat {
    if IsDispatch(b0) then Join(b0, b1, Code(b2, b3)) else 0xffff_0000 + b0
  }

  /** A registration for command 0xff and a subsystem means the subsystem dispatch command. */
  function EntryCmd(cmd: uint16, subsys: uint16): uint16 {
    if cmd == 0xff && subsys != 0xff then 75 else cmd
  }

  function EntryKey(cmd: uint16, subsys: uint16, code: uint16): nat {
    Join(EntryCmd(cmd, subsys), subsys, code)
  }

  predicate Covers(c: Cmd, key: nat) {
    c.first <= key <= c.last
  }

  lemma JoinBetween(c: uint8, s: uint8, first: uint16, last: uint16, d: uint8, t: uint8, code: uint16)
    ensures Join(c, s, first) <= Join(d, t, code) <= Join(c, s, last) <==> d == c && t == s && first <= code <= last
  {
    JoinIsSum(c, s, first);
    JoinIsSum(c, s, last);
    JoinIsSum(d, t, code);
    FieldsBetween(c, s, first, last, d, t, code);
  }

  lemma FieldsBetween(c: uint8, s: uint8, first: uint16, last: uint16, d: uint8, t: uint8, code: uint16)
    ensures Fields(c, s, first) <= Fields(d, t, code) <= Fields(c, s, last) <==> d == c && t == s && first <= code <= last
  {
  }

  /**
   The flat 32-bit test means what the fields mean: a subsystem request is
   covered when command, subsystem and code range agree, a registration for
   command 0xff and a subsystem standing for the first dispatch command; a
   plain request when the entry is for plain commands and its range holds it.
   */
  lemma FlatKeysAreStructured(cmd: uint8, subsys: uint8, first: uint16, last: uint16, handler: Handler,
                              b0: uint8, b1: uint8, b2: uint8, b3: uint8)
    ensures Covers(Cmd(EntryKey(cmd, subsys, first), EntryKey(cmd, subsys, last), handler), RequestKey(b0, b1, b2, b3))
       <==> if b0 == 75 || b0 == 128
            then (cmd == b0 || (b0 == 75 && cmd == 0xff && subsys != 0xff))
              && subsys == b1 && first <= b2 + 0x100 * b3 <= last
            else cmd == 0xff && subsys == 0xff && first <= b0 <= last
  {
    if IsDispatch(b0) {
      JoinBetween(EntryCmd(cmd, subsys), subsys, first, last, b0, b1, Code(b2, b3));
    } else {
      JoinIsSum(0xff, 0xff, b0);
      JoinBetween(EntryCmd(cmd, subsys), subsys, first, last, 0xff, 0xff, b0);
    }
  }

  // ---------------------------------------------------------------- dispatch

  /** The first entry that covers a key. */
  function FirstMatch(cmds: seq<Cmd>, key: nat): Option<Handler> {
    if cmds == [] then None
    else if Covers(cmds[0], key) then Some(cmds[0].handler)
    else FirstMatch(cmds[1..], key)
  }

  /** Every entry that covers a key, in list order. */
  function AllMatches(cmds: seq<Cmd>, key: nat): seq<Handler> {
    if cmds == [] then []
    else AllMatches(cmds[..|cmds| - 1], key) + (if Covers(cmds[|cmds| - 1], key) then [cmds[|cmds| - 1].handler] else [])
  }

  /** What happens to a request, in order: handlers that get it and replies to its client. */
  datatype Delivery = Handled(handler: Handler, client: nat, msg: seq<byte>) | Replied(client: nat, msg: seq<byte>)

  function Deliveries(handlers: seq<Handler>, client: nat, msg: seq<byte>): (ds: seq<Delivery>)
    ensures |ds| == |handlers|
  {
    seq(|handlers|, i requires 0 <= i < |handlers| => Handled(handlers[i], client, msg))
  }

  /**
   Who gets a request with a key: the first matching common command alone; or
   else every matching entry of the peripherals; or else the first fallback.
   */
  function Route(common: seq<Cmd>, diag: seq<Cmd>, fallback: seq<Cmd>, key: nat): seq<Handler> {
    match FirstMatch(common, key)
    case Some(h) => [h]
    case None =>
      if AllMatches(diag, key) != [] then AllMatches(diag, key)
      else
        match FirstMatch(fallback, key)
        case Some(h) => [h]
        case None => []
  }

  /** The status of a dispatch: that of the common or fallback handler, zero for peripherals. */
  function Status(common: seq<Cmd>, diag: seq<Cmd>, fallback: seq<Cmd>, key: nat, results: Handler -> int): int {
    match FirstMatch(common, key)
    case Some(h) => results(h)
    case None =>
      if AllMatches(diag, key) != [] then 0
      else
        match FirstMatch(fallback, key)
        case Some(h) => results(h)
        case None => -ENOENT
  }

  /** The octet that opens an error reply. */
  function ErrorCode(status: int): Option<byte> {
    if status == -ENOENT then Some(0x13)
    else if status == -EINVAL then Some(0x14)
    else if status == -EMSGSIZE then Some(0x15)
    else None
  }

  /** A request that no entry covers, and only such a one, goes nowhere, and is reported with code 0x13. */
  lemma UnroutedIsBadCommand(common: seq<Cmd>, diag: seq<Cmd>, fallback: seq<Cmd>, key: nat, results: Handler -> int)
    ensures Route(common, diag, fallback, key) == []
       <==> forall c | c in common + diag + fallback :: !Covers(c, key)
    ensures Route(common, diag, fallback, key) == [] ==>
              Status(common, diag, fallback, key, results) == -2 && ErrorCode(-2) == Some(0x13)
  {
    FirstMatchNone(common, key);
    FirstMatchNone(fallback, key);
    AllMatchesNone(diag, key);
    assert forall c :: c in common + diag + fallback <==> c in common || c in diag || c in fallback;
  }

  lemma {:induction false} FirstMatchNone(cmds: seq<Cmd>, key: nat)
    ensures FirstMatch(cmds, key).None? <==> forall c | c in cmds :: !Covers(c, key)
    decreases |cmds|
  {
    if cmds != [] {
      FirstMatchNone(cmds[1..], key);
      assert forall c :: c in cmds <==> c == cmds[0] || c in cmds[1..];
    }
  }

  lemma {:induction false} AllMatchesNone(cmds: seq<Cmd>, key: nat)
    ensures AllMatches(cmds, key) == [] <==> forall c | c in cmds :: !Covers(c, key)
    decreases |cmds|
  {
    if cmds != [] {
      var init, last := cmds[..|cmds| - 1], cmds[|cmds| - 1];
      AllMatchesNone(init, key);
      assert cmds == init + [last];
      assert forall c :: c in cmds <==> c in init || c == last;
    }
  }

  // ---------------------------------------------------------------- the three tiers, on entries

  /** The i-th entry is the first that covers a key. */
  predicate FirstAt(cmds: seq<Cmd>, key: nat, i: nat) {
    i < |cmds| && Covers(cmds[i], key) && forall j | 0 <= j < i :: !Covers(cmds[j], key)
  }

  predicate NoneCovers(cmds: seq<Cmd>, key: nat) {
    forall c | c in cmds :: !Covers(c, key)
  }

  lemma {:induction false} FirstMatchIsFirst(cmds: seq<Cmd>, key: nat) returns (i: nat)
    requires !NoneCovers(cmds, key)
    ensures FirstAt(cmds, key, i) && FirstMatch(cmds, key) == Some(cmds[i].handler)
    decreases |cmds|
  {
    if Covers(cmds[0], key) {
      i := 0;
    } else {
      i := FirstMatchIsFirst(cmds[1..], key);
      i := i + 1;
      forall j | 0 <= j < i ensures !Covers(cmds[j], key) {
        if j > 0 { assert cmds[j] == cmds[1..][j - 1]; }
      }
    }
  }

  /**
   Who gets a request and with what status, tier by tier: the first common
   entry that covers it alone decides; without one the peripherals get it and
   nobody's result counts; without those the first fallback decides; and a
   request for nobody is -ENOENT.
   */
  predicate Decided(common: seq<Cmd>, diag: seq<Cmd>, fallback: seq<Cmd>, key: nat, results: Handler -> int,
                    handlers: seq<Handler>, status: int)
  {
    if !NoneCovers(common, key) then DecidedBy(common, key, results, handlers, status)
    else if !NoneCovers(diag, key) then handlers == AllMatches(diag, key) != [] && status == 0
    else if !NoneCovers(fallback, key) then DecidedBy(fallback, key, results, handlers, status)
    else handlers == [] && status == -2
  }

  predicate DecidedBy(cmds: seq<Cmd>, key: nat, results: Handler -> int, handlers: seq<Handler>, status: int) {
    exists i | 0 <= i < |cmds| :: FirstAt(cmds, key, i) && handlers == [cmds[i].handler] && status == results(cmds[i].handler)
  }

  lemma Tiers(common: seq<Cmd>, diag: seq<Cmd>, fallback: seq<Cmd>, key: nat, results: Handler -> int)
    ensures Decided(common, diag, fallback, key, results,
                    Route(common, diag, fallback, key), Status(common, diag, fallback, key, results))
  {
    FirstMatchNone(common, key);
    FirstMatchNone(fallback, key);
    AllMatchesNone(diag, key);
    if !NoneCovers(common, key) { var i := FirstMatchIsFirst(common, key); }
    if !NoneCovers(fallback, key) { var i := FirstMatchIsFirst(fallback, key); }
  }

  /** What the client of a request is told about its status. */
  function Report(status: int, enabled: bool, client: nat, msg: seq<byte>): seq<Delivery> {
    if ErrorCode(status).Some? && enabled then [Replied(client, [ErrorCode(status).value] + msg)] else []
  }

  /** An enabled client is told of the three errors, each with its own code, and of nothing else. */
  lemma ReportIs(status: int, enabled: bool, client: nat, msg: seq<byte>)
    ensures enabled && status == -2 ==> Report(status, enabled, client, msg) == [Replied(client, [0x13] + msg)]
    ensures enabled && status == -22 ==> Report(status, enabled, client, msg) == [Replied(client, [0x14] + msg)]
    ensures enabled && status == -90 ==> Report(status, enabled, client, msg) == [Replied(client, [0x15] + msg)]
    ensures Report(status, enabled, client, msg) != [] <==> enabled && (status == -2 || status == -22 || status == -90)
  {
  }

  class Router {
    var common: seq<Cmd>
    var diag: seq<Cmd>
    var fallback: seq<Cmd>
    /** Clients that are enabled; others are sent nothing. */
    var enabled: set<nat>
    var log: seq<Delivery>

    constructor ()
      ensures common == diag == fallback == [] && enabled == {} && log == []
    {
      common, diag, fallback, enabled, log := [], [], [], {}, [];
    }

    /** A loop that hands a request to the first matching entry and returns what that returns. */
    method RunFirst(cmds: seq<Cmd>, key: nat, client: nat, msg: seq<byte>, results: Handler -> int)
      returns (status: Option<int>)
      modifies this`log
      ensures var h := FirstMatch(cmds, key);
              && status == (if h.Some? then Some(results(h.value)) else None)
              && log == old(log) + Deliveries(if h.Some? then [h.value] else [], client, msg)
    {
      var i := 0;
      while i < |cmds|
        invariant i <= |cmds| && log == old(log)
        invariant FirstMatch(cmds, key) == FirstMatch(cmds[i..], key)
      {
        assert cmds[i..][1..] == cmds[i + 1..];
        if Covers(cmds[i], key) {
          log := log + [Handled(cmds[i].handler, client, msg)];
          return Some(results(cmds[i].handler));
        }
        i := i + 1;
      }
      return None;
    }

    /** The loop over the peripherals' entries, which counts the handlers it reached. */
    method RunAll(key: nat, client: nat, msg: seq<byte>) returns (handled: nat)
      modifies this`log
      ensures handled == |AllMatches(diag, key)|
      ensures log == old(log) + Deliveries(AllMatches(diag, key), client, msg)
    {
      handled := 0;
      var i := 0;
      while i < |diag|
        invariant i <= |diag| && handled == |AllMatches(diag[..i], key)|
        invariant log == old(log) + Deliveries(AllMatches(diag[..i], key), client, msg)
      {
        assert diag[..i + 1][..i] == diag[..i];
        if Covers(diag[i], key) {
          DeliveriesSnoc(AllMatches(diag[..i], key), diag[i].handler, client, msg);
          ConcatAssociative(old(log), Deliveries(AllMatches(diag[..i], key), client, msg),
                            [Handled(diag[i].handler, client, msg)]);
          log := log + [Handled(diag[i].handler, client, msg)];
          handled := handled + 1;
        }
        i := i + 1;
      }
      assert diag[..|diag|] == diag;
    }

    /**
     diag_cmd_dispatch() of the first len octets of mem. The key is computed
     from four octets whatever len is. results tells what each handler returns.
     */
    method Dispatch(client: nat, mem: seq<byte>, len: nat, results: Handler -> int) returns (status: int)
      requires 4 <= |mem| && len <= |mem|
      modifies this`log
      ensures status == Status(common, diag, fallback, KeyOf(mem), results)
      ensures log == old(log) + Deliveries(Route(common, diag, fallback, KeyOf(mem)), client, mem[..len])
      ensures Decided(common, diag, fallback, KeyOf(mem), results, Route(common, diag, fallback, KeyOf(mem)), status)
    {
      Tiers(common, diag, fallback, KeyOf(mem), results);
      var key, msg := KeyOf(mem), mem[..len];
      var ret := RunFirst(common, key, client, msg, results);
      if ret.Some? {
        return ret.value;
      }
      var handled := RunAll(key, client, msg);
      if handled > 0 {
        return 0;
      }
      ret := RunFirst(fallback, key, client, msg, results);
      return if ret.Some? then ret.value else -ENOENT;
    }

    /**
     diag_client_handle_command(): after the dispatch, an error status is
     reported to an enabled client with the request appended to its code.
     */
    method HandleCommand(client: nat, mem: seq<byte>, len: nat, results: Handler -> int)
      requires 4 <= |mem| && len <= |mem|
      modifies this`log
      ensures var handlers, status := Route(common, diag, fallback, KeyOf(mem)), Status(common, diag, fallback, KeyOf(mem), results);
              && Decided(common, diag, fallback, KeyOf(mem), results, handlers, status)
              && log == old(log) + Deliveries(handlers, client, mem[..len]) + Report(status, client in enabled, client, mem[..len])
      ensures NoneCovers(common, KeyOf(mem)) && !NoneCovers(diag, KeyOf(mem)) ==>
                log == old(log) + Deliveries(AllMatches(diag, KeyOf(mem)), client, mem[..len])
    {
      ReportIs(0, client in enabled, client, mem[..len]);
      var ret := Dispatch(client, mem, len, results);
      var code := ErrorCode(ret);
      if code.Some? && client in enabled {
        log := log + [Replied(client, [code.value] + mem[..len])];
      }
    }
  }

  function KeyOf(mem: seq<byte>): nat
    requires 4 <= |mem|
  {
    RequestKey(mem[0] as nat, mem[1] as nat, mem[2] as nat, mem[3] as nat)
  }

  /** The key of a request is covered when command, subsystem and code in its first four octets are. */
  lemma RequestCovered(cmd: uint8, subsys: uint8, first: uint16, last: uint16, handler: Handler, mem: seq<byte>)
    requires 4 <= |mem|
    ensures Covers(Cmd(EntryKey(cmd, subsys, first), EntryKey(cmd, subsys, last), handler), KeyOf(mem))
       <==> if mem[0] == 75 || mem[0] == 128
            then (cmd == mem[0] as nat || (mem[0] == 75 && cmd == 0xff && subsys != 0xff))
              && subsys == mem[1] as nat && first <= mem[2] as nat + 0x100 * mem[3] as nat <= last
            else cmd == 0xff && subsys == 0xff && first <= mem[0] as nat <= last
  {
    FlatKeysAreStructured(cmd, subsys, first, last, handler, mem[0] as nat, mem[1] as nat, mem[2] as nat, mem[3] as nat);
  }

  lemma DeliveriesSnoc(handlers: seq<Handler>, h: Handler, client: nat, msg: seq<byte>)
    ensures Deliveries(handlers + [h], client, msg) == Deliveries(handlers, client, msg) + [Handled(h, client, msg)]
  {
  }
}
