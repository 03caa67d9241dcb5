/**
 The log masks of router/masks.c: for each of 16 equipment identifiers, a count
 of log items and a bit mask over them.
 */
module LogMasks {
  import opened Bytes
  import opened Memory

  const MAX_EQUIP_ID: nat := 16
  const MAX_ITEMS_ALLOWED: nat := 0xFFF
  const MAX_ITEMS_PER_EQUIP_ID: nat := 512

  datatype LogItem = LogItem(equipId: uint8, numItems: nat, range: nat, rangeTools: nat, ptr: seq<Cell<uint8>>)

  /** What a caller sees of an entry. */
  datatype LogMask = LogMask(numItems: nat, mask: seq<uint8>)

  /** The number of items an entry starts with. */
  function InitialItems(equipId: nat): (items: nat)
    ensures items <= MAX_ITEMS_ALLOWED
  {
    if equipId == 1 then 0xA02
    else if equipId == 4 then 0x910
    else if equipId == 5 then 0x420
    else if equipId == 7 then 0x4FF
    else if equipId == 10 then 0x38A
    else if equipId == 11 then 0x201
    else if equipId == 13 then 0x1FF
    else 0
  }

  function Zeros(n: nat): seq<uint8> { seq(n, _ => 0) }

  /** The map that the table stands for. */
  type LogMap = map<nat, LogMask>

  function InitialMap(): LogMap {
    map e: nat | e < MAX_EQUIP_ID :: LogMask(InitialItems(e), Zeros(BitsToBytes(InitialItems(e))))
  }

  /** A mask as it is kept: the item count is capped, and octets past the count are dropped. */
  function Capped(numItems: nat, mask: seq<uint8>): LogMask
    requires BitsToBytes(Min(numItems, MAX_ITEMS_ALLOWED)) <= |mask|
  {
    var n := Min(numItems, MAX_ITEMS_ALLOWED);
    LogMask(n, mask[..BitsToBytes(n)])
  }

  predicate GoodItem(item: LogItem) {
    && item.numItems <= MAX_ITEMS_ALLOWED
    && item.range == item.rangeTools == |item.ptr| == MAX_ITEMS_PER_EQUIP_ID && AllWritten(item.ptr)
  }

  function Seen(item: LogItem): LogMask
    requires GoodItem(item)
  {
    LogMask(item.numItems, Values(item.ptr)[..BitsToBytes(item.numItems)])
  }

  predicate GoodTable(table: seq<LogItem>) {
    |table| == MAX_EQUIP_ID && forall i {:trigger table[i]} | 0 <= i < MAX_EQUIP_ID :: table[i].equipId == i && GoodItem(table[i])
  }

  function MapOf(table: seq<LogItem>): LogMap
    requires GoodTable(table)
  {
    map e: nat | e < MAX_EQUIP_ID :: Seen(table[e])
  }

  class LogTable {
    var table: seq<LogItem>
    var status: uint8

    ghost predicate Valid()
      reads this
    {
      GoodTable(table)
    }

    ghost function Map(): LogMap
      reads this
      requires Valid()
    {
      MapOf(table)
    }

    /** diag_log_mask_init() */
    constructor ()
      ensures Valid() && Map() == InitialMap() && status == MASK_INVALID
    {
      var items: seq<LogItem> := [];
      var e := 0;
      while e < MAX_EQUIP_ID
        invariant e <= MAX_EQUIP_ID && |items| == e
        invariant forall i | 0 <= i < e ::
          && items[i].equipId == i && GoodItem(items[i]) && Seen(items[i]) == InitialMap()[i]
      {
        var n := InitialItems(e);
        var range := if BitsToBytes(n) > MAX_ITEMS_PER_EQUIP_ID then BitsToBytes(n) else MAX_ITEMS_PER_EQUIP_ID;
        var item := LogItem(e, n, range, range, Memset(Realloc([], range), 0, range));
        assert Seen(item).mask == Zeros(BitsToBytes(n));
        items := items + [item];
        e := e + 1;
      }
      table, status := items, MASK_INVALID;
    }

    /** diag_cmd_disable_log(): all bits are cleared, the item counts stay. */
    method DisableLog()
      requires Valid()
      modifies this
      ensures Valid() && status == MASK_ALL_DISABLED
      ensures Map() == Disabled(old(Map()))
    {
      var i := 0;
      while i < MAX_EQUIP_ID
        invariant i <= MAX_EQUIP_ID && GoodTable(table)
        invariant forall e | 0 <= e < i :: Seen(table[e]) == LogMask(old(Map())[e].numItems, Zeros(|old(Map())[e].mask|))
        invariant forall e | i <= e < MAX_EQUIP_ID :: table[e] == old(table)[e]
      {
        assert Seen(Cleared(table[i])).mask == Zeros(|Seen(table[i]).mask|);
        table := table[i := Cleared(table[i])];
        i := i + 1;
      }
      status := MASK_ALL_DISABLED;
    }

    /**
     diag_cmd_set_log_mask(). The buffers are as large as the largest mask that
     the cap lets through, so the branch that reallocates them is never taken.
     */
    method SetLogMask(equipId: uint8, numItems: uint32, mask: seq<uint8>)
      returns (ret: int, keptItems: nat, maskSize: nat)
      requires Valid()
      requires BitsToBytes(Min(numItems, MAX_ITEMS_ALLOWED)) <= |mask|
      modifies this
      ensures Valid()
      ensures if equipId < MAX_EQUIP_ID
              then ret == 0 && status == MASK_VALID && Map() == old(Map())[equipId := Capped(numItems, mask)]
                && keptItems == Min(numItems, MAX_ITEMS_ALLOWED) && maskSize == BitsToBytes(keptItems)
              else ret == 1 && table == old(table) && status == old(status)
    {
      keptItems, maskSize := numItems, 0;
      var i := 0;
      while i < MAX_EQUIP_ID
        invariant i <= MAX_EQUIP_ID && i <= equipId && table == old(table) && status == old(status)
      {
        if table[i].equipId != equipId {
          i := i + 1;
          continue;
        }
        var item := table[i];
        keptItems := Min(numItems, MAX_ITEMS_ALLOWED);
        maskSize := BitsToBytes(keptItems);
        var ptr := Memset(item.ptr, 0, item.rangeTools);
        if maskSize > item.rangeTools {
          assert false;
        }
        MemcpyAt(ptr, 0, mask[..maskSize]);
        ptr := Memcpy(ptr, 0, mask[..maskSize]);
        table := table[i := item.(numItems := keptItems, ptr := ptr)];
        assert Seen(table[i]).mask == mask[..maskSize];
        status := MASK_VALID;
        return 0, keptItems, maskSize;
      }
      ret := 1;
    }

    /** diag_cmd_get_log_mask() */
    method GetLogMask(equipId: uint32) returns (got: Option<LogMask>)
      requires Valid()
      ensures got == if equipId in Map() then Some(Map()[equipId]) else None
    {
      var i := 0;
      while i < MAX_EQUIP_ID
        invariant i <= MAX_EQUIP_ID && i <= equipId
      {
        var item := table[i];
        if item.equipId != equipId {
          i := i + 1;
          continue;
        }
        return Some(LogMask(item.numItems, Values(item.ptr)[..BitsToBytes(item.numItems)]));
      }
      return None;
    }
  }

  function Cleared(item: LogItem): LogItem
    requires GoodItem(item)
  {
    item.(ptr := Memset(item.ptr, 0, item.range))
  }

  function Disabled(m: LogMap): LogMap {
    map e | e in m :: LogMask(m[e].numItems, Zeros(|m[e].mask|))
  }

  /** Disabling clears every octet of every mask, and keeps the item counts and the sizes. */
  lemma DisabledIs(m: LogMap, e: nat, i: nat)
    requires e in m
    ensures e in Disabled(m) && Disabled(m)[e].numItems == m[e].numItems && |Disabled(m)[e].mask| == |m[e].mask|
    ensures i < |m[e].mask| ==> Disabled(m)[e].mask[i] == 0
  {
  }

  /** A mask that is set has at most 4095 items, and the octets that were given for those. */
  lemma CappedIs(numItems: nat, mask: seq<uint8>, i: nat)
    requires BitsToBytes(Min(numItems, MAX_ITEMS_ALLOWED)) <= |mask|
    ensures var c := Capped(numItems, mask);
            && c.numItems == (if numItems > 4095 then 4095 else numItems)
            && c.numItems <= 8 * |c.mask| < c.numItems + 8
            && (i < |c.mask| ==> c.mask[i] == mask[i])
  {
  }

  // ---------------------------------------------------------------- runs

  datatype LogOp = SetLog(equipId: uint8, numItems: uint32, mask: seq<uint8>) | DisableAll

  predicate Allowed(op: LogOp) {
    op.SetLog? ==> BitsToBytes(Min(op.numItems, MAX_ITEMS_ALLOWED)) <= |op.mask|
  }

  function LogStep(m: LogMap, op: LogOp): LogMap
    requires Allowed(op)
  {
    match op
    case SetLog(e, n, mask) => if e < MAX_EQUIP_ID then m[e as nat := Capped(n, mask)] else m
    case DisableAll => Disabled(m)
  }

  function LogRun(ops: seq<LogOp>): LogMap
    requires forall op | op in ops :: Allowed(op)
  {
    if ops == [] then InitialMap() else LogStep(LogRun(ops[..|ops| - 1]), ops[|ops| - 1])
  }

  /** The position after the last operation that sets an entry; zero when none does. */
  function LastSet(ops: seq<LogOp>, e: nat): (n: nat)
    ensures n <= |ops|
    ensures n > 0 ==> ops[n - 1].SetLog? && ops[n - 1].equipId == e
    ensures forall i | n <= i < |ops| :: ops[i].SetLog? ==> ops[i].equipId != e
  {
    if ops == [] then 0
    else if ops[|ops| - 1].SetLog? && ops[|ops| - 1].equipId == e then |ops|
    else LastSet(ops[..|ops| - 1], e)
  }

  /** What was last set for an entry. */
  function Standing(ops: seq<LogOp>, e: nat): LogMask
    requires e < MAX_EQUIP_ID && forall op | op in ops :: Allowed(op)
  {
    var n := LastSet(ops, e);
    if n == 0 then LogMask(InitialItems(e), Zeros(BitsToBytes(InitialItems(e))))
    else
      assert ops[n - 1] in ops && Allowed(ops[n - 1]);
      Capped(ops[n - 1].numItems, ops[n - 1].mask)
  }

  function Faded(m: LogMask, disabled: bool): LogMask {
    if disabled then LogMask(m.numItems, Zeros(|m.mask|)) else m
  }

  lemma StepAt(m: LogMap, op: LogOp, e: nat)
    requires Allowed(op) && e in m && e < MAX_EQUIP_ID
    ensures e in LogStep(m, op)
    ensures LogStep(m, op)[e] == if op.SetLog? && op.equipId == e then Capped(op.numItems, op.mask)
                                 else Faded(m[e], op.DisableAll?)
  {
  }

  lemma FadedTwice(m: LogMask, disabled: bool)
    ensures Faded(Faded(m, disabled), true) == Faded(m, true)
  {
  }

  lemma InSnoc(ops: seq<LogOp>, op: LogOp)
    ensures DisableAll in ops + [op] <==> DisableAll in ops || op == DisableAll
  {
  }

  lemma StandingSnoc(ops: seq<LogOp>, op: LogOp, e: nat)
    requires e < MAX_EQUIP_ID && Allowed(op) && forall o | o in ops + [op] :: Allowed(o)
    requires forall o | o in ops :: Allowed(o)
    ensures var n := LastSet(ops + [op], e);
            if op.SetLog? && op.equipId == e
            then Standing(ops + [op], e) == Capped(op.numItems, op.mask) && (ops + [op])[n..] == []
            else n == LastSet(ops, e) && Standing(ops + [op], e) == Standing(ops, e) && (ops + [op])[n..] == ops[n..] + [op]
  {
    assert (ops + [op])[..|ops + [op]| - 1] == ops;
  }

  /**
   After any run of operations an entry holds what was last set for it, with
   its bits cleared when logging was disabled since; other entries do not matter.
   */
  lemma {:induction false} LogRunIsLastSet(ops: seq<LogOp>, e: nat)
    requires e < MAX_EQUIP_ID && forall op | op in ops :: Allowed(op)
    ensures e in LogRun(ops)
    ensures LogRun(ops)[e] == Faded(Standing(ops, e), DisableAll in ops[LastSet(ops, e)..])
    decreases |ops|
  {
    if ops != [] {
      var init, op := ops[..|ops| - 1], ops[|ops| - 1];
      assert ops == init + [op];
      LogRunIsLastSet(init, e);
      assert Allowed(op) && LogRun(ops) == LogStep(LogRun(init), op);
      StepAt(LogRun(init), op, e);
      StandingSnoc(init, op, e);
      InSnoc(init[LastSet(init, e)..], op);
      FadedTwice(Standing(init, e), DisableAll in init[LastSet(init, e)..]);
    }
  }
}
