/**
 The event mask of router/masks.c: one bit an event, in a buffer that is
 reallocated when an update covers more events than any before it.
 */
module EventMasks {
  import opened Bytes
  import opened Memory

  const APPS_EVENT_LAST_ID: uint16 := 0x0B3F
  const EVENT_MASK_SIZE: nat := 513

  /** What callers see: the number of events known, and the octets that hold their bits. */
  datatype EventMap = EventMap(bits: uint16, octets: seq<uint8>)

  predicate GoodMap(m: EventMap) { |m.octets| == BitsToBytes(m.bits) }

  function InitialEvents(): EventMap {
    EventMap(APPS_EVENT_LAST_ID, Fill(0, BitsToBytes(APPS_EVENT_LAST_ID)))
  }

  function Fill(octet: uint8, n: nat): seq<uint8> { seq(n, _ => octet) }

  datatype EventOp = Update(bits: uint16, mask: seq<uint8>) | Toggle(on: bool)

  predicate Allowed(op: EventOp) {
    op.Update? ==> BitsToBytes(op.bits) <= |op.mask|
  }

  function EventStep(m: EventMap, op: EventOp): (after: EventMap)
    requires GoodMap(m) && Allowed(op)
    ensures GoodMap(after)
  {
    match op
    case Update(bits, mask) =>
      var n := BitsToBytes(bits);
      if bits > m.bits then EventMap(bits, mask[..n]) else EventMap(m.bits, mask[..n] + m.octets[n..])
    case Toggle(on) => EventMap(m.bits, Fill(if on then 0xff else 0, |m.octets|))
  }

  /** Toggling sets or clears every bit, and an update writes its octets before those it leaves alone. */
  lemma EventStepIs(m: EventMap, op: EventOp, i: nat)
    requires GoodMap(m) && Allowed(op) && i < |EventStep(m, op).octets|
    ensures op.Toggle? ==> EventStep(m, op).bits == m.bits && EventStep(m, op).octets[i] == if op.on then 255 else 0
    ensures op.Update? ==>
              && EventStep(m, op).bits == (if op.bits > m.bits then op.bits else m.bits)
              && (8 * i < op.bits ==> EventStep(m, op).octets[i] == op.mask[i])
              && (8 * i >= op.bits ==> i < |m.octets| && EventStep(m, op).octets[i] == m.octets[i])
  {
  }

  lemma PartlyRewritten(cells: seq<Cell<uint8>>, octets: seq<uint8>, len: nat)
    requires AllWritten(cells) && |octets| <= len <= |cells|
    ensures AllWritten(Memcpy(cells, 0, octets))
    ensures Values(Memcpy(cells, 0, octets))[..len] == octets + Values(cells)[..len][|octets|..]
  {
    MemcpyAt(cells, 0, octets);
  }

  lemma Rewritten(cells: seq<Cell<uint8>>, octets: seq<uint8>)
    requires |octets| == |cells|
    ensures AllWritten(Memcpy(cells, 0, octets)) && Values(Memcpy(cells, 0, octets))[..|cells|] == octets
  {
    MemcpyAt(cells, 0, octets);
  }

  class EventMask {
    var ptr: seq<Cell<uint8>>
    var maskLen: nat
    var status: uint8
    var maxBits: uint16

    ghost predicate Valid()
      reads this
    {
      |ptr| == maskLen && AllWritten(ptr) && BitsToBytes(maxBits) <= maskLen
    }

    ghost function Map(): (m: EventMap)
      reads this
      requires Valid()
      ensures GoodMap(m)
    {
      EventMap(maxBits, Values(ptr)[..BitsToBytes(maxBits)])
    }

    /** diag_event_mask_init() */
    constructor ()
      ensures Valid() && Map() == InitialEvents() && status == MASK_INVALID
    {
      maxBits, maskLen, status := APPS_EVENT_LAST_ID, EVENT_MASK_SIZE, MASK_INVALID;
      ptr := Memset(Realloc([], EVENT_MASK_SIZE), 0, EVENT_MASK_SIZE);
      new;
      assert Map().octets == InitialEvents().octets;
    }

    /**
     diag_cmd_get_event_mask(): the octets of the first events, never one that
     was not written; nothing for more events than are known.
     */
    method GetEventMask(numBits: uint16) returns (got: Option<seq<uint8>>)
      requires Valid()
      ensures got == if numBits > Map().bits then None else Some(Map().octets[..BitsToBytes(numBits)])
    {
      if numBits > maxBits {
        return None;
      }
      var mask := Values(ptr[..BitsToBytes(numBits)]);
      assert mask == Map().octets[..BitsToBytes(numBits)];
      return Some(mask);
    }

    /**
     diag_cmd_update_event_mask(). Growing may shrink the buffer, from its
     initial 513 octets, and always rewrites all of it.
     */
    method UpdateEventMask(numBits: uint16, mask: seq<uint8>)
      requires Valid() && BitsToBytes(numBits) <= |mask|
      modifies this
      ensures Valid() && status == MASK_VALID
      ensures Map() == EventStep(old(Map()), Update(numBits, mask))
      ensures maskLen == if numBits > old(maxBits) then BitsToBytes(numBits) else old(maskLen)
    {
      var n := BitsToBytes(numBits);
      if numBits > maxBits {
        ptr := Realloc(ptr, n);
        maxBits := numBits;
        maskLen := n;
      }
      if n < |ptr| {
        PartlyRewritten(ptr, mask[..n], BitsToBytes(maxBits));
      } else {
        Rewritten(ptr, mask[..n]);
      }
      ptr := Memcpy(ptr, 0, mask[..n]);
      status := MASK_VALID;
    }

    /** diag_cmd_toggle_events() */
    method ToggleEvents(enabled: bool)
      requires Valid()
      modifies this
      ensures Valid() && status == if enabled then MASK_ALL_ENABLED else MASK_ALL_DISABLED
      ensures Map() == EventStep(old(Map()), Toggle(enabled)) && maskLen == old(maskLen)
    {
      if enabled {
        ptr := Memset(ptr, 0xff, maskLen);
        status := MASK_ALL_ENABLED;
      } else {
        ptr := Memset(ptr, 0x00, maskLen);
        status := MASK_ALL_DISABLED;
      }
      assert Map().octets == EventStep(old(Map()), Toggle(enabled)).octets;
    }
  }

  // ---------------------------------------------------------------- runs

  predicate AllAllowed(ops: seq<EventOp>) { forall op | op in ops :: Allowed(op) }

  function EventRun(ops: seq<EventOp>): (m: EventMap)
    requires AllAllowed(ops)
    ensures GoodMap(m)
  {
    if ops == [] then InitialEvents()
    else
      assert ops[|ops| - 1] in ops;
      EventStep(EventRun(ops[..|ops| - 1]), ops[|ops| - 1])
  }

  /** The octet an operation writes at a place, if it writes there. */
  function WritesAt(op: EventOp, i: nat): Option<uint8>
    requires Allowed(op)
  {
    match op
    case Update(bits, mask) => if i < BitsToBytes(bits) then Some(mask[i]) else None
    case Toggle(on) => Some(if on then 0xff else 0)
  }

  /** The octet last written at a place that all updates so far allow; zero at first. */
  function LastWrite(ops: seq<EventOp>, i: nat): uint8
    requires AllAllowed(ops)
  {
    if ops == [] then 0
    else
      assert ops[|ops| - 1] in ops;
      match WritesAt(ops[|ops| - 1], i)
      case Some(octet) => octet
      case None => LastWrite(ops[..|ops| - 1], i)
  }

  function MostBits(ops: seq<EventOp>): (bits: uint16)
    ensures bits >= APPS_EVENT_LAST_ID
    ensures forall op | op in ops :: op.Update? ==> op.bits <= bits
    ensures bits == APPS_EVENT_LAST_ID || exists op | op in ops :: op.Update? && op.bits == bits
  {
    if ops == [] then APPS_EVENT_LAST_ID
    else
      var before, op := MostBits(ops[..|ops| - 1]), ops[|ops| - 1];
      assert ops == ops[..|ops| - 1] + [op];
      if op.Update? && op.bits > before then op.bits else before
  }

  /**
   After any run of updates and toggles, as many events are known as the
   largest update named, and every octet of the mask is the one last written there.
   */
  lemma {:induction false} EventRunIsLastWrite(ops: seq<EventOp>, i: nat)
    requires AllAllowed(ops)
    ensures EventRun(ops).bits == MostBits(ops)
    ensures i < BitsToBytes(MostBits(ops)) ==> EventRun(ops).octets[i] == LastWrite(ops, i)
    decreases |ops|
  {
    if ops != [] {
      var init, op := ops[..|ops| - 1], ops[|ops| - 1];
      assert op in ops && Allowed(op);
      EventRunIsLastWrite(init, i);
    }
  }
}
