/** Buffers of the mask tables: cells that have been written or not, and the library calls on them. */
module Memory {
  import opened Bytes

  const MASK_INVALID: uint8 := 0
  const MASK_ALL_DISABLED: uint8 := 1
  const MASK_ALL_ENABLED: uint8 := 2
  const MASK_VALID: uint8 := 3

  function BitsToBytes(n: nat): nat { (n + 7) / 8 }

  /** Fresh memory holds nothing that may be read. */
  datatype Cell<T> = Unwritten | Written(value: T)

  predicate AllWritten<T>(cells: seq<Cell<T>>) { forall i | 0 <= i < |cells| :: cells[i].Written? }

  function Values<T>(cells: seq<Cell<T>>): (values: seq<T>)
    requires AllWritten(cells)
    ensures |values| == |cells|
  {
    seq(|cells|, i requires 0 <= i < |cells| => cells[i].value)
  }

  function Store<T>(values: seq<T>): (cells: seq<Cell<T>>)
    ensures |cells| == |values| && AllWritten(cells)
  {
    seq(|values|, i requires 0 <= i < |values| => Written(values[i]))
  }

  /** memset() of the first n cells. */
  function Memset<T>(cells: seq<Cell<T>>, value: T, n: nat): (after: seq<Cell<T>>)
    requires n <= |cells|
    ensures |after| == |cells|
  {
    seq(n, _ => Written(value)) + cells[n..]
  }

  /** memcpy() into a buffer from an offset on. */
  function Memcpy<T>(cells: seq<Cell<T>>, offset: nat, values: seq<T>): (after: seq<Cell<T>>)
    requires offset + |values| <= |cells|
    ensures |after| == |cells|
  {
    cells[..offset] + Store(values) + cells[offset + |values|..]
  }

  /** realloc(): the buffer is cut, or extended by memory that nobody has written. */
  function Realloc<T>(cells: seq<Cell<T>>, size: nat): (after: seq<Cell<T>>)
    ensures |after| == size
  {
    if size <= |cells| then cells[..size] else cells + seq(size - |cells|, _ => Unwritten)
  }

  lemma MemcpyAt<T>(cells: seq<Cell<T>>, offset: nat, values: seq<T>)
    requires offset + |values| <= |cells|
    ensures forall i | 0 <= i < |cells| ::
      Memcpy(cells, offset, values)[i]
      == if offset <= i < offset + |values| then Written(values[i - offset]) else cells[i]
  {
  }
}
