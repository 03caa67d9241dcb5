/** Packed structures of little-endian fields. */
module Layout {
  import opened Bytes
  import opened LittleEndian

  datatype Field = Field(value: nat, width: nat)

  predicate Fits(f: Field) { f.value < Limit(f.width) }

  predicate AllFit(fields: seq<Field>) { forall i | 0 <= i < |fields| :: Fits(fields[i]) }

  function Pack(fields: seq<Field>): (s: seq<uint8>)
    ensures |s| == Total(Widths(fields))
    decreases |fields|
  {
    if fields == [] then []
    else
      assert Widths(fields)[1..] == Widths(fields[1..]);
      ToLe(fields[0].value, fields[0].width) + Pack(fields[1..])
  }

  function Widths(fields: seq<Field>): (widths: seq<nat>)
    ensures |widths| == |fields|
  {
    seq(|fields|, i requires 0 <= i < |fields| => fields[i].width)
  }

  function Values(fields: seq<Field>): (values: seq<nat>)
    ensures |values| == |fields|
  {
    seq(|fields|, i requires 0 <= i < |fields| => fields[i].value)
  }

  function Total(widths: seq<nat>): nat
    decreases |widths|
  {
    if widths == [] then 0 else widths[0] + Total(widths[1..])
  }

  /** The values of fields of these widths, read one after the other. */
  function Unpack(widths: seq<nat>, s: seq<uint8>): (values: seq<nat>)
    requires Total(widths) <= |s|
    ensures |values| == |widths| && forall i | 0 <= i < |widths| :: values[i] < Limit(widths[i])
    decreases |widths|
  {
    if widths == [] then []
    else
      ToLeLe(s[..widths[0]]);
      [Le(s[..widths[0]])] + Unpack(widths[1..], s[widths[0]..])
  }

  lemma UnpackStep(widths: seq<nat>, a: seq<uint8>, s: seq<uint8>)
    requires widths != [] && |a| == widths[0] && Total(widths[1..]) <= |s|
    ensures Unpack(widths, a + s) == [Le(a)] + Unpack(widths[1..], s)
  {
    assert (a + s)[..|a|] == a && (a + s)[|a|..] == s;
  }

  lemma TailsOf(fields: seq<Field>)
    requires fields != []
    ensures Widths(fields)[1..] == Widths(fields[1..])
    ensures Values(fields) == [fields[0].value] + Values(fields[1..])
  {
  }

  /** What was packed is read back, whatever follows. */
  lemma {:induction false} UnpackPack(fields: seq<Field>, tail: seq<uint8>)
    requires AllFit(fields)
    ensures Unpack(Widths(fields), Pack(fields) + tail) == Values(fields)
    decreases |fields|
  {
    if fields != [] {
      var a, b := ToLe(fields[0].value, fields[0].width), Pack(fields[1..]);
      TailsOf(fields);
      UnpackPack(fields[1..], tail);
      LeToLe(fields[0].value, fields[0].width);
      ConcatAssociative(a, b, tail);
      UnpackStep(Widths(fields), a, b + tail);
    }
  }

  /** An array of 32-bit words. */
  function PackWords(words: seq<uint32>): (s: seq<uint8>)
    ensures |s| == 4 * |words|
    decreases |words|
  {
    if words == [] then [] else ToLe(words[0], 4) + PackWords(words[1..])
  }

  function UnpackWords(s: seq<uint8>): seq<uint32>
    decreases |s|
  {
    if |s| < 4 then []
    else
      ToLeLe(s[..4]); Limits();
      [Le(s[..4])] + UnpackWords(s[4..])
  }

  lemma {:induction false} UnpackPackWords(words: seq<uint32>)
    ensures UnpackWords(PackWords(words)) == words
    decreases |words|
  {
    if words != [] {
      var s := PackWords(words);
      Limits();
      LeToLe(words[0], 4);
      assert s[..4] == ToLe(words[0], 4) && s[4..] == PackWords(words[1..]);
      UnpackPackWords(words[1..]);
    }
  }
}
