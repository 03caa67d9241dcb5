/** Unsigned integers in memory, least significant octet first. */
module LittleEndian {
  import opened Bytes

  /** The n low octets of x. */
  function ToLe(x: nat, n: nat): (s: seq<uint8>)
    ensures |s| == n
    decreases n
  {
    if n == 0 then [] else [x % 0x100] + ToLe(x / 0x100, n - 1)
  }

  function Le(s: seq<uint8>): nat
    decreases |s|
  {
    if s == [] then 0 else s[0] + 0x100 * Le(s[1..])
  }

  function Limit(n: nat): (limit: nat)
    ensures limit > 0
    decreases n
  {
    if n == 0 then 1 else 0x100 * Limit(n - 1)
  }

  lemma {:induction false} LeToLe(x: nat, n: nat)
    requires x < Limit(n)
    ensures Le(ToLe(x, n)) == x
    decreases n
  {
    if n > 0 {
      LeToLe(x / 0x100, n - 1);
      assert ToLe(x, n)[1..] == ToLe(x / 0x100, n - 1);
    }
  }

  lemma {:induction false} ToLeLe(s: seq<uint8>)
    ensures Le(s) < Limit(|s|) && ToLe(Le(s), |s|) == s
    decreases |s|
  {
    if s != [] {
      ToLeLe(s[1..]);
      assert s == [s[0]] + s[1..];
    }
  }

  /** A 16-bit field takes 2 octets, a 32-bit one 4. */
  lemma Limits()
    ensures Limit(1) == 0x100 && Limit(2) == 0x1_0000 && Limit(4) == 0x1_0000_0000
  {
    assert Limit(0) == 1 && Limit(3) == 0x100 * Limit(2);
  }
}
