/**
 Octets, the option type, the errno of an operation that would block, and two
 laws of sequences, for use in every module. An octet is a bit vector where the program works on
 its bits (framing and check sequence), and a number where it is part of a
 number (control packets).
 */
module Bytes {

  type byte = bv8

  type uint8 = x: nat | x < 0x100
  type uint16 = x: nat | x < 0x1_0000
  type uint32 = x: nat | x < 0x1_0000_0000

  const EAGAIN: int := 11

  function Min(x: nat, y: nat): nat { if x < y then x else y }

  datatype Option<+T> = None | Some(value: T)

  lemma ConcatAssociative<T>(a: seq<T>, b: seq<T>, c: seq<T>)
    ensures a + (b + c) == (a + b) + c
  {
  }

  lemma Rejoin<T>(a: seq<T>, q: seq<T>, k: nat)
    requires k <= |q|
    ensures a + q[..k] + q[k..] == a + q
  {
    assert q == q[..k] + q[k..];
    ConcatAssociative(a, q[..k], q[k..]);
  }

  /** The bit vector of a number below 256. */
  function OctetOf(n: nat): byte { if n == 0 then 0 else OctetOf(n - 1) + 1 }

  lemma Succ(b: byte)
    requires b != 0xff
    ensures (b + 1) as nat == b as nat + 1
  {
  }

  lemma {:induction false} OctetIs(n: nat)
    requires n < 0x100
    ensures OctetOf(n) as nat == n
  {
    if n > 0 {
      OctetIs(n - 1);
      Succ(OctetOf(n - 1));
    }
  }

  lemma SameOctet(a: byte, b: byte)
    ensures a as nat == b as nat ==> a == b
  {
    assert (a as nat) as byte == a && (b as nat) as byte == b;
  }
}
