/**
 Taking a number apart into bits, in general terms: low(x) is the bit taken
 off x and half(x) what remains.
 */
module Unpacking {
  import opened Division

  function Unpack<T>(low: T -> bool, half: T -> T, x: T, n: nat): (bits: seq<bool>)
    ensures |bits| == n
    decreases n
  {
    if n == 0 then [] else [low(x)] + Unpack(low, half, half(x), n - 1)
  }

  /** What remains of x after n bits. */
  function Drop<T>(half: T -> T, x: T, n: nat): T
    decreases n
  {
    if n == 0 then x else Drop(half, half(x), n - 1)
  }

  lemma {:induction false} UnpackXor<T(!new)>(low: T -> bool, half: T -> T, op: (T, T) -> T, x: T, y: T, n: nat)
    requires forall a, b :: low(op(a, b)) == (low(a) != low(b)) && half(op(a, b)) == op(half(a), half(b))
    ensures Unpack(low, half, op(x, y), n) == Xor(Unpack(low, half, x, n), Unpack(low, half, y, n))
    decreases n
  {
    if n > 0 {
      UnpackXor(low, half, op, half(x), half(y), n - 1);
    }
  }

  lemma {:induction false} UnpackInjective<T(!new)>(low: T -> bool, half: T -> T, x: T, y: T, n: nat)
    requires forall a, b :: low(a) == low(b) && half(a) == half(b) ==> a == b
    requires Unpack(low, half, x, n) == Unpack(low, half, y, n) && Drop(half, x, n) == Drop(half, y, n)
    ensures x == y
    decreases n
  {
    if n > 0 {
      var u, v := Unpack(low, half, x, n), Unpack(low, half, y, n);
      assert u[0] == v[0] && u[1..] == v[1..];
      UnpackInjective(low, half, half(x), half(y), n - 1);
    }
  }

  lemma {:induction false} UnpackConcat<T>(low: T -> bool, half: T -> T, x: T, n: nat, k: nat)
    ensures Unpack(low, half, x, n + k) == Unpack(low, half, x, n) + Unpack(low, half, Drop(half, x, n), k)
    decreases n
  {
    if n > 0 {
      UnpackConcat(low, half, half(x), n - 1, k);
    }
  }

  lemma {:induction false} UnpackZero<T>(low: T -> bool, half: T -> T, zero: T, k: nat)
    requires !low(zero) && half(zero) == zero
    ensures Unpack(low, half, zero, k) == seq(k, i => false)
    decreases k
  {
    if k > 0 {
      UnpackZero(low, half, zero, k - 1);
    }
  }
}
