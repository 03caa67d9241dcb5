/** Bitwise operations on numbers. */
module BitOps {

  /** The bits that two numbers have in common. */
  function And(x: nat, y: nat): (z: nat)
    ensures z <= x && z <= y
    decreases x
  {
    if x == 0 || y == 0 then 0 else (x % 2) * (y % 2) + 2 * And(x / 2, y / 2)
  }

  /** The bits of either of two numbers. */
  function Or(x: nat, y: nat): nat
    decreases x + y
  {
    if x == 0 then y
    else if y == 0 then x
    else (if x % 2 == 1 || y % 2 == 1 then 1 else 0) + 2 * Or(x / 2, y / 2)
  }

  /** x << n */
  function Shl(x: nat, n: nat): nat
    decreases n
  {
    if n == 0 then x else 2 * Shl(x, n - 1)
  }

  predicate HasBit(x: nat, i: nat)
    decreases i
  {
    if i == 0 then x % 2 == 1 else HasBit(x / 2, i - 1)
  }

  lemma {:induction false} HasBitAnd(x: nat, y: nat, i: nat)
    ensures HasBit(And(x, y), i) <==> HasBit(x, i) && HasBit(y, i)
    decreases i
  {
    AndHalves(x, y);
    if i > 0 { HasBitAnd(x / 2, y / 2, i - 1); }
  }

  lemma AndHalves(x: nat, y: nat)
    ensures And(x, y) / 2 == And(x / 2, y / 2)
    ensures And(x, y) % 2 == 1 <==> x % 2 == 1 && y % 2 == 1
  {
    if x == 0 || y == 0 {
      assert And(x, y) == 0 && And(x / 2, y / 2) == 0;
    } else {
      var bit := (x % 2) * (y % 2);
      assert bit == if x % 2 == 1 && y % 2 == 1 then 1 else 0;
    }
  }

  lemma {:induction false} HasBitOr(x: nat, y: nat, i: nat)
    ensures HasBit(Or(x, y), i) <==> HasBit(x, i) || HasBit(y, i)
    decreases i
  {
    OrHalves(x, y);
    if i > 0 { HasBitOr(x / 2, y / 2, i - 1); }
  }

  lemma OrHalves(x: nat, y: nat)
    ensures Or(x, y) / 2 == Or(x / 2, y / 2)
    ensures Or(x, y) % 2 == 1 <==> x % 2 == 1 || y % 2 == 1
  {
  }

  /** A field that fits below a shifted one is added to it by an or. */
  lemma {:induction false} OrBelow(x: nat, n: nat, y: nat)
    requires y < Shl(1, n)
    ensures Or(Shl(x, n), y) == Shl(x, n) + y
    decreases n
  {
    if n > 0 && x > 0 && y > 0 {
      OrBelow(x, n - 1, y / 2);
      ShlPositive(x, n);
      assert Shl(x, n) / 2 == Shl(x, n - 1) && Shl(x, n) % 2 == 0;
    } else if x == 0 {
      ShlZero(n);
    }
  }

  lemma {:induction false} ShlPositive(x: nat, n: nat)
    requires x > 0
    ensures Shl(x, n) > 0
    decreases n
  {
    if n > 0 { ShlPositive(x, n - 1); }
  }

  lemma {:induction false} ShlZero(n: nat)
    ensures Shl(0, n) == 0
    decreases n
  {
    if n > 0 { ShlZero(n - 1); }
  }

  lemma {:induction false} ShlAdd(x: nat, m: nat, n: nat)
    ensures Shl(x, m + n) == Shl(Shl(x, m), n)
    decreases n
  {
    if n > 0 { ShlAdd(x, m, n - 1); }
  }

  lemma ShlEight(x: nat)
    ensures Shl(x, 8) == 0x100 * x
  {
    assert Shl(x, 4) == 0x10 * x;
  }

  lemma ShlSixteen(x: nat)
    ensures Shl(x, 16) == 0x1_0000 * x
  {
    ShlAdd(x, 8, 8);
    ShlEight(x);
    ShlEight(Shl(x, 8));
  }

  lemma ShlTwentyFour(x: nat)
    ensures Shl(x, 24) == 0x100_0000 * x
  {
    ShlAdd(x, 8, 16);
    ShlEight(x);
    ShlSixteen(Shl(x, 8));
  }

  lemma OrAboveSixteen(high: nat, low: nat)
    requires low < 0x1_0000
    ensures Or(0x1_0000 * high, low) == 0x1_0000 * high + low
  {
    ShlSixteen(high);
    ShlSixteen(1);
    OrBelow(high, 16, low);
  }

  lemma OrAboveTwentyFour(high: nat, low: nat)
    requires low < 0x100_0000
    ensures Or(0x100_0000 * high, low) == 0x100_0000 * high + low
  {
    ShlTwentyFour(high);
    ShlTwentyFour(1);
    OrBelow(high, 24, low);
  }
}
