/**
 Division of bit strings by x^16 + x^12 + x^5 + 1, one bit at a time, on a
 register of sixteen bits (RFC 1662, appendix C). Position 0 of a register is
 its least significant bit. This is the reference the table-driven check
 sequence is measured against, and the error detection theorems live here.
 */
module Division {

  type Register = r: seq<bool> | |r| == 16 witness seq(16, i => false)

  /** The bits of 0x8408, that is of x^12 + x^5 + 1 read backwards. */
  const TAPS: Register := [false, false, false, true, false, false, false, false,
                           false, false, true, false, false, false, false, true]

  /** Shifts the register; a bit that drops out flips the taps. */
  function Step(r: Register): Register {
    seq(16, i requires 0 <= i < 16 => (i < 15 && r[i + 1]) != (r[0] && TAPS[i]))
  }

  lemma StepByCases(r: Register)
    ensures Step(r) == if r[0] then Xor(r[1..] + [false], TAPS) else r[1..] + [false]
  {
  }

  function Steps(r: Register, n: nat): Register
    decreases n
  {
    if n == 0 then r else Steps(Step(r), n - 1)
  }

  /** A message bit joins the low end of the register, which then shifts. */
  function Feed(r: Register, b: bool): Register {
    Step(r[0 := r[0] != b])
  }

  function Divide(r: Register, bits: seq<bool>): Register
    decreases |bits|
  {
    if bits == [] then r else Divide(Feed(r, bits[0]), bits[1..])
  }

  function Xor(a: seq<bool>, b: seq<bool>): (c: seq<bool>)
    requires |a| == |b|
    ensures |c| == |a|
  {
    seq(|a|, i requires 0 <= i < |a| => a[i] != b[i])
  }

  /** Whether a bit string holds an odd number of ones. */
  predicate Odd(s: seq<bool>) {
    s != [] && s[0] != Odd(s[1..])
  }

  lemma {:induction false} DivideConcat(r: Register, s: seq<bool>, t: seq<bool>)
    ensures Divide(r, s + t) == Divide(Divide(r, s), t)
    decreases |s|
  {
    if s == [] {
      assert s + t == t;
    } else {
      assert (s + t)[1..] == s[1..] + t;
      DivideConcat(Feed(r, s[0]), s[1..], t);
    }
  }

  // ---------------------------------------------------------------- linearity and injectivity

  lemma StepLinear(a: Register, b: Register)
    ensures Step(Xor(a, b)) == Xor(Step(a), Step(b))
  {
  }

  lemma {:induction false} StepsLinear(a: Register, b: Register, n: nat)
    ensures Steps(Xor(a, b), n) == Xor(Steps(a, n), Steps(b, n))
    decreases n
  {
    if n > 0 {
      StepLinear(a, b);
      StepsLinear(Step(a), Step(b), n - 1);
    }
  }

  lemma {:induction false} StepsConcat(r: Register, m: nat, n: nat)
    ensures Steps(r, m + n) == Steps(Steps(r, m), n)
    decreases m
  {
    if m > 0 {
      StepsConcat(Step(r), m - 1, n);
    }
  }

  lemma StepInjective(a: Register, b: Register)
    requires Step(a) == Step(b)
    ensures a == b
  {
    assert Step(a)[15] == a[0] && Step(b)[15] == b[0];
    forall i | 0 < i < 16 ensures a[i] == b[i] {
      assert Step(a)[i - 1] == Step(b)[i - 1];
    }
  }

  lemma {:induction false} StepsInjective(a: Register, b: Register, n: nat)
    requires Steps(a, n) == Steps(b, n)
    ensures a == b
    decreases n
  {
    if n > 0 {
      StepsInjective(Step(a), Step(b), n - 1);
      StepInjective(a, b);
    }
  }

  /** Distinct registers stay distinct under a common suffix. */
  lemma {:induction false} DivideInjective(a: Register, b: Register, bits: seq<bool>)
    requires Divide(a, bits) == Divide(b, bits)
    ensures a == b
    decreases |bits|
  {
    if bits != [] {
      var c := bits[0];
      DivideInjective(Feed(a, c), Feed(b, c), bits[1..]);
      StepInjective(a[0 := a[0] != c], b[0 := b[0] != c]);
      assert a == a[0 := a[0] != c][0 := a[0]];
      assert b == b[0 := b[0] != c][0 := b[0]];
      assert a[0 := a[0] != c][0] == b[0 := b[0] != c][0];
    }
  }

  // ---------------------------------------------------------------- bursts

  function Pad(bits: seq<bool>): Register
    requires |bits| <= 16
  {
    bits + seq(16 - |bits|, i => false)
  }

  lemma FeedPadded(r: Register, bits: seq<bool>)
    requires 0 < |bits| <= 16
    ensures Xor(Feed(r, bits[0]), Pad(bits[1..])) == Step(Xor(r, Pad(bits)))
  {
    assert Pad(bits)[0] == bits[0];
    forall i | 0 <= i < 15 ensures Pad(bits)[i + 1] == Pad(bits[1..])[i] {}
    assert !Pad(bits[1..])[15];
  }

  /** Up to sixteen bits may be added to the register at once. */
  lemma {:induction false} DividePadded(r: Register, bits: seq<bool>)
    requires |bits| <= 16
    ensures Divide(r, bits) == Steps(Xor(r, Pad(bits)), |bits|)
    decreases |bits|
  {
    if bits == [] {
      assert Xor(r, Pad(bits)) == r;
    } else {
      DividePadded(Feed(r, bits[0]), bits[1..]);
      FeedPadded(r, bits);
    }
  }

  lemma PadInjective(r: Register, v: seq<bool>, w: seq<bool>)
    requires |v| == |w| <= 16 && Xor(r, Pad(v)) == Xor(r, Pad(w))
    ensures v == w
  {
    forall i | 0 <= i < |v| ensures v[i] == w[i] {
      assert Xor(r, Pad(v))[i] == Xor(r, Pad(w))[i];
    }
  }

  /** a and b agree outside the sixteen positions from start. */
  ghost predicate AgreeOutside(a: seq<bool>, b: seq<bool>, start: nat)
    requires |a| == |b|
  {
    forall i | 0 <= i < |a| && !(start <= i < start + 16) :: a[i] == b[i]
  }

  /**
   Two bit strings of equal length that agree outside some sixteen consecutive
   positions leave the same register only if they are equal.
   */
  lemma BurstDetected(r: Register, a: seq<bool>, b: seq<bool>, start: nat)
    requires |a| == |b| && AgreeOutside(a, b, start)
    requires Divide(r, a) == Divide(r, b)
    ensures a == b
  {
    var lo := if start < |a| then start else |a|;
    var hi := if start + 16 < |a| then start + 16 else |a|;
    assert a[..lo] == b[..lo] && a[hi..] == b[hi..];
    DivideAround(r, a, lo, hi);
    DivideAround(r, b, lo, hi);
    var s := Divide(r, a[..lo]);
    DivideInjective(Divide(s, a[lo..hi]), Divide(s, b[lo..hi]), a[hi..]);
    WindowInjective(s, a[lo..hi], b[lo..hi]);
    Reassemble(a, lo, hi);
    Reassemble(b, lo, hi);
  }

  lemma Reassemble(a: seq<bool>, lo: nat, hi: nat)
    requires lo <= hi <= |a|
    ensures a == a[..lo] + (a[lo..hi] + a[hi..])
  {
  }

  lemma DivideAround(r: Register, a: seq<bool>, lo: nat, hi: nat)
    requires lo <= hi <= |a|
    ensures Divide(r, a) == Divide(Divide(Divide(r, a[..lo]), a[lo..hi]), a[hi..])
  {
    Reassemble(a, lo, hi);
    DivideConcat(r, a[..lo], a[lo..hi] + a[hi..]);
    DivideConcat(Divide(r, a[..lo]), a[lo..hi], a[hi..]);
  }

  lemma WindowInjective(r: Register, v: seq<bool>, w: seq<bool>)
    requires |v| == |w| <= 16 && Divide(r, v) == Divide(r, w)
    ensures v == w
  {
    DividePadded(r, v);
    DividePadded(r, w);
    StepsInjective(Xor(r, Pad(v)), Xor(r, Pad(w)), |v|);
    PadInjective(r, v, w);
  }

  // ---------------------------------------------------------------- parity

  lemma {:induction false} OddXor(a: seq<bool>, b: seq<bool>)
    requires |a| == |b|
    ensures Odd(Xor(a, b)) == (Odd(a) != Odd(b))
    decreases |a|
  {
    if a != [] {
      assert Xor(a, b)[1..] == Xor(a[1..], b[1..]);
      OddXor(a[1..], b[1..]);
    }
  }

  lemma {:induction false} OddSnoc(s: seq<bool>, b: bool)
    ensures Odd(s + [b]) == (Odd(s) != b)
    decreases |s|
  {
    if s == [] {
      assert (s + [b])[1..] == [];
    } else {
      assert (s + [b])[1..] == s[1..] + [b];
      OddSnoc(s[1..], b);
    }
  }

  lemma {:induction false} TapsOdd(from: nat)
    requires from <= 16
    ensures Odd(TAPS[from..]) == (from <= 3 || 10 < from <= 15)
    decreases 16 - from
  {
    if from < 16 {
      assert TAPS[from..] == [TAPS[from]] + TAPS[from + 1..];
      assert TAPS[from] == (from == 3 || from == 10 || from == 15);
      TapsOdd(from + 1);
    }
  }

  /** The taps are odd in number, so a step neither gains nor loses a one modulo two. */
  lemma StepParity(r: Register)
    ensures Odd(Step(r)) == Odd(r)
  {
    StepByCases(r);
    OddSnoc(r[1..], false);
    TapsOdd(0);
    assert TAPS[0..] == TAPS;
    OddXor(r[1..] + [false], TAPS);
  }

  lemma FeedParity(r: Register, b: bool)
    ensures Odd(Feed(r, b)) == (Odd(r) != b)
  {
    StepParity(r[0 := r[0] != b]);
    assert r[0 := r[0] != b][1..] == r[1..];
  }

  lemma {:induction false} DivideParity(r: Register, bits: seq<bool>)
    ensures Odd(Divide(r, bits)) == (Odd(r) != Odd(bits))
    decreases |bits|
  {
    if bits != [] {
      FeedParity(r, bits[0]);
      DivideParity(Feed(r, bits[0]), bits[1..]);
    }
  }

  /** An error in an odd number of bits always changes the register. */
  lemma OddErrorDetected(r: Register, a: seq<bool>, b: seq<bool>)
    requires |a| == |b| && Odd(Xor(a, b))
    ensures Divide(r, a) != Divide(r, b)
  {
    OddXor(a, b);
    DivideParity(r, a);
    DivideParity(r, b);
  }
}
