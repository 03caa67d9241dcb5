/**
 The frame check sequence of the HDLC codec: the 256-entry table of
 router/hdlc.c and the bit-serial division by x^16 + x^12 + x^5 + 1 that the
 table abbreviates (RFC 1662, appendix C).

 A message is fed to the division least significant bit first. Three
 guarantees hold for messages of every length: the table computes the
 division; a message followed by its own check sequence, and no other pair of
 octets, leaves the constant residue; and neither an error confined to 16
 consecutive bits nor an error in an odd number of bits goes unnoticed.
 */
module Crc {
  import opened Bytes
  import opened Division
  import opened Unpacking

  const INITIAL: bv16 := 0xffff
  const RESIDUE: bv16 := 0xf0b8

  /** The lookup table, by high and low nibble of the index. */
  function CrcTable(index: byte): bv16 {
    match index >> 4
    case 0 => (match index & 0xf
      case 0 => 0x0000 case 1 => 0x1189 case 2 => 0x2312 case 3 => 0x329b
      case 4 => 0x4624 case 5 => 0x57ad case 6 => 0x6536 case 7 => 0x74bf
      case 8 => 0x8c48 case 9 => 0x9dc1 case 10 => 0xaf5a case 11 => 0xbed3
      case 12 => 0xca6c case 13 => 0xdbe5 case 14 => 0xe97e case _ => 0xf8f7)
    case 1 => (match index & 0xf
      case 0 => 0x1081 case 1 => 0x0108 case 2 => 0x3393 case 3 => 0x221a
      case 4 => 0x56a5 case 5 => 0x472c case 6 => 0x75b7 case 7 => 0x643e
      case 8 => 0x9cc9 case 9 => 0x8d40 case 10 => 0xbfdb case 11 => 0xae52
      case 12 => 0xdaed case 13 => 0xcb64 case 14 => 0xf9ff case _ => 0xe876)
    case 2 => (match index & 0xf
      case 0 => 0x2102 case 1 => 0x308b case 2 => 0x0210 case 3 => 0x1399
      case 4 => 0x6726 case 5 => 0x76af case 6 => 0x4434 case 7 => 0x55bd
      case 8 => 0xad4a case 9 => 0xbcc3 case 10 => 0x8e58 case 11 => 0x9fd1
      case 12 => 0xeb6e case 13 => 0xfae7 case 14 => 0xc87c case _ => 0xd9f5)
    case 3 => (match index & 0xf
      case 0 => 0x3183 case 1 => 0x200a case 2 => 0x1291 case 3 => 0x0318
      case 4 => 0x77a7 case 5 => 0x662e case 6 => 0x54b5 case 7 => 0x453c
      case 8 => 0xbdcb case 9 => 0xac42 case 10 => 0x9ed9 case 11 => 0x8f50
      case 12 => 0xfbef case 13 => 0xea66 case 14 => 0xd8fd case _ => 0xc974)
    case 4 => (match index & 0xf
      case 0 => 0x4204 case 1 => 0x538d case 2 => 0x6116 case 3 => 0x709f
      case 4 => 0x0420 case 5 => 0x15a9 case 6 => 0x2732 case 7 => 0x36bb
      case 8 => 0xce4c case 9 => 0xdfc5 case 10 => 0xed5e case 11 => 0xfcd7
      case 12 => 0x8868 case 13 => 0x99e1 case 14 => 0xab7a case _ => 0xbaf3)
    case 5 => (match index & 0xf
      case 0 => 0x5285 case 1 => 0x430c case 2 => 0x7197 case 3 => 0x601e
      case 4 => 0x14a1 case 5 => 0x0528 case 6 => 0x37b3 case 7 => 0x263a
      case 8 => 0xdecd case 9 => 0xcf44 case 10 => 0xfddf case 11 => 0xec56
      case 12 => 0x98e9 case 13 => 0x8960 case 14 => 0xbbfb case _ => 0xaa72)
    case 6 => (match index & 0xf
      case 0 => 0x6306 case 1 => 0x728f case 2 => 0x4014 case 3 => 0x519d
      case 4 => 0x2522 case 5 => 0x34ab case 6 => 0x0630 case 7 => 0x17b9
      case 8 => 0xef4e case 9 => 0xfec7 case 10 => 0xcc5c case 11 => 0xddd5
      case 12 => 0xa96a case 13 => 0xb8e3 case 14 => 0x8a78 case _ => 0x9bf1)
    case 7 => (match index & 0xf
      case 0 => 0x7387 case 1 => 0x620e case 2 => 0x5095 case 3 => 0x411c
      case 4 => 0x35a3 case 5 => 0x242a case 6 => 0x16b1 case 7 => 0x0738
      case 8 => 0xffcf case 9 => 0xee46 case 10 => 0xdcdd case 11 => 0xcd54
      case 12 => 0xb9eb case 13 => 0xa862 case 14 => 0x9af9 case _ => 0x8b70)
    case 8 => (match index & 0xf
      case 0 => 0x8408 case 1 => 0x9581 case 2 => 0xa71a case 3 => 0xb693
      case 4 => 0xc22c case 5 => 0xd3a5 case 6 => 0xe13e case 7 => 0xf0b7
      case 8 => 0x0840 case 9 => 0x19c9 case 10 => 0x2b52 case 11 => 0x3adb
      case 12 => 0x4e64 case 13 => 0x5fed case 14 => 0x6d76 case _ => 0x7cff)
    case 9 => (match index & 0xf
      case 0 => 0x9489 case 1 => 0x8500 case 2 => 0xb79b case 3 => 0xa612
      case 4 => 0xd2ad case 5 => 0xc324 case 6 => 0xf1bf case 7 => 0xe036
      case 8 => 0x18c1 case 9 => 0x0948 case 10 => 0x3bd3 case 11 => 0x2a5a
      case 12 => 0x5ee5 case 13 => 0x4f6c case 14 => 0x7df7 case _ => 0x6c7e)
    case 10 => (match index & 0xf
      case 0 => 0xa50a case 1 => 0xb483 case 2 => 0x8618 case 3 => 0x9791
      case 4 => 0xe32e case 5 => 0xf2a7 case 6 => 0xc03c case 7 => 0xd1b5
      case 8 => 0x2942 case 9 => 0x38cb case 10 => 0x0a50 case 11 => 0x1bd9
      case 12 => 0x6f66 case 13 => 0x7eef case 14 => 0x4c74 case _ => 0x5dfd)
    case 11 => (match index & 0xf
      case 0 => 0xb58b case 1 => 0xa402 case 2 => 0x9699 case 3 => 0x8710
      case 4 => 0xf3af case 5 => 0xe226 case 6 => 0xd0bd case 7 => 0xc134
      case 8 => 0x39c3 case 9 => 0x284a case 10 => 0x1ad1 case 11 => 0x0b58
      case 12 => 0x7fe7 case 13 => 0x6e6e case 14 => 0x5cf5 case _ => 0x4d7c)
    case 12 => (match index & 0xf
      case 0 => 0xc60c case 1 => 0xd785 case 2 => 0xe51e case 3 => 0xf497
      case 4 => 0x8028 case 5 => 0x91a1 case 6 => 0xa33a case 7 => 0xb2b3
      case 8 => 0x4a44 case 9 => 0x5bcd case 10 => 0x6956 case 11 => 0x78df
      case 12 => 0x0c60 case 13 => 0x1de9 case 14 => 0x2f72 case _ => 0x3efb)
    case 13 => (match index & 0xf
      case 0 => 0xd68d case 1 => 0xc704 case 2 => 0xf59f case 3 => 0xe416
      case 4 => 0x90a9 case 5 => 0x8120 case 6 => 0xb3bb case 7 => 0xa232
      case 8 => 0x5ac5 case 9 => 0x4b4c case 10 => 0x79d7 case 11 => 0x685e
      case 12 => 0x1ce1 case 13 => 0x0d68 case 14 => 0x3ff3 case _ => 0x2e7a)
    case 14 => (match index & 0xf
      case 0 => 0xe70e case 1 => 0xf687 case 2 => 0xc41c case 3 => 0xd595
      case 4 => 0xa12a case 5 => 0xb0a3 case 6 => 0x8238 case 7 => 0x93b1
      case 8 => 0x6b46 case 9 => 0x7acf case 10 => 0x4854 case 11 => 0x59dd
      case 12 => 0x2d62 case 13 => 0x3ceb case 14 => 0x0e70 case _ => 0x1ff9)
    case _ => (match index & 0xf
      case 0 => 0xf78f case 1 => 0xe606 case 2 => 0xd49d case 3 => 0xc514
      case 4 => 0xb1ab case 5 => 0xa022 case 6 => 0x92b9 case 7 => 0x8330
      case 8 => 0x7bc7 case 9 => 0x6a4e case 10 => 0x58d5 case 11 => 0x495c
      case 12 => 0x3de3 case 13 => 0x2c6a case 14 => 0x1ef1 case _ => 0x0f78)
  }

  function CrcByte(crc: bv16, ch: byte): bv16 {
    (crc >> 8) ^ CrcTable(((crc ^ ch as bv16) & 0xff) as byte)
  }

  /** The running crc over a message, as the encoder's loop updates it. */
  function CrcOf(crc: bv16, msg: seq<byte>): bv16 {
    if msg == [] then crc else CrcByte(CrcOf(crc, msg[..|msg| - 1]), msg[|msg| - 1])
  }

  /** The two octets appended to a message: complemented, low octet first. */
  function FcsOctets(crc: bv16): (fcs: seq<byte>)
    ensures |fcs| == 2
  {
    [(!crc & 0xff) as byte, (!crc >> 8) as byte]
  }

  function Fcs(msg: seq<byte>): (fcs: seq<byte>)
    ensures |fcs| == 2
  {
    FcsOctets(CrcOf(INITIAL, msg))
  }

  // ---------------------------------------------------------------- registers as bits

  predicate Low(x: bv16) { x & 1 == 1 }

  function Half(x: bv16): bv16 { x >> 1 }

  /** The n low bits of x, least significant first. */
  function LowBits(x: bv16, n: nat): (bits: seq<bool>)
    ensures |bits| == n
  {
    Unpack(Low, Half, x, n)
  }

  function Bits(x: bv16): Register {
    LowBits(x, 16)
  }

  function OctetBits(ch: byte): (bits: seq<bool>)
    ensures |bits| == 8
  {
    LowBits(ch as bv16, 8)
  }

  /** A message as a bit string, each octet least significant bit first. */
  function MessageBits(msg: seq<byte>): (bits: seq<bool>)
    ensures |bits| == 8 * |msg|
  {
    if msg == [] then [] else MessageBits(msg[..|msg| - 1]) + OctetBits(msg[|msg| - 1])
  }

  function BitXor(x: bv16, y: bv16): bv16 { x ^ y }

  lemma LowHalfXor(x: bv16, y: bv16)
    ensures Low(x ^ y) == (Low(x) != Low(y)) && Half(x ^ y) == Half(x) ^ Half(y)
  {
  }

  lemma LowHalfBitXor(x: bv16, y: bv16)
    ensures Low(BitXor(x, y)) == (Low(x) != Low(y)) && Half(BitXor(x, y)) == BitXor(Half(x), Half(y))
  {
    LowHalfXor(x, y);
  }

  lemma BitsXor(x: bv16, y: bv16)
    ensures Bits(x ^ y) == Xor(Bits(x), Bits(y))
  {
    forall a, b
      ensures Low(BitXor(a, b)) == (Low(a) != Low(b)) && Half(BitXor(a, b)) == BitXor(Half(a), Half(b))
    {
      LowHalfBitXor(a, b);
    }
    UnpackXor(Low, Half, BitXor, x, y, 16);
    assert BitXor(x, y) == x ^ y;
  }

  lemma LowHalfInjective(x: bv16, y: bv16)
    requires Low(x) == Low(y) && Half(x) == Half(y)
    ensures x == y
  {
  }

  lemma DropWord(x: bv16)
    ensures Drop(Half, x, 16) == 0 && Drop(Half, x, 8) == x >> 8
    ensures Drop(Half, x >> 1, 15) == 0
  {
  }

  lemma BitsInjective(x: bv16, y: bv16)
    requires Bits(x) == Bits(y)
    ensures x == y
  {
    forall a, b | Low(a) == Low(b) && Half(a) == Half(b) ensures a == b { LowHalfInjective(a, b); }
    DropWord(x);
    DropWord(y);
    UnpackInjective(Low, Half, x, y, 16);
  }

  lemma ZeroBits(k: nat)
    ensures LowBits(0, k) == seq(k, i => false)
  {
    UnpackZero(Low, Half, 0 as bv16, k);
  }

  lemma BitsHalf(x: bv16)
    ensures Bits(x >> 1) == Bits(x)[1..] + [false]
  {
    DropWord(x);
    UnpackConcat(Low, Half, x >> 1, 15, 1);
    ZeroBits(1);
  }

  lemma BitsHigh(x: bv16)
    ensures Bits(x) == LowBits(x, 8) + LowBits(x >> 8, 8)
    ensures Bits(x >> 8) == LowBits(x >> 8, 8) + seq(8, i => false)
  {
    DropWord(x);
    UnpackConcat(Low, Half, x, 8, 8);
    UnpackConcat(Low, Half, x >> 8, 8, 8);
    DropWord(x >> 8);
    ZeroBits(8);
  }

  // ---------------------------------------------------------------- the table is the division

  /** One division step on the crc itself. */
  function Shift(x: bv16): bv16 {
    if x & 1 == 1 then (x >> 1) ^ 0x8408 else x >> 1
  }

  lemma TapBits()
    ensures Bits(0x8408) == TAPS
  {
    UnpackConcat(Low, Half, 0x8408 as bv16, 4, 12);
    UnpackConcat(Low, Half, 0x840 as bv16, 4, 8);
    UnpackConcat(Low, Half, 0x84 as bv16, 4, 4);
  }

  lemma ShiftIsStep(x: bv16)
    ensures Bits(Shift(x)) == Step(Bits(x))
  {
    StepByCases(Bits(x));
    BitsHalf(x);
    TapBits();
    if x & 1 == 1 {
      BitsXor(x >> 1, 0x8408);
    }
  }

  /** Four steps at once: the low nibble n comes back as n * x^12 + n * x^7 + n. */
  function FourShifts(x: bv16): bv16 {
    var n := x & 0xf;
    (x >> 4) ^ (n << 12) ^ (n << 7) ^ n
  }

  /** A step without a branch: the bit that is shifted out comes back three times. */
  function OneShift(x: bv16): bv16 {
    var n := x & 0x1;
    (x >> 1) ^ (n << 15) ^ (n << 10) ^ (n << 3)
  }

  lemma OneShiftIsShift(x: bv16)
    ensures OneShift(x) == Shift(x)
  {
    if x & 1 == 1 {
      assert OneShift(x) == (x >> 1) ^ 0x8408;
    } else {
      assert OneShift(x) == x >> 1;
    }
  }

  function TwoShifts(x: bv16): bv16 {
    var n := x & 0x3;
    (x >> 2) ^ (n << 14) ^ (n << 9) ^ (n << 2)
  }

  lemma TwiceOneShift(x: bv16)
    ensures TwoShifts(x) == OneShift(OneShift(x))
  {
  }

  lemma TwoShiftsAreShifts(x: bv16)
    ensures TwoShifts(x) == Shift(Shift(x))
  {
    TwiceOneShift(x);
    OneShiftIsShift(x);
    OneShiftIsShift(OneShift(x));
  }

  lemma TwiceTwoShifts(x: bv16)
    ensures FourShifts(x) == TwoShifts(TwoShifts(x))
  {
  }

  lemma FourShiftsAreShifts(x: bv16)
    ensures FourShifts(x) == Shift(Shift(Shift(Shift(x))))
  {
    TwiceTwoShifts(x);
    TwoShiftsAreShifts(x);
    TwoShiftsAreShifts(TwoShifts(x));
  }

  lemma TableIsFourShifts(index: byte)
    ensures CrcTable(index) == FourShifts(FourShifts(index as bv16))
  {
  }

  lemma FourSteps(x: bv16)
    ensures Bits(FourShifts(x)) == Steps(Bits(x), 4)
  {
    FourShiftsAreShifts(x);
    ShiftIsStep(x);
    ShiftIsStep(Shift(x));
    ShiftIsStep(Shift(Shift(x)));
    ShiftIsStep(Shift(Shift(Shift(x))));
    StepsConcat(Bits(x), 1, 3);
    StepsConcat(Bits(Shift(x)), 1, 2);
    StepsConcat(Bits(Shift(Shift(x))), 1, 1);
  }

  lemma EightSteps(x: bv16)
    ensures Bits(FourShifts(FourShifts(x))) == Steps(Bits(x), 8)
  {
    FourSteps(x);
    FourSteps(FourShifts(x));
    StepsConcat(Bits(x), 4, 4);
  }

  /** Every entry of the table is eight division steps. */
  lemma TableEntry(index: byte)
    ensures Bits(CrcTable(index)) == Steps(Bits(index as bv16), 8)
  {
    TableIsFourShifts(index);
    EightSteps(index as bv16);
  }

  lemma HighOctet(h: bv16)
    requires h < 0x100
    ensures FourShifts(h << 8) == h << 4 && FourShifts(h << 4) == h
  {
  }

  lemma BitsOfXor(m: bv16, x: bv16, y: bv16)
    requires m == x ^ y
    ensures Bits(m) == Xor(Bits(x), Bits(y))
  {
    BitsXor(x, y);
  }

  lemma SplitWord(m: bv16)
    ensures Bits(m) == Xor(Bits((m >> 8) << 8), Bits(m & 0xff)) && m >> 8 < 0x100
  {
    BitsOfXor(m, (m >> 8) << 8, m & 0xff);
  }

  lemma BitsOctet(ch: byte)
    ensures Bits(ch as bv16) == Pad(OctetBits(ch))
  {
    BitsHigh(ch as bv16);
    ZeroBits(8);
  }

  lemma HighOctetSteps(h: bv16)
    requires h < 0x100
    ensures Steps(Bits(h << 8), 8) == Bits(h)
  {
    HighOctet(h);
    EightSteps(h << 8);
  }

  lemma LowOctetSteps(m: bv16)
    ensures Steps(Bits(m & 0xff), 8) == Bits(CrcTable((m & 0xff) as byte))
  {
    LowOctet(m);
    TableEntry((m & 0xff) as byte);
  }

  lemma LowOctet(m: bv16)
    ensures ((m & 0xff) as byte) as bv16 == m & 0xff
  {
  }

  lemma SplitSteps(high: bv16, low: bv16, m: bv16)
    requires high < 0x100 && Bits(m) == Xor(Bits(high << 8), Bits(low))
    ensures Steps(Bits(m), 8) == Xor(Bits(high), Steps(Bits(low), 8))
  {
    StepsLinear(Bits(high << 8), Bits(low), 8);
    HighOctetSteps(high);
  }

  /** The high octet of the register shifts down while the low octet becomes its table entry. */
  lemma WordSteps(m: bv16)
    ensures Steps(Bits(m), 8) == Xor(Bits(m >> 8), Bits(CrcTable((m & 0xff) as byte)))
  {
    SplitWord(m);
    SplitSteps(m >> 8, m & 0xff, m);
    LowOctetSteps(m);
  }

  lemma MixOctet(crc: bv16, ch: byte)
    ensures Bits(crc ^ ch as bv16) == Xor(Bits(crc), Pad(OctetBits(ch)))
  {
    BitsXor(crc, ch as bv16);
    BitsOctet(ch);
  }

  lemma DivideOctet(crc: bv16, ch: byte)
    ensures Divide(Bits(crc), OctetBits(ch)) == Steps(Bits(crc ^ ch as bv16), 8)
  {
    DividePadded(Bits(crc), OctetBits(ch));
    MixOctet(crc, ch);
  }

  lemma CrcByteBits(crc: bv16, ch: byte)
    ensures Bits(CrcByte(crc, ch))
         == Xor(Bits((crc ^ ch as bv16) >> 8), Bits(CrcTable(((crc ^ ch as bv16) & 0xff) as byte)))
  {
    HighOctetOfMix(crc, ch as bv16);
    BitsOfXor(CrcByte(crc, ch), crc >> 8, CrcTable(((crc ^ ch as bv16) & 0xff) as byte));
  }

  lemma HighOctetOfMix(crc: bv16, ch: bv16)
    requires ch < 0x100
    ensures Bits((crc ^ ch) >> 8) == Bits(crc >> 8)
  {
    assert (crc ^ ch) >> 8 == crc >> 8;
  }

  /** A table step divides by one octet. */
  lemma OctetIsDivision(crc: bv16, ch: byte)
    ensures Bits(CrcByte(crc, ch)) == Divide(Bits(crc), OctetBits(ch))
  {
    var m := crc ^ ch as bv16;
    DivideOctet(crc, ch);
    WordSteps(m);
    CrcByteBits(crc, ch);
  }

  lemma {:induction false} CrcIsDivision(crc: bv16, msg: seq<byte>)
    ensures Bits(CrcOf(crc, msg)) == Divide(Bits(crc), MessageBits(msg))
    decreases |msg|
  {
    if msg != [] {
      var front, last := msg[..|msg| - 1], msg[|msg| - 1];
      CrcIsDivision(crc, front);
      OctetIsDivision(CrcOf(crc, front), last);
      DivideConcat(Bits(crc), MessageBits(front), OctetBits(last));
    }
  }

  // ---------------------------------------------------------------- error detection

  lemma OctetBitsInjective(a: byte, b: byte)
    requires OctetBits(a) == OctetBits(b)
    ensures a == b
  {
    BitsOctet(a);
    BitsOctet(b);
    BitsInjective(a as bv16, b as bv16);
  }

  lemma ConcatInjective(a: seq<bool>, b: seq<bool>, c: seq<bool>, d: seq<bool>)
    requires |a| == |c| && a + b == c + d
    ensures a == c && b == d
  {
    assert a == (a + b)[..|a|] && c == (c + d)[..|c|];
    assert b == (a + b)[|a|..] && d == (c + d)[|c|..];
  }

  lemma {:induction false} MessageBitsInjective(a: seq<byte>, b: seq<byte>)
    requires MessageBits(a) == MessageBits(b)
    ensures a == b
    decreases |a|
  {
    if |a| > 0 {
      var fa, fb := a[..|a| - 1], b[..|b| - 1];
      ConcatInjective(MessageBits(fa), OctetBits(a[|a| - 1]), MessageBits(fb), OctetBits(b[|b| - 1]));
      MessageBitsInjective(fa, fb);
      OctetBitsInjective(a[|a| - 1], b[|b| - 1]);
      assert a == fa + [a[|a| - 1]] && b == fb + [b[|b| - 1]];
    }
  }

  /** b differs from a, by no more than an error burst of sixteen bits. */
  ghost predicate Burst(a: seq<byte>, b: seq<byte>) {
    |a| == |b| && a != b && exists start: nat :: AgreeOutside(MessageBits(a), MessageBits(b), start)
  }

  /** b differs from a in an odd number of bits. */
  ghost predicate OddError(a: seq<byte>, b: seq<byte>) {
    |a| == |b| && Odd(Xor(MessageBits(a), MessageBits(b)))
  }

  lemma ErrorChangesRemainder(r: Register, a: seq<byte>, b: seq<byte>)
    requires Burst(a, b) || OddError(a, b)
    ensures Divide(r, MessageBits(a)) != Divide(r, MessageBits(b))
  {
    var x, y := MessageBits(a), MessageBits(b);
    if OddError(a, b) {
      OddErrorDetected(r, x, y);
    } else if Divide(r, x) == Divide(r, y) {
      var start: nat :| AgreeOutside(x, y, start);
      BurstDetected(r, x, y, start);
      MessageBitsInjective(a, b);
    }
  }

  /** From any starting value, a burst or an odd error changes the crc. */
  lemma ErrorChangesCrc(crc: bv16, a: seq<byte>, b: seq<byte>)
    requires Burst(a, b) || OddError(a, b)
    ensures CrcOf(crc, a) != CrcOf(crc, b)
  {
    CrcIsDivision(crc, a);
    CrcIsDivision(crc, b);
    ErrorChangesRemainder(Bits(crc), a, b);
  }

  lemma TableAtComplement()
    ensures CrcTable(0xff) == 0x0f78 && CrcTable(0x87) == 0xf0b7
  {
  }

  lemma IndexAtComplement(crc: bv16)
    ensures (crc ^ (!crc & 0xff)) & 0xff == 0xff
    ensures ((crc >> 8) ^ 0x0f78 ^ (!crc >> 8)) & 0xff == 0x87
    ensures ((crc >> 8) ^ 0x0f78) >> 8 == 0x0f
    ensures ((!crc & 0xff) as byte) as bv16 == !crc & 0xff && ((!crc >> 8) as byte) as bv16 == !crc >> 8
  {
  }

  lemma CrcByteAt(crc: bv16, ch: byte, index: byte)
    requires (crc ^ ch as bv16) & 0xff == index as bv16
    ensures CrcByte(crc, ch) == (crc >> 8) ^ CrcTable(index)
  {
  }

  lemma ResidueOfComplement(crc: bv16)
    ensures CrcByte(CrcByte(crc, FcsOctets(crc)[0]), FcsOctets(crc)[1]) == RESIDUE
  {
    IndexAtComplement(crc);
    TableAtComplement();
    CrcByteAt(crc, FcsOctets(crc)[0], 0xff);
    CrcByteAt((crc >> 8) ^ 0x0f78, FcsOctets(crc)[1], 0x87);
  }

  /** A message followed by its check sequence leaves the residue. */
  lemma GoodFrame(msg: seq<byte>)
    ensures CrcOf(INITIAL, msg + Fcs(msg)) == RESIDUE
  {
    var fcs := Fcs(msg);
    assert (msg + fcs)[..|msg| + 1] == msg + [fcs[0]];
    assert (msg + [fcs[0]])[..|msg|] == msg;
    ResidueOfComplement(CrcOf(INITIAL, msg));
  }

  lemma {:induction false} MessageBitsConcat(a: seq<byte>, b: seq<byte>)
    ensures MessageBits(a + b) == MessageBits(a) + MessageBits(b)
    decreases |b|
  {
    if b == [] {
      assert a + b == a;
    } else {
      var front, last := b[..|b| - 1], OctetBits(b[|b| - 1]);
      assert (a + b)[..|a + b| - 1] == a + front;
      MessageBitsConcat(a, front);
      ConcatAssociative(MessageBits(a), MessageBits(front), last);
    }
  }

  lemma LastOctetsBurst(msg: seq<byte>, f: seq<byte>, g: seq<byte>)
    requires |f| == |g| == 2 && f != g
    ensures Burst(msg + f, msg + g)
  {
    MessageBitsConcat(msg, f);
    MessageBitsConcat(msg, g);
    assert (msg + f)[|msg|..] == f && (msg + g)[|msg|..] == g;
    assert AgreeOutside(MessageBits(msg) + MessageBits(f), MessageBits(msg) + MessageBits(g), 8 * |msg|);
  }

  /** The residue appears after the check sequence of the message and after no other two octets. */
  lemma ResidueIffFcs(msg: seq<byte>, fcs: seq<byte>)
    requires |fcs| == 2
    ensures CrcOf(INITIAL, msg + fcs) == RESIDUE <==> fcs == Fcs(msg)
  {
    GoodFrame(msg);
    if fcs != Fcs(msg) {
      LastOctetsBurst(msg, Fcs(msg), fcs);
      ErrorChangesCrc(INITIAL, msg + Fcs(msg), msg + fcs);
    }
  }

  /**
   A receiver that checked the residue would reject every frame hit by a burst
   of at most sixteen bits, or in an odd number of bits, payload and check
   sequence alike.
   */
  lemma DamagedFrameRejected(msg: seq<byte>, received: seq<byte>)
    requires Burst(msg + Fcs(msg), received) || OddError(msg + Fcs(msg), received)
    ensures CrcOf(INITIAL, received) != RESIDUE
  {
    GoodFrame(msg);
    ErrorChangesCrc(INITIAL, msg + Fcs(msg), received);
  }
}
