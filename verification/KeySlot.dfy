/** CRC16 one bit at a time, and as a remainder of polynomials over GF(2). */
module CrcBits {

  type Byte = bv8

  /** Addition of polynomials, multiplication by x without reduction, and the leading coefficient. */
  function Xor(a: bv16, b: bv16): bv16 { a ^ b }

  function Double(a: bv16): bv16 { a << 1 }

  predicate Top(a: bv16) { a & 0x8000 != 0 }

  const POLY: bv16 := 0x1021

  /** Multiplies the register by x modulo the polynomial 0x1021. */
  function Shift(crc: bv16): bv16 {
    if Top(crc) then Xor(Double(crc), POLY) else Double(crc)
  }

  function ShiftN(crc: bv16, n: nat): bv16
    decreases n
  {
    if n == 0 then crc else ShiftN(Shift(crc), n - 1)
  }

  /** Takes in one message bit. */
  function Feed(crc: bv16, bit: bool): bv16 {
    if Top(crc) != bit then Xor(Double(crc), POLY) else Double(crc)
  }

  function FeedAll(crc: bv16, bits: seq<bool>): bv16
    decreases |bits|
  {
    if bits == [] then crc else FeedAll(Feed(crc, bits[0]), bits[1..])
  }

  /** The n highest bits of a word, most significant first. */
  function WordBits(w: bv16, n: nat): (bits: seq<bool>)
    ensures |bits| == n
    decreases n
  {
    if n == 0 then [] else [Top(w)] + WordBits(Double(w), n - 1)
  }

  function Word(b: Byte): bv16 { (b as bv16) << 8 }

  function ByteBits(b: Byte): seq<bool> {
    WordBits(Word(b), 8)
  }

  function MessageBits(data: seq<Byte>): seq<bool> {
    if data == [] then [] else MessageBits(data[..|data| - 1]) + ByteBits(data[|data| - 1])
  }

  // ---------------------------------------------------------------------------
  // Algebra of words

  lemma DoubleXor(a: bv16, b: bv16)
    ensures Double(Xor(a, b)) == Xor(Double(a), Double(b))
  {
  }

  lemma XorSwap(a: bv16, b: bv16, p: bv16)
    ensures Xor(Xor(a, p), b) == Xor(Xor(a, b), p)
    ensures Xor(a, Xor(b, p)) == Xor(Xor(a, b), p)
    ensures Xor(Xor(a, p), Xor(b, p)) == Xor(a, b)
  {
  }

  lemma XorCommutes(a: bv16, b: bv16)
    ensures Xor(a, b) == Xor(b, a) && Xor(a, 0) == a
  {
  }

  lemma TopXor(a: bv16, b: bv16)
    ensures Top(Xor(a, b)) == (Top(a) != Top(b))
  {
  }

  lemma ShiftLinear(a: bv16, b: bv16)
    ensures Shift(Xor(a, b)) == Xor(Shift(a), Shift(b))
  {
    hide Xor, Double, Top;
    DoubleXor(a, b);
    TopXor(a, b);
    XorSwap(Double(a), Double(b), POLY);
  }

  lemma {:induction false} ShiftNLinear(a: bv16, b: bv16, n: nat)
    ensures ShiftN(Xor(a, b), n) == Xor(ShiftN(a, n), ShiftN(b, n))
    decreases n
  {
    hide Shift, Xor;
    if n > 0 {
      ShiftLinear(a, b);
      ShiftNLinear(Shift(a), Shift(b), n - 1);
    }
  }

  function DoubleN(w: bv16, n: nat): bv16
    decreases n
  {
    if n == 0 then w else DoubleN(Double(w), n - 1)
  }

  /** Feeding the top bit of a word is shifting the register added to the word. */
  lemma FeedTop(crc: bv16, w: bv16)
    ensures Xor(Feed(crc, Top(w)), Double(w)) == Shift(Xor(crc, w))
  {
    hide Xor, Double, Top;
    DoubleXor(crc, w);
    TopXor(crc, w);
    XorSwap(Double(crc), Double(w), POLY);
  }

  /** Feeding the bits of a word one by one is shifting the register added to the word. */
  lemma {:induction false} FeedWord(crc: bv16, w: bv16, n: nat)
    ensures Xor(FeedAll(crc, WordBits(w, n)), DoubleN(w, n)) == ShiftN(Xor(crc, w), n)
    decreases n
  {
    hide Feed, Shift, Xor, Double, Top;
    if n > 0 {
      FeedTop(crc, w);
      FeedWord(Feed(crc, Top(w)), Double(w), n - 1);
      assert WordBits(w, n)[1..] == WordBits(Double(w), n - 1);
    }
  }

  lemma ByteShiftsOut(b: Byte)
    ensures DoubleN(Word(b), 8) == 0
  {
    var w := Word(b);
    assert DoubleN(w, 8) == w << 1 << 1 << 1 << 1 << 1 << 1 << 1 << 1;
  }

  lemma FeedByte(crc: bv16, b: Byte)
    ensures FeedAll(crc, ByteBits(b)) == ShiftN(Xor(crc, Word(b)), 8)
  {
    hide FeedAll, ShiftN, DoubleN, Xor, Word;
    FeedWord(crc, Word(b), 8);
    ByteShiftsOut(b);
    XorCommutes(FeedAll(crc, ByteBits(b)), 0);
  }

  lemma {:induction false} FeedConcat(crc: bv16, a: seq<bool>, b: seq<bool>)
    ensures FeedAll(crc, a + b) == FeedAll(FeedAll(crc, a), b)
    decreases |a|
  {
    hide Feed;
    if a == [] {
      assert a + b == b;
    } else {
      assert (a + b)[1..] == a[1..] + b;
      FeedConcat(Feed(crc, a[0]), a[1..], b);
    }
  }
}

/** The reference: schoolbook division of polynomials given by their coefficients, highest first. */
module PolynomialDivision {
  import opened CrcBits

  function Plus(a: seq<bool>, b: seq<bool>): (r: seq<bool>)
    requires |a| == |b|
    ensures |r| == |a|
  {
    seq(|a|, i requires 0 <= i < |a| => a[i] != b[i])
  }

  /** x^16 + x^12 + x^5 + 1, without its leading coefficient. */
  const GENERATOR: seq<bool> := [false, false, false, true, false, false, false, false,
                                 false, false, true, false, false, false, false, true]

  /** The remainder of a polynomial: subtract the divisor whenever the leading coefficient is one. */
  function Remainder(p: seq<bool>): (r: seq<bool>)
    requires |p| >= 16
    ensures |r| == 16
    decreases |p|
  {
    if |p| == 16 then p
    else if p[0] then Remainder(Plus(p[1..17], GENERATOR) + p[17..])
    else Remainder(p[1..])
  }

  const ZEROS: seq<bool> := seq(16, _ => false)

  lemma {:induction false} WordBitsXor(a: bv16, b: bv16, n: nat)
    ensures WordBits(Xor(a, b), n) == Plus(WordBits(a, n), WordBits(b, n))
    decreases n
  {
    hide Xor, Double, Top;
    if n > 0 {
      TopXor(a, b);
      DoubleXor(a, b);
      WordBitsXor(Double(a), Double(b), n - 1);
    }
  }

  /** Doubling drops the highest bit and brings in a zero. */
  lemma {:induction false} WordBitsSnoc(w: bv16, n: nat)
    ensures WordBits(w, n + 1) == WordBits(w, n) + [Top(DoubleN(w, n))]
    decreases n
  {
    hide Double, Top;
    if n > 0 {
      WordBitsSnoc(Double(w), n - 1);
      assert WordBits(w, n + 1) == [Top(w)] + (WordBits(Double(w), n - 1) + [Top(DoubleN(Double(w), n - 1))]);
    } else {
      assert WordBits(w, 1) == [Top(w)] + WordBits(Double(w), 0);
    }
  }

  lemma {:induction false} DoubleNSplit(w: bv16, m: nat, n: nat)
    ensures DoubleN(w, m + n) == DoubleN(DoubleN(w, m), n)
    decreases m
  {
    hide Double;
    if m > 0 {
      DoubleNSplit(Double(w), m - 1, n);
    }
  }

  lemma FourDoublings(w: bv16)
    ensures DoubleN(w, 4) == w << 4
  {
  }

  lemma SixteenDoublings(w: bv16)
    ensures DoubleN(w, 16) == 0
  {
    hide DoubleN;
    DoubleNSplit(w, 4, 12);
    DoubleNSplit(w << 4, 4, 8);
    DoubleNSplit(w << 4 << 4, 4, 4);
    FourDoublings(w);
    FourDoublings(w << 4);
    FourDoublings(w << 4 << 4);
    FourDoublings(w << 4 << 4 << 4);
  }

  lemma DoubledBits(w: bv16)
    ensures WordBits(w, 16)[0] == Top(w)
    ensures WordBits(Double(w), 16) == WordBits(w, 16)[1..] + [false]
  {
    hide DoubleN;
    WordBitsSnoc(w, 16);
    SixteenDoublings(w);
    assert WordBits(w, 17)[1..] == WordBits(Double(w), 16);
  }

  lemma GeneratorBits()
    ensures WordBits(POLY, 16) == GENERATOR
  {
    assert WordBits(0x1021, 16) ==
           WordBits(0x1021, 4) + WordBits(0x0210, 4) + WordBits(0x2100, 4) + WordBits(0x1000, 4);
  }

  /** The leading coefficient of the register added to the message. */
  lemma FeedDivides(crc: bv16, m: seq<bool>)
    requires |m| > 16
    ensures Remainder(Plus(WordBits(crc, 16), m[..16]) + m[16..])
         == Remainder(Plus(WordBits(Feed(crc, m[0]), 16), m[1..17]) + m[17..])
  {
    hide WordBits, Xor, Double, Top, Remainder;
    var bits := WordBits(crc, 16);
    var p := Plus(bits, m[..16]) + m[16..];
    DoubledBits(crc);
    var shifted := Plus(WordBits(Double(crc), 16), m[1..17]);
    assert p[1..17] == shifted;
    assert p[17..] == m[17..];
    RemainderStep(p);
    if p[0] {
      WordBitsXor(Double(crc), POLY, 16);
      GeneratorBits();
      assert Plus(shifted, GENERATOR) == Plus(Plus(WordBits(Double(crc), 16), GENERATOR), m[1..17]);
    } else {
      assert p[1..] == shifted + m[17..];
    }
  }

  lemma RemainderStep(p: seq<bool>)
    requires |p| > 16
    ensures Remainder(p) == if p[0] then Remainder(Plus(p[1..17], GENERATOR) + p[17..]) else Remainder(p[1..])
  {
  }

  /** Feeding a message bit by bit computes the remainder of the message times x^16. */
  lemma {:induction false} FeedAllDivides(crc: bv16, m: seq<bool>)
    ensures var augmented := m + ZEROS;
            Remainder(Plus(WordBits(crc, 16), augmented[..16]) + augmented[16..]) == WordBits(FeedAll(crc, m), 16)
    decreases |m|
  {
    hide WordBits, Feed;
    var augmented := m + ZEROS;
    if m == [] {
      assert augmented[16..] == [] && Plus(WordBits(crc, 16), augmented[..16]) == WordBits(crc, 16);
      assert Plus(WordBits(crc, 16), augmented[..16]) + augmented[16..] == WordBits(crc, 16);
    } else {
      FeedDivides(crc, augmented);
      FeedAllDivides(Feed(crc, m[0]), m[1..]);
      assert m[1..] + ZEROS == augmented[1..];
      assert augmented[1..][..16] == augmented[1..17] && augmented[1..][16..] == augmented[17..];
    }
  }

  lemma ZeroBits()
    ensures WordBits(0, 16) == ZEROS
  {
    assert WordBits(0, 4) == [false, false, false, false];
    assert WordBits(0, 8) == [false, false, false, false, false, false, false, false];
    assert WordBits(0, 12) == ZEROS[..12];
  }
}

/** CRC16 by table lookup. */
module Crc16 {
  import opened CrcBits
  import opened PolynomialDivision

  /** The 256 table entries, sixteen to a row. */
  const TABLE: seq<seq<bv16>> := [
    [0x0000, 0x1021, 0x2042, 0x3063, 0x4084, 0x50a5, 0x60c6, 0x70e7,
     0x8108, 0x9129, 0xa14a, 0xb16b, 0xc18c, 0xd1ad, 0xe1ce, 0xf1ef],
    [0x1231, 0x0210, 0x3273, 0x2252, 0x52b5, 0x4294, 0x72f7, 0x62d6,
     0x9339, 0x8318, 0xb37b, 0xa35a, 0xd3bd, 0xc39c, 0xf3ff, 0xe3de],
    [0x2462, 0x3443, 0x0420, 0x1401, 0x64e6, 0x74c7, 0x44a4, 0x5485,
     0xa56a, 0xb54b, 0x8528, 0x9509, 0xe5ee, 0xf5cf, 0xc5ac, 0xd58d],
    [0x3653, 0x2672, 0x1611, 0x0630, 0x76d7, 0x66f6, 0x5695, 0x46b4,
     0xb75b, 0xa77a, 0x9719, 0x8738, 0xf7df, 0xe7fe, 0xd79d, 0xc7bc],
    [0x48c4, 0x58e5, 0x6886, 0x78a7, 0x0840, 0x1861, 0x2802, 0x3823,
     0xc9cc, 0xd9ed, 0xe98e, 0xf9af, 0x8948, 0x9969, 0xa90a, 0xb92b],
    [0x5af5, 0x4ad4, 0x7ab7, 0x6a96, 0x1a71, 0x0a50, 0x3a33, 0x2a12,
     0xdbfd, 0xcbdc, 0xfbbf, 0xeb9e, 0x9b79, 0x8b58, 0xbb3b, 0xab1a],
    [0x6ca6, 0x7c87, 0x4ce4, 0x5cc5, 0x2c22, 0x3c03, 0x0c60, 0x1c41,
     0xedae, 0xfd8f, 0xcdec, 0xddcd, 0xad2a, 0xbd0b, 0x8d68, 0x9d49],
    [0x7e97, 0x6eb6, 0x5ed5, 0x4ef4, 0x3e13, 0x2e32, 0x1e51, 0x0e70,
     0xff9f, 0xefbe, 0xdfdd, 0xcffc, 0xbf1b, 0xaf3a, 0x9f59, 0x8f78],
    [0x9188, 0x81a9, 0xb1ca, 0xa1eb, 0xd10c, 0xc12d, 0xf14e, 0xe16f,
     0x1080, 0x00a1, 0x30c2, 0x20e3, 0x5004, 0x4025, 0x7046, 0x6067],
    [0x83b9, 0x9398, 0xa3fb, 0xb3da, 0xc33d, 0xd31c, 0xe37f, 0xf35e,
     0x02b1, 0x1290, 0x22f3, 0x32d2, 0x4235, 0x5214, 0x6277, 0x7256],
    [0xb5ea, 0xa5cb, 0x95a8, 0x8589, 0xf56e, 0xe54f, 0xd52c, 0xc50d,
     0x34e2, 0x24c3, 0x14a0, 0x0481, 0x7466, 0x6447, 0x5424, 0x4405],
    [0xa7db, 0xb7fa, 0x8799, 0x97b8, 0xe75f, 0xf77e, 0xc71d, 0xd73c,
     0x26d3, 0x36f2, 0x0691, 0x16b0, 0x6657, 0x7676, 0x4615, 0x5634],
    [0xd94c, 0xc96d, 0xf90e, 0xe92f, 0x99c8, 0x89e9, 0xb98a, 0xa9ab,
     0x5844, 0x4865, 0x7806, 0x6827, 0x18c0, 0x08e1, 0x3882, 0x28a3],
    [0xcb7d, 0xdb5c, 0xeb3f, 0xfb1e, 0x8bf9, 0x9bd8, 0xabbb, 0xbb9a,
     0x4a75, 0x5a54, 0x6a37, 0x7a16, 0x0af1, 0x1ad0, 0x2ab3, 0x3a92],
    [0xfd2e, 0xed0f, 0xdd6c, 0xcd4d, 0xbdaa, 0xad8b, 0x9de8, 0x8dc9,
     0x7c26, 0x6c07, 0x5c64, 0x4c45, 0x3ca2, 0x2c83, 0x1ce0, 0x0cc1],
    [0xef1f, 0xff3e, 0xcf5d, 0xdf7c, 0xaf9b, 0xbfba, 0x8fd9, 0x9ff8,
     0x6e17, 0x7e36, 0x4e55, 0x5e74, 0x2e93, 0x3eb2, 0x0ed1, 0x1ef0]
  ]

  function Lookup(x: Byte): bv16 {
    TABLE[(x >> 4) as int][(x & 0xf) as int]
  }

  /** One byte by table lookup. */
  function TableStep(crc: bv16, b: Byte): bv16 {
    Xor(crc << 8, Lookup(((crc >> 8) as Byte) ^ b))
  }

  function Crc(data: seq<Byte>): bv16 {
    if data == [] then 0 else TableStep(Crc(data[..|data| - 1]), data[|data| - 1])
  }

  method Compute(data: seq<Byte>) returns (crc: bv16)
    ensures crc == Crc(data)
  {
    hide TableStep;
    crc := 0;
    for i := 0 to |data|
      invariant crc == Crc(data[..i])
    {
      assert data[..i + 1][..i] == data[..i];
      crc := TableStep(crc, data[i]);
    }
    assert data[..|data|] == data;
  }

  lemma NibbleCases(x: Byte)
    requires x & 0xf0 == 0
    ensures x == 0 || x == 1 || x == 2 || x == 3 || x == 4 || x == 5 || x == 6 || x == 7
         || x == 8 || x == 9 || x == 10 || x == 11 || x == 12 || x == 13 || x == 14 || x == 15
  {
  }

  function Shift8(crc: bv16): bv16 {
    Shift(Shift(Shift(Shift(Shift(Shift(Shift(Shift(crc))))))))
  }

  lemma ShiftEight(crc: bv16)
    ensures ShiftN(crc, 8) == Shift8(crc)
  {
    hide Shift;
  }

  lemma TableQuarter0(x: Byte)
    requires x & 0xc0 == 0
    ensures Lookup(x) == Shift8(Word(x))
  {
    NibbleCases(x & 0xf);
    NibbleCases(x >> 4);
  }

  lemma TableQuarter1(x: Byte)
    requires x & 0xc0 == 0x40
    ensures Lookup(x) == Shift8(Word(x))
  {
    NibbleCases(x & 0xf);
    NibbleCases(x >> 4);
  }

  lemma TableQuarter2(x: Byte)
    requires x & 0xc0 == 0x80
    ensures Lookup(x) == Shift8(Word(x))
  {
    NibbleCases(x & 0xf);
    NibbleCases(x >> 4);
  }

  lemma TableQuarter3(x: Byte)
    requires x & 0xc0 == 0xc0
    ensures Lookup(x) == Shift8(Word(x))
  {
    NibbleCases(x & 0xf);
    NibbleCases(x >> 4);
  }

  /** All 256 table entries are right. */
  lemma TableIsShift8(x: Byte)
    ensures Lookup(x) == Shift8(Word(x))
  {
    hide Lookup, Shift8, Word;
    if x & 0xc0 == 0 {
      TableQuarter0(x);
    } else if x & 0xc0 == 0x40 {
      TableQuarter1(x);
    } else if x & 0xc0 == 0x80 {
      TableQuarter2(x);
    } else {
      assert x & 0xc0 == 0xc0;
      TableQuarter3(x);
    }
  }

  lemma LowByteShifts(lo: bv16)
    requires lo & 0xff00 == 0
    ensures Shift8(lo) == lo << 8
  {
  }

  lemma SplitWord(crc: bv16, b: Byte)
    ensures Xor(crc, Word(b)) == Xor(Word(((crc >> 8) as Byte) ^ b), crc & 0xff)
    ensures (crc & 0xff) & 0xff00 == 0 && (crc & 0xff) << 8 == crc << 8
  {
  }

  lemma TableStepIsShift(crc: bv16, b: Byte)
    ensures TableStep(crc, b) == ShiftN(Xor(crc, Word(b)), 8)
  {
    hide Lookup, Shift8, ShiftN, Word, Xor;
    var i := ((crc >> 8) as Byte) ^ b;
    SplitWord(crc, b);
    TableIsShift8(i);
    ShiftNLinear(Word(i), crc & 0xff, 8);
    ShiftEight(Word(i));
    ShiftEight(crc & 0xff);
    LowByteShifts(crc & 0xff);
    XorCommutes(Shift8(Word(i)), crc << 8);
  }

  /** Table lookup is feeding the message bit by bit. */
  lemma {:induction false} TableIsBitwise(data: seq<Byte>)
    ensures Crc(data) == FeedAll(0, MessageBits(data))
  {
    hide TableStep, FeedAll, ByteBits;
    if data == [] {
      FeedNothing(0);
    } else {
      var front, b := data[..|data| - 1], data[|data| - 1];
      TableIsBitwise(front);
      TableStepIsShift(Crc(front), b);
      FeedByte(Crc(front), b);
      FeedConcat(0, MessageBits(front), ByteBits(b));
    }
  }

  lemma FeedNothing(crc: bv16)
    ensures FeedAll(crc, []) == crc
  {
  }

  lemma CrcOfNothing()
    ensures Crc([]) == 0
  {
  }

  lemma CrcOfBracesA()
    ensures Crc([0x7b, 0x7d, 0x61]) == 0x2a7b
  {
    hide TableStep;
    var s: seq<Byte> := [0x7b, 0x7d, 0x61];
    assert s[..2] == [0x7b, 0x7d] && s[..2][..1] == [0x7b] && s[..1][..0] == [];
    assert Crc(s[..1]) == 0xcffc by { StepOfOpen(); }
    assert Crc(s[..2]) == 0x7b99 by { StepOfClose(); }
    StepOfA();
  }

  lemma StepOfOpen() ensures TableStep(0, 0x7b) == 0xcffc {}

  lemma StepOfClose() ensures TableStep(0xcffc, 0x7d) == 0x7b99 {}

  lemma StepOfA() ensures TableStep(0x7b99, 0x61) == 0x2a7b {}

  lemma CrcOfFoo()
    ensures Crc([0x66, 0x6f, 0x6f]) == 0xaf96
  {
    hide TableStep;
    var s: seq<Byte> := [0x66, 0x6f, 0x6f];
    assert s[..2] == [0x66, 0x6f] && s[..2][..1] == [0x66] && s[..1][..0] == [];
    assert Crc(s[..1]) == 0xc60 by { StepOfF(); }
    assert Crc(s[..2]) == 0x3cc5 by { StepOfFO(); }
    StepOfFOO();
  }

  lemma StepOfF() ensures TableStep(0, 0x66) == 0xc60 {}

  lemma StepOfFO() ensures TableStep(0xc60, 0x6f) == 0x3cc5 {}

  lemma StepOfFOO() ensures TableStep(0x3cc5, 0x6f) == 0xaf96 {}

  /**
   * Table-driven CRC16 is division: its bits are the remainder of the message, followed by sixteen
   * zeros, by x^16 + x^12 + x^5 + 1.
   */
  lemma CrcIsRemainder(data: seq<Byte>)
    ensures WordBits(Crc(data), 16) == Remainder(MessageBits(data) + ZEROS)
  {
    hide WordBits, Crc, FeedAll, Remainder, MessageBits;
    TableIsBitwise(data);
    var m := MessageBits(data);
    FeedAllDivides(0, m);
    ZeroBits();
    var augmented := m + ZEROS;
    assert Plus(ZEROS, augmented[..16]) == augmented[..16];
    assert augmented[..16] + augmented[16..] == augmented;
  }
}

/** The slot of a key, with hash tags. */
module KeySlots {
  import opened Slots
  import opened CrcBits
  import Crc16

  type Key = seq<Byte>

  const OPEN: Byte := 0x7b
  const CLOSE: Byte := 0x7d

  /** The first position of a byte, or -1. */
  function IndexOf(s: Key, c: Byte): (i: int)
    ensures -1 <= i < |s|
    ensures i >= 0 ==> s[i] == c && c !in s[..i]
    ensures i == -1 ==> c !in s
  {
    if s == [] then -1
    else if s[0] == c then 0
    else
      var i := IndexOf(s[1..], c);
      assert i >= 0 ==> s[..i + 1] == [s[0]] + s[1..][..i];
      if i < 0 then -1 else i + 1
  }

  method IndexByte(s: Key, c: Byte) returns (i: int)
    ensures i == IndexOf(s, c)
  {
    for k := 0 to |s|
      invariant c !in s[..k]
    {
      if s[k] == c {
        IndexOfUnique(s, c, k);
        return k;
      }
    }
    assert s[..|s|] == s;
    return -1;
  }

  lemma IndexOfUnique(s: Key, c: Byte, i: nat)
    requires i < |s| && s[i] == c && c !in s[..i]
    ensures IndexOf(s, c) == i
  {
  }

  /** What is hashed: the text between the first opening brace and the next closing one, if both exist. */
  function Hashed(key: Key): Key {
    var start := IndexOf(key, OPEN);
    if start < 0 then key
    else
      var end := IndexOf(key[start + 1..], CLOSE);
      if end < 0 then key else key[start + 1..start + 1 + end]
  }

  function SlotOf(bytes: Key): (slot: nat)
    ensures slot < SLOT_COUNT
  {
    (Crc16.Crc(bytes) as int) % SLOT_COUNT
  }

  function KeySlot(key: Key): (slot: nat)
    ensures slot < SLOT_COUNT
  {
    SlotOf(Hashed(key))
  }

  method ComputeKeySlot(key: Key) returns (slot: nat)
    ensures slot == KeySlot(key) < SLOT_COUNT
  {
    hide Crc16.Crc;
    var hashed := key;
    var start := IndexByte(key, OPEN);
    if start >= 0 {
      var end := IndexByte(key[start + 1..], CLOSE);
      if end >= 0 {
        hashed := key[start + 1..start + 1 + end];
      }
    }
    var crc := Crc16.Compute(hashed);
    slot := (crc as int) % SLOT_COUNT;
  }

  lemma IndexAfter(prefix: Key, c: Byte, suffix: Key)
    requires c !in prefix
    ensures IndexOf(prefix + [c] + suffix, c) == |prefix|
  {
    hide IndexOf;
    var s := prefix + [c] + suffix;
    assert s[..|prefix|] == prefix;
    IndexOfUnique(s, c, |prefix|);
  }

  lemma HashedTag(prefix: Key, tag: Key, suffix: Key)
    requires OPEN !in prefix && CLOSE !in tag
    ensures Hashed(prefix + [OPEN] + tag + [CLOSE] + suffix) == tag
  {
    hide IndexOf;
    var rest := tag + [CLOSE] + suffix;
    var key := prefix + [OPEN] + rest;
    assert prefix + [OPEN] + tag + [CLOSE] + suffix == key;
    IndexAfter(prefix, OPEN, rest);
    assert key[|prefix| + 1..] == rest;
    IndexAfter(tag, CLOSE, suffix);
    assert key[|prefix| + 1..|prefix| + 1 + |tag|] == tag;
  }

  /** A key whose first brace pair encloses a tag is hashed by that tag, whatever surrounds it. */
  lemma TagDecides(prefix: Key, tag: Key, suffix: Key)
    requires OPEN !in prefix && CLOSE !in tag
    ensures KeySlot(prefix + [OPEN] + tag + [CLOSE] + suffix) == SlotOf(tag)
  {
    hide SlotOf, Hashed;
    HashedTag(prefix, tag, suffix);
  }

  /** A key without a complete brace pair is hashed as a whole. */
  lemma UntaggedIsWhole(prefix: Key, rest: Key)
    requires OPEN !in prefix && CLOSE !in rest
    ensures KeySlot(prefix) == SlotOf(prefix)
    ensures KeySlot(prefix + [OPEN] + rest) == SlotOf(prefix + [OPEN] + rest)
  {
    hide SlotOf, IndexOf;
    var key := prefix + [OPEN] + rest;
    assert Hashed(prefix) == prefix by { IndexOfNone(prefix, OPEN); }
    IndexAfter(prefix, OPEN, rest);
    assert key[|prefix| + 1..] == rest;
    IndexOfNone(rest, CLOSE);
  }

  lemma IndexOfNone(s: Key, c: Byte)
    requires c !in s
    ensures IndexOf(s, c) == -1
  {
  }

  /** The first opening brace of a key, and the first closing one after it, enclose the tag. */
  predicate Encloses(key: Key, prefix: Key, tag: Key, suffix: Key) {
    key == prefix + [OPEN] + tag + [CLOSE] + suffix && OPEN !in prefix && CLOSE !in tag
  }

  /**
   * HASH_SLOT of the Redis Cluster specification, section "Hash tags": the tag is hashed if there is one and it is
   * not empty, and otherwise the whole key.
   */
  ghost predicate IsSpecifiedSlot(key: Key, slot: nat) {
    if exists prefix, tag, suffix :: Encloses(key, prefix, tag, suffix) && tag != []
    then exists prefix, tag, suffix :: Encloses(key, prefix, tag, suffix) && tag != [] && slot == SlotOf(tag)
    else slot == SlotOf(key)
  }

  /** A key whose first opening brace is closed at once. */
  predicate EmptyTag(key: Key) {
    exists i :: 0 <= i < |key| - 1 && OPEN !in key[..i] && key[i] == OPEN && key[i + 1] == CLOSE
  }

  lemma EmptyTagEncloses(key: Key)
    ensures EmptyTag(key) <==> exists prefix, suffix :: Encloses(key, prefix, [], suffix)
  {
    if EmptyTag(key) {
      var i :| 0 <= i < |key| - 1 && OPEN !in key[..i] && key[i] == OPEN && key[i + 1] == CLOSE;
      assert Encloses(key, key[..i], [], key[i + 2..]);
    }
    if prefix, suffix :| Encloses(key, prefix, [], suffix) {
      var i := |prefix|;
      assert key[..i] == prefix && key[i] == OPEN && key[i + 1] == CLOSE;
    }
  }

  /** No key encloses two different tags. */
  lemma TagIsUnique(key: Key, prefix: Key, tag: Key, suffix: Key)
    requires Encloses(key, prefix, tag, suffix)
    ensures Hashed(key) == tag
  {
    HashedTag(prefix, tag, suffix);
  }

  /** A key is free of a byte or divided at its first occurrence. */
  lemma Divide(key: Key, c: Byte) returns (before: Key, after: Key)
    ensures c in key ==> c !in before && key == before + [c] + after
  {
    before, after := [], [];
    if c in key {
      var i := IndexOf(key, c);
      before, after := key[..i], key[i + 1..];
    }
  }

  /** A key encloses a tag or is hashed as a whole. */
  lemma TaggedOrWhole(key: Key)
    ensures (exists prefix, tag, suffix :: Encloses(key, prefix, tag, suffix)) || KeySlot(key) == SlotOf(key)
  {
    hide KeySlot, SlotOf, IndexOf, Hashed;
    if OPEN in key {
      var prefix, rest := Divide(key, OPEN);
      if CLOSE in rest {
        var tag, suffix := Divide(rest, CLOSE);
        assert prefix + [OPEN] + (tag + [CLOSE] + suffix) == prefix + [OPEN] + tag + [CLOSE] + suffix;
        assert Encloses(key, prefix, tag, suffix);
      } else {
        UntaggedIsWhole(prefix, rest);
      }
    } else {
      UntaggedIsWhole(key, []);
    }
  }

  /**
   * The code agrees with the specification exactly when the first opening brace is not closed at once, or the
   * whole key belongs to slot 0 anyway.
   */
  lemma AgreesWithSpecificationIff(key: Key)
    ensures IsSpecifiedSlot(key, KeySlot(key)) <==> !EmptyTag(key) || SlotOf(key) == 0
  {
    EmptyTagEncloses(key);
    hide EmptyTag, Hashed, SlotOf, Encloses;
    if prefix, tag, suffix :| Encloses(key, prefix, tag, suffix) {
      TagIsUnique(key, prefix, tag, suffix);
      forall p, t, s | Encloses(key, p, t, s) ensures t == tag {
        TagIsUnique(key, p, t, s);
      }
      if tag == [] {
        EmptySlot();
      }
    } else {
      TaggedOrWhole(key);
    }
  }

  lemma EmptySlot()
    ensures SlotOf([]) == 0
  {
    Crc16.CrcOfNothing();
  }

  /** An empty tag sends "{}a" to slot 0, where the specification says 10875. */
  lemma EmptyTagDiffers()
    ensures KeySlot([OPEN, CLOSE, 0x61]) == 0 && IsSpecifiedSlot([OPEN, CLOSE, 0x61], 10875)
  {
    var key: Key := [OPEN, CLOSE, 0x61];
    assert Encloses(key, [], [], [0x61]);
    hide SlotOf, Hashed, Encloses;
    TagIsUnique(key, [], [], [0x61]);
    EmptySlot();
    forall p, t, s | Encloses(key, p, t, s) ensures t == [] {
      TagIsUnique(key, p, t, s);
    }
    BracesASlot();
  }

  lemma BracesASlot()
    ensures SlotOf([OPEN, CLOSE, 0x61]) == 10875
  {
    hide Crc16.Crc;
    Crc16.CrcOfBracesA();
  }

  /** The ordinary key "foo" belongs to slot 12182. */
  lemma SlotOfFoo()
    ensures KeySlot([0x66, 0x6f, 0x6f]) == 12182
  {
    hide Crc16.Crc;
    UntaggedIsWhole([0x66, 0x6f, 0x6f], []);
    Crc16.CrcOfFoo();
  }
}
