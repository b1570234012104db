/** Rounding a table width up to a power of two by smearing its highest bit. */
module PowersOfTwo {

  /** The six or-shift steps of nextPowerOf2. */
  function Smear(n: bv64): bv64 {
    var a := n | (n >> 1);
    var b := a | (a >> 2);
    var c := b | (b >> 4);
    var d := c | (c >> 8);
    var e := d | (d >> 16);
    e | (e >> 32)
  }

  function NextPowerOf2(n: bv64): bv64 {
    if n <= 1 then 1 else Smear(n - 1) + 1
  }

  predicate IsPower(p: bv64) { p != 0 && p & (p - 1) == 0 }

  lemma SmearIsFull(n: bv64)
    ensures Smear(n) & (Smear(n) + 1) == 0
  {
  }

  lemma SmearCovers(n: bv64)
    ensures Smear(n) >= n
  {
  }

  lemma SmearIsTight(n: bv64)
    requires n > 0
    ensures Smear(n) >> 1 < n
  {
  }

  lemma SmearStaysBelow(n: bv64)
    requires n < 0x4000_0000_0000_0000
    ensures Smear(n) < 0x4000_0000_0000_0000
  {
  }

  /** One more than a full word f whose upper half contains m is a power of two above m. */
  lemma FullPlusOne(f: bv64, m: bv64)
    requires f & (f + 1) == 0 && m <= f && f < 0x4000_0000_0000_0000
    ensures IsPower(f + 1) && f + 1 > m
  {
  }

  /** No power of two lies between a word in the upper half of a full word and the full word. */
  lemma NoPowerBetween(f: bv64, m: bv64, p: bv64)
    requires f & (f + 1) == 0 && IsPower(p) && p <= f && f >> 1 < m
    ensures p <= m
  {
  }

  /** The smeared word is below every power of two that is above the word itself. */
  lemma SmearBelowPowers(m: bv64, p: bv64)
    requires m > 0 && IsPower(p) && p > m
    ensures p > Smear(m)
  {
    SmearIsFull(m);
    SmearIsTight(m);
    hide Smear;
    if p <= Smear(m) {
      NoPowerBetween(Smear(m), m, p);
    }
  }

  lemma StepUp(m: bv64)
    requires m < 0x4000_0000_0000_0000
    ensures m + 1 - 1 == m && m + 1 != 0
  {
  }

  /** nextPowerOf2 of m + 1 is the least power of two above m: at least m + 1, and no more than any other. */
  lemma NextPowerIsLeast(m: bv64, p: bv64)
    requires 0 < m < 0x4000_0000_0000_0000
    ensures IsPower(NextPowerOf2(m + 1)) && NextPowerOf2(m + 1) > m
    ensures IsPower(p) && p > m ==> p > NextPowerOf2(m + 1) - 1
  {
    hide Smear, IsPower;
    SmearIsFull(m);
    SmearCovers(m);
    SmearStaysBelow(m);
    FullPlusOne(Smear(m), m);
    StepUp(m);
    StepUp(Smear(m));
    AboveOne(m);
    if IsPower(p) && p > m {
      SmearBelowPowers(m, p);
    }
  }

  /** Rounded widths are powers of two, and one only for one. */
  lemma RoundedIsPower(n: bv64)
    requires 0 < n <= 0x4000_0000_0000_0000
    ensures IsPower(NextPowerOf2(n)) && (n != 1 ==> NextPowerOf2(n) != 1)
  {
    hide Smear, IsPower;
    if n == 1 {
      OneIsPower();
    } else {
      NotOne(n);
      SmearPower(n - 1);
    }
  }

  lemma SmearPower(m: bv64)
    requires 0 < m < 0x4000_0000_0000_0000
    ensures IsPower(Smear(m) + 1) && Smear(m) + 1 != 1
  {
    hide Smear, IsPower;
    SmearIsFull(m);
    SmearCovers(m);
    SmearStaysBelow(m);
    FullPlusOne(Smear(m), m);
    NotOneAbove(Smear(m) + 1, m);
  }

  lemma OneIsPower()
    ensures IsPower(1)
  {
  }

  lemma NotOne(n: bv64)
    requires 0 < n <= 0x4000_0000_0000_0000 && n != 1
    ensures !(n <= 1) && 0 < n - 1 < 0x4000_0000_0000_0000
  {
  }

  lemma NotOneAbove(x: bv64, m: bv64)
    requires x > m && m > 0
    ensures x != 1
  {
  }

  lemma AboveOne(m: bv64)
    requires 0 < m < 0x4000_0000_0000_0000
    ensures !(m + 1 <= 1)
  {
  }
}

/** The number a machine word stands for, bit by bit; masking by a power of two less one takes the remainder. */
module WordValues {
  import opened PowersOfTwo

  function Half(b: bv64): bv64 { b >> 1 }

  predicate Odd(b: bv64) { b & 1 == 1 }

  function LowBit(b: bv64): (n: nat)
    ensures n <= 1
  {
    if Odd(b) then 1 else 0
  }

  /** The low bits of a hash that a power of two leaves. */
  function Masked(h: bv64, w: bv64): bv64 { h & (w - 1) }

  /** The value of the n lowest bits. */
  function ValueOf(b: bv64, n: nat): nat {
    if n == 0 then 0 else 2 * ValueOf(Half(b), n - 1) + LowBit(b)
  }

  function Value(b: bv64): nat { ValueOf(b, 64) }

  lemma {:induction false} ValueOfZero(n: nat)
    ensures ValueOf(0, n) == 0
  {
    if n > 0 {
      ZeroBits();
      ValueOfZero(n - 1);
    }
  }

  lemma ZeroBits()
    ensures Half(0) == 0 && !Odd(0)
  {
  }

  lemma OnePower(w: bv64, h: bv64)
    requires IsPower(w) && Odd(w)
    ensures Half(w) == 0 && Masked(h, w) == 0
  {
  }

  lemma EvenPower(w: bv64, h: bv64)
    requires IsPower(w) && !Odd(w)
    ensures IsPower(Half(w)) && Half(Masked(h, w)) == Masked(Half(h), Half(w)) && (Odd(Masked(h, w)) <==> Odd(h))
  {
  }

  function Rem(x: nat, d: nat): nat
    requires d > 0
  {
    x % d
  }

  lemma RemSmall(x: nat, d: nat)
    requires x < d
    ensures Rem(x, d) == x
  {
  }

  lemma RemOfOne(x: nat)
    ensures Rem(x, 1) == 0
  {
  }

  lemma RemPeriodic(x: nat, d: nat)
    requires d > 0
    ensures Rem(x + d, d) == Rem(x, d)
  {
    var q, r := x / d, x % d;
    assert x + d == d * (q + 1) + r;
    QuotientUnique(d, (x + d) / d, (x + d) % d, q + 1, r);
  }

  lemma QuotientUnique(d: nat, q: int, r: int, q': int, r': int)
    requires 0 <= r < d && 0 <= r' < d && d * q + r == d * q' + r'
    ensures r == r'
  {
    if q < q' {
      MulAtLeast(d, q' - q);
    } else if q' < q {
      MulAtLeast(d, q - q');
    }
  }

  lemma MulAtLeast(d: nat, k: int)
    requires k >= 1
    ensures d * k >= d
  {
  }

  lemma {:induction false} RemOfDouble(a: nat, bit: nat, c: nat)
    requires bit < 2 && c > 0
    ensures Rem(2 * a + bit, 2 * c) == 2 * Rem(a, c) + bit
    decreases a
  {
    hide Rem;
    if a < c {
      RemSmall(a, c);
      RemSmall(2 * a + bit, 2 * c);
    } else {
      RemOfDouble(a - c, bit, c);
      RemPeriodic(a - c, c);
      RemPeriodic(2 * (a - c) + bit, 2 * c);
    }
  }

  lemma {:induction false} MaskIsRemainderOf(h: bv64, w: bv64, n: nat)
    requires IsPower(w) && ValueOf(w, n) > 0
    ensures ValueOf(Masked(h, w), n) == Rem(ValueOf(h, n), ValueOf(w, n))
    decreases n
  {
    hide IsPower, Half, Odd, Masked, Rem;
    if Odd(w) {
      OnePower(w, h);
      ValueOfZero(n);
      ValueOfZero(n - 1);
      RemOfOne(ValueOf(h, n));
    } else {
      EvenPower(w, h);
      MaskIsRemainderOf(Half(h), Half(w), n - 1);
      RemOfDouble(ValueOf(Half(h), n - 1), LowBit(h), ValueOf(Half(w), n - 1));
    }
  }

  /** n ones. */
  function Ones(n: nat): bv64 { if n == 0 then 0 else Doubled(Ones(n - 1)) }

  predicate AtMost(b: bv64, c: bv64) { b <= c }

  function Doubled(x: bv64): bv64 { (x << 1) | 1 }

  lemma HalfOfOnes(b: bv64, x: bv64)
    requires AtMost(b, Doubled(x))
    ensures AtMost(Half(b), x)
  {
  }

  lemma SomeBit(b: bv64)
    requires b != 0 && !Odd(b)
    ensures Half(b) != 0
  {
  }

  lemma AtMostZero(b: bv64)
    requires AtMost(b, 0)
    ensures b == 0
  {
  }

  lemma {:induction false} ValueOfSomething(b: bv64, n: nat)
    requires AtMost(b, Ones(n)) && b != 0
    ensures ValueOf(b, n) > 0
    decreases n
  {
    hide AtMost, Half, Odd, Doubled;
    if n == 0 {
      AtMostZero(b);
    } else if !Odd(b) {
      HalfOfOnes(b, Ones(n - 1));
      SomeBit(b);
      ValueOfSomething(Half(b), n - 1);
    }
  }

  lemma AllOnes()
    ensures Ones(64) == 0xffff_ffff_ffff_ffff
  {
    assert Ones(8) == 0xff;
    assert Ones(16) == 0xffff;
    assert Ones(24) == 0xff_ffff;
    assert Ones(32) == 0xffff_ffff;
    assert Ones(40) == 0xff_ffff_ffff;
    assert Ones(48) == 0xffff_ffff_ffff;
    assert Ones(56) == 0xff_ffff_ffff_ffff;
  }

  lemma BelowAllOnes(b: bv64)
    ensures AtMost(b, 0xffff_ffff_ffff_ffff)
  {
  }

  lemma ValuePositive(b: bv64)
    requires b != 0
    ensures Value(b) > 0
  {
    AllOnes();
    BelowAllOnes(b);
    ValueOfSomething(b, 64);
  }

  /** Masking with a power of two less one is taking the remainder by that power. */
  lemma MaskIsRemainder(h: bv64, w: bv64)
    requires IsPower(w)
    ensures Value(w) > 0 && Value(Masked(h, w)) == Value(h) % Value(w)
  {
    hide ValueOf;
    ValuePositive(w);
    MaskIsRemainderOf(h, w, 64);
  }

  lemma PowerNotZero(w: bv64)
    requires IsPower(w)
    ensures w != 0
  {
  }

  lemma OneValue()
    ensures Value(1) == 1
  {
    ValueOfZero(63);
    OneBits();
  }

  lemma OneBits()
    ensures Half(1) == 0 && Odd(1)
  {
  }

  /** A power of two above one is even. */
  lemma PowerIsEven(w: bv64)
    requires IsPower(w) && w != 1
    ensures Value(w) >= 2 && Value(w) % 2 == 0
  {
    hide IsPower, Value, Odd;
    PowerNotZero(w);
    PowerIsOddOnlyAtOne(w);
    ValuePositive(w);
    EvenValue(w);
  }

  lemma EvenValue(w: bv64)
    requires !Odd(w) && Value(w) > 0
    ensures Value(w) >= 2 && Value(w) % 2 == 0
  {
    hide Odd, Half;
    assert Value(w) == 2 * ValueOf(Half(w), 63);
  }

  lemma PowerIsOddOnlyAtOne(w: bv64)
    requires IsPower(w) && w != 1
    ensures !Odd(w)
  {
  }

  /** A power of two fills whole 64-bit words or fits into one. */
  lemma PowerFillsWords(w: bv64)
    requires IsPower(w)
    ensures Value(w) < 64 || Value(w) % 64 == 0
  {
    SixBits(w);
    hide IsPower, LowBit, ValueOf;
    if w >> 6 == 0 {
      ValueOfZero(58);
    } else {
      LowBitsClear(w);
    }
  }

  lemma LowBitsClear(w: bv64)
    requires IsPower(w) && w >> 6 != 0
    ensures LowBit(w) == LowBit(w >> 1) == LowBit(w >> 2) == LowBit(w >> 3) == LowBit(w >> 4) == LowBit(w >> 5) == 0
  {
  }

  lemma SixBits(w: bv64)
    ensures Value(w) == 64 * ValueOf(w >> 6, 58) + 32 * LowBit(w >> 5) + 16 * LowBit(w >> 4) + 8 * LowBit(w >> 3)
                        + 4 * LowBit(w >> 2) + 2 * LowBit(w >> 1) + LowBit(w)
  {
    hide LowBit, Half;
    Shifts(w);
    assert ValueOf(w, 64) == 2 * ValueOf(w >> 1, 63) + LowBit(w);
    assert ValueOf(w >> 1, 63) == 2 * ValueOf(w >> 2, 62) + LowBit(w >> 1);
    assert ValueOf(w >> 2, 62) == 2 * ValueOf(w >> 3, 61) + LowBit(w >> 2);
    assert ValueOf(w >> 3, 61) == 2 * ValueOf(w >> 4, 60) + LowBit(w >> 3);
    assert ValueOf(w >> 4, 60) == 2 * ValueOf(w >> 5, 59) + LowBit(w >> 4);
    assert ValueOf(w >> 5, 59) == 2 * ValueOf(w >> 6, 58) + LowBit(w >> 5);
  }

  lemma Shifts(w: bv64)
    ensures Half(w) == w >> 1 && Half(w >> 1) == w >> 2 && Half(w >> 2) == w >> 3 && Half(w >> 3) == w >> 4
    ensures Half(w >> 4) == w >> 5 && Half(w >> 5) == w >> 6
  {
  }
}

/** The count-min sketch with two 4-bit counters to a byte. */
module Sketches {
  import opened WordValues

  const DEPTH := 4
  const COUNTER_MAX := 15
  const RESET_THRESHOLD := 0x10_0000

  type Hash = bv64
  type Row = seq<bv8>

  datatype Sketch = Sketch(width: nat, rows: seq<Row>, additions: nat)

  /** Four rows of width / 2 bytes; a width of one leaves no byte to count in. */
  predicate Valid(s: Sketch) {
    s.width >= 2 && s.width % 2 == 0 && |s.rows| == DEPTH && forall i | 0 <= i < DEPTH :: |s.rows[i]| == s.width / 2
  }

  function Seed(i: nat): Hash
    requires i < DEPTH
  {
    ((i + 1) as Hash) * 0xc4ceb9fe1a85ec53
  }

  /** The position of a hash in a row; for a power of two this is what masking gives. */
  function Pos(width: nat, hash: Hash, i: nat): (pos: nat)
    requires width > 0 && i < DEPTH
    ensures pos < width
  {
    Value(hash ^ Seed(i)) % width
  }

  function Nibble(b: bv8, odd: nat): nat
    requires odd < 2
  {
    if odd == 0 then (b & 0x0f) as int else ((b >> 4) & 0x0f) as int
  }

  /** One more in one half of a byte, unless it is full. */
  function Bump(b: bv8, odd: nat): bv8
    requires odd < 2
  {
    if Nibble(b, odd) >= COUNTER_MAX then b else if odd == 0 then b + 1 else b + 16
  }

  function Halve(b: bv8): bv8 { (b >> 1) & 0x77 }

  function Saturating(n: nat): nat { if n < COUNTER_MAX then n + 1 else n }

  lemma LowBump(b: bv8)
    requires b & 0x0f != 15
    ensures (b + 1) & 0x0f == (b & 0x0f) + 1 && (b + 1) >> 4 == b >> 4
  {
  }

  lemma HighBump(b: bv8)
    requires b >> 4 != 15
    ensures (b + 16) & 0x0f == b & 0x0f && (b + 16) >> 4 == (b >> 4) + 1
  {
  }

  lemma SmallSuccessor(x: bv8)
    requires x < 255
    ensures (x + 1) as int == x as int + 1
  {
  }

  lemma NibbleBits(b: bv8)
    ensures (b >> 4) & 0x0f == b >> 4 && b >> 4 <= 15 && b & 0x0f <= 15
  {
  }

  lemma AsFifteen(x: bv8)
    requires x <= 15
    ensures x as int <= 15 && (x as int == 15 <==> x == 15)
  {
  }

  lemma NibbleSmall(b: bv8, odd: nat)
    requires odd < 2
    ensures Nibble(b, odd) <= COUNTER_MAX
  {
    NibbleBits(b);
    AsFifteen(b & 0x0f);
    AsFifteen(b >> 4);
  }

  /** An increment counts in its own half, saturating at 15, and never carries into the other. */
  lemma BumpExact(b: bv8, odd: nat)
    requires odd < 2
    ensures Nibble(Bump(b, odd), odd) == Saturating(Nibble(b, odd))
    ensures Nibble(Bump(b, odd), 1 - odd) == Nibble(b, 1 - odd)
  {
    if odd == 0 {
      BumpLowExact(b);
    } else {
      BumpHighExact(b);
    }
  }

  lemma BumpLowExact(b: bv8)
    ensures Nibble(Bump(b, 0), 0) == Saturating(Nibble(b, 0)) && Nibble(Bump(b, 0), 1) == Nibble(b, 1)
  {
    NibbleBits(b);
    NibbleBits(b + 1);
    AsFifteen(b & 0x0f);
    if Nibble(b, 0) < COUNTER_MAX {
      LowBump(b);
      SmallSuccessor(b & 0x0f);
    }
  }

  lemma BumpHighExact(b: bv8)
    ensures Nibble(Bump(b, 1), 1) == Saturating(Nibble(b, 1)) && Nibble(Bump(b, 1), 0) == Nibble(b, 0)
  {
    NibbleBits(b);
    NibbleBits(b + 16);
    AsFifteen(b >> 4);
    if Nibble(b, 1) < COUNTER_MAX {
      HighBump(b);
      SmallSuccessor(b >> 4);
    }
  }

  lemma HalfShift(x: bv8)
    ensures (x >> 1) as int == x as int / 2
  {
  }

  lemma HalveBits(b: bv8)
    ensures Halve(b) & 0x0f == (b & 0x0f) >> 1 && (Halve(b) >> 4) & 0x0f == ((b >> 4) & 0x0f) >> 1
  {
  }

  /** The mask halves both counters of a byte independently. */
  lemma HalveExact(b: bv8, odd: nat)
    requires odd < 2
    ensures Nibble(Halve(b), odd) == Nibble(b, odd) / 2
  {
    hide Halve;
    HalveBits(b);
    HalfShift(b & 0x0f);
    HalfShift((b >> 4) & 0x0f);
  }

  // ---------------------------------------------------------------------------
  // Operations

  function Counter(s: Sketch, hash: Hash, i: nat): nat
    requires Valid(s) && i < DEPTH
  {
    var pos := Pos(s.width, hash, i);
    Nibble(s.rows[i][pos / 2], pos % 2)
  }

  function BumpRow(row: Row, pos: nat): (r: Row)
    requires pos / 2 < |row|
    ensures |r| == |row|
  {
    row[pos / 2 := Bump(row[pos / 2], pos % 2)]
  }

  function HalveRow(row: Row): (r: Row)
    ensures |r| == |row|
  {
    seq(|row|, j requires 0 <= j < |row| => Halve(row[j]))
  }

  function Reset(s: Sketch): (r: Sketch)
    requires Valid(s)
    ensures Valid(r)
  {
    s.(rows := seq(DEPTH, i requires 0 <= i < DEPTH => HalveRow(s.rows[i])), additions := 0)
  }

  function Increment(s: Sketch, hash: Hash): (r: Sketch)
    requires Valid(s)
    ensures Valid(r)
  {
    var counted := s.(rows := seq(DEPTH, i requires 0 <= i < DEPTH => BumpRow(s.rows[i], Pos(s.width, hash, i))),
                      additions := s.additions + 1);
    if counted.additions >= RESET_THRESHOLD then Reset(counted) else counted
  }

  function Min(a: nat, b: nat): nat { if b < a then b else a }

  function Estimate(s: Sketch, hash: Hash): nat
    requires Valid(s)
  {
    Min(Min(Min(Min(COUNTER_MAX, Counter(s, hash, 0)), Counter(s, hash, 1)), Counter(s, hash, 2)), Counter(s, hash, 3))
  }

  lemma EstimateAtLeast(s: Sketch, hash: Hash, n: nat)
    requires Valid(s) && n <= COUNTER_MAX && forall i | 0 <= i < DEPTH :: Counter(s, hash, i) >= n
    ensures Estimate(s, hash) >= n
  {
    hide Counter;
    assert Counter(s, hash, 0) >= n && Counter(s, hash, 1) >= n;
    assert Counter(s, hash, 2) >= n && Counter(s, hash, 3) >= n;
  }

  // ---------------------------------------------------------------------------
  // The sketch never undercounts

  /** The true count of one hash: it saturates at 15 and halves whenever the sketch resets. */
  datatype Tally = Tally(count: nat, additions: nat)

  function Count(t: Tally, hash: Hash, e: Hash): Tally {
    var count := if e == hash then Saturating(t.count) else t.count;
    if t.additions + 1 >= RESET_THRESHOLD then Tally(count / 2, 0) else Tally(count, t.additions + 1)
  }

  function CountAll(t: Tally, hash: Hash, stream: seq<Hash>): Tally
    decreases |stream|
  {
    if stream == [] then t else CountAll(Count(t, hash, stream[0]), hash, stream[1..])
  }

  function IncrementAll(s: Sketch, stream: seq<Hash>): (r: Sketch)
    requires Valid(s)
    ensures Valid(r)
    decreases |stream|
  {
    if stream == [] then s else IncrementAll(Increment(s, stream[0]), stream[1..])
  }

  predicate Covers(s: Sketch, hash: Hash, t: Tally)
    requires Valid(s)
  {
    s.additions == t.additions && t.count <= COUNTER_MAX && forall i | 0 <= i < DEPTH :: Counter(s, hash, i) >= t.count
  }

  lemma BumpRowCounter(row: Row, pos: nat, at: nat)
    requires pos / 2 < |row| && at / 2 < |row|
    ensures Nibble(BumpRow(row, pos)[at / 2], at % 2) ==
            if at == pos then Saturating(Nibble(row[at / 2], at % 2)) else Nibble(row[at / 2], at % 2)
  {
    hide Nibble, Bump;
    BumpExact(row[pos / 2], pos % 2);
  }

  lemma SaturatingMonotone(a: nat, b: nat)
    requires b <= a <= COUNTER_MAX
    ensures Saturating(b) <= Saturating(a) && b <= Saturating(a) && Saturating(b) <= COUNTER_MAX && b / 2 <= a / 2
  {
  }

  lemma IncrementCovers(s: Sketch, hash: Hash, t: Tally, e: Hash)
    requires Valid(s) && Covers(s, hash, t)
    ensures Covers(Increment(s, e), hash, Count(t, hash, e))
  {
    hide Nibble, Bump, Halve, Pos, Saturating;
    var r, t' := Increment(s, e), Count(t, hash, e);
    forall i | 0 <= i < DEPTH
      ensures Counter(r, hash, i) >= t'.count && t'.count <= COUNTER_MAX
    {
      var at, pos := Pos(s.width, hash, i), Pos(s.width, e, i);
      BumpRowCounter(s.rows[i], pos, at);
      HalveExact(BumpRow(s.rows[i], pos)[at / 2], at % 2);
      NibbleSmall(s.rows[i][at / 2], at % 2);
      SaturatingMonotone(Counter(s, hash, i), t.count);
    }
    assert t'.count <= COUNTER_MAX by { assert Counter(r, hash, 0) >= t'.count; }
  }

  lemma {:induction false} StreamCovers(s: Sketch, hash: Hash, t: Tally, stream: seq<Hash>)
    requires Valid(s) && Covers(s, hash, t)
    ensures Covers(IncrementAll(s, stream), hash, CountAll(t, hash, stream))
    decreases |stream|
  {
    hide Covers, Increment, Count;
    if stream != [] {
      IncrementCovers(s, hash, t, stream[0]);
      StreamCovers(Increment(s, stream[0]), hash, Count(t, hash, stream[0]), stream[1..]);
    }
  }

  function Empty(width: nat): (s: Sketch)
    requires width >= 2 && width % 2 == 0
    ensures Valid(s)
  {
    Sketch(width, seq(DEPTH, _ => seq(width / 2, _ => 0)), 0)
  }

  // ---------------------------------------------------------------------------
  // What the sketch counts, exactly

  /** The count of one cell: every hash that falls on it counts. */
  function CountCell(width: nat, t: Tally, hash: Hash, i: nat, e: Hash): Tally
    requires width > 0 && i < DEPTH
  {
    var count := if Pos(width, e, i) == Pos(width, hash, i) then Saturating(t.count) else t.count;
    if t.additions + 1 >= RESET_THRESHOLD then Tally(count / 2, 0) else Tally(count, t.additions + 1)
  }

  function CountCellAll(width: nat, t: Tally, hash: Hash, i: nat, stream: seq<Hash>): Tally
    requires width > 0 && i < DEPTH
    decreases |stream|
  {
    if stream == [] then t else CountCellAll(width, CountCell(width, t, hash, i, stream[0]), hash, i, stream[1..])
  }

  lemma IncrementCounts(s: Sketch, hash: Hash, i: nat, e: Hash)
    requires Valid(s) && i < DEPTH
    ensures var r, t := Increment(s, e), CountCell(s.width, Tally(Counter(s, hash, i), s.additions), hash, i, e);
            r.width == s.width && Tally(Counter(r, hash, i), r.additions) == t
  {
    hide Nibble, Bump, Halve, Pos, Saturating;
    var at, pos := Pos(s.width, hash, i), Pos(s.width, e, i);
    BumpRowCounter(s.rows[i], pos, at);
    HalveExact(BumpRow(s.rows[i], pos)[at / 2], at % 2);
  }

  lemma {:induction false} StreamCounts(s: Sketch, hash: Hash, i: nat, stream: seq<Hash>)
    requires Valid(s) && i < DEPTH
    ensures var r := IncrementAll(s, stream);
            Tally(Counter(r, hash, i), r.additions) ==
            CountCellAll(s.width, Tally(Counter(s, hash, i), s.additions), hash, i, stream)
    decreases |stream|
  {
    hide Counter, Increment, CountCell;
    if stream != [] {
      IncrementCounts(s, hash, i, stream[0]);
      StreamCounts(Increment(s, stream[0]), hash, i, stream[1..]);
    }
  }

  /** The estimate is the least of the four counters. */
  lemma EstimateIsLeast(s: Sketch, hash: Hash)
    requires Valid(s)
    ensures forall i | 0 <= i < DEPTH :: Estimate(s, hash) <= Counter(s, hash, i)
    ensures exists i :: 0 <= i < DEPTH && Estimate(s, hash) == Counter(s, hash, i)
  {
    var pos := Pos(s.width, hash, 0);
    NibbleSmall(s.rows[0][pos / 2], pos % 2);
    assert Counter(s, hash, 0) <= COUNTER_MAX;
    hide Counter;
    var e := Estimate(s, hash);
    assert e == Counter(s, hash, 0) || e == Counter(s, hash, 1) || e == Counter(s, hash, 2) || e == Counter(s, hash, 3);
    forall i | 0 <= i < DEPTH ensures e <= Counter(s, hash, i) {
      assert i == 0 || i == 1 || i == 2 || i == 3;
    }
  }

  lemma EmptyCounter(width: nat, hash: Hash, i: nat)
    requires width >= 2 && width % 2 == 0 && i < DEPTH
    ensures Counter(Empty(width), hash, i) == 0
  {
    hide Pos;
  }

  /**
   * The estimate, exactly: over every stream of increments, resets included, it is the least count, over the four
   * rows, of the increments that fall on the hash's own cell.
   */
  lemma EstimateExact(width: nat, hash: Hash, stream: seq<Hash>)
    requires width >= 2 && width % 2 == 0
    ensures var e := Estimate(IncrementAll(Empty(width), stream), hash);
            && (forall i | 0 <= i < DEPTH :: e <= CountCellAll(width, Tally(0, 0), hash, i, stream).count)
            && exists i :: 0 <= i < DEPTH && e == CountCellAll(width, Tally(0, 0), hash, i, stream).count
  {
    hide Counter, Increment, Estimate;
    var s := IncrementAll(Empty(width), stream);
    EstimateIsLeast(s, hash);
    forall i | 0 <= i < DEPTH
      ensures Counter(s, hash, i) == CountCellAll(width, Tally(0, 0), hash, i, stream).count
    {
      EmptyCounter(width, hash, i);
      StreamCounts(Empty(width), hash, i, stream);
    }
    var i :| 0 <= i < DEPTH && Estimate(s, hash) == Counter(s, hash, i);
    assert Estimate(s, hash) == CountCellAll(width, Tally(0, 0), hash, i, stream).count;
  }

  /** No other hash of the stream falls on the hash's cell in this row. */
  predicate Alone(width: nat, hash: Hash, i: nat, stream: seq<Hash>)
    requires width > 0 && i < DEPTH
  {
    forall e | e in stream :: Pos(width, e, i) == Pos(width, hash, i) ==> e == hash
  }

  lemma {:induction false} AloneCounts(width: nat, t: Tally, hash: Hash, i: nat, stream: seq<Hash>)
    requires width > 0 && i < DEPTH && Alone(width, hash, i, stream)
    ensures CountCellAll(width, t, hash, i, stream) == CountAll(t, hash, stream)
    decreases |stream|
  {
    hide Pos;
    if stream != [] {
      AloneCounts(width, CountCell(width, t, hash, i, stream[0]), hash, i, stream[1..]);
    }
  }

  /** A hash that is alone on its cell in some row is estimated at its true count. */
  lemma AloneIsExact(width: nat, hash: Hash, i: nat, stream: seq<Hash>)
    requires width >= 2 && width % 2 == 0 && i < DEPTH && Alone(width, hash, i, stream)
    ensures Estimate(IncrementAll(Empty(width), stream), hash) == CountAll(Tally(0, 0), hash, stream).count
  {
    hide Estimate, Alone;
    EstimateExact(width, hash, stream);
    AloneCounts(width, Tally(0, 0), hash, i, stream);
    NeverUndercounts(width, hash, stream);
  }

  /** Over every stream of increments, resets included, no estimate is below the true count. */
  lemma NeverUndercounts(width: nat, hash: Hash, stream: seq<Hash>)
    requires width >= 2 && width % 2 == 0
    ensures Estimate(IncrementAll(Empty(width), stream), hash) >= CountAll(Tally(0, 0), hash, stream).count
  {
    hide Counter, Increment;
    var s := IncrementAll(Empty(width), stream);
    StreamCovers(Empty(width), hash, Tally(0, 0), stream);
    assert Counter(s, hash, 0) >= CountAll(Tally(0, 0), hash, stream).count;
    assert Counter(s, hash, 1) >= CountAll(Tally(0, 0), hash, stream).count;
    assert Counter(s, hash, 2) >= CountAll(Tally(0, 0), hash, stream).count;
    assert Counter(s, hash, 3) >= CountAll(Tally(0, 0), hash, stream).count;
  }
}

/** The doorkeeper: a two-bit Bloom filter in front of the sketch. */
module Doorkeepers {
  import opened WordValues
  type Hash = bv64

  const RESET_EVERY := 0x10_0000

  datatype Door = Door(width: nat, words: seq<bv64>, additions: nat)

  predicate Valid(d: Door) {
    d.width > 0 && (d.width < 64 || d.width % 64 == 0) && |d.words| == if d.width < 64 then 1 else d.width / 64
  }

  function Mix(hash: Hash): Hash {
    (hash >> 17) ^ (hash * 0x9e3779b97f4a7c15)
  }

  /** The two positions of a hash; for a power of two this is what masking gives. */
  function First(width: nat, hash: Hash): nat
    requires width > 0
  {
    Value(hash) % width
  }

  function Second(width: nat, hash: Hash): nat
    requires width > 0
  {
    Value(Mix(hash)) % width
  }

  function Bit(pos: nat): bv64 { (1 as bv64) << ((pos % 64) as bv8) }

  predicate IsSet(words: seq<bv64>, pos: nat)
    requires pos / 64 < |words|
  {
    Shares(words[pos / 64], Bit(pos))
  }

  /** The bits two words have in common, and the bits of both. */
  function Common(a: bv64, b: bv64): bv64 { a & b }

  predicate Shares(a: bv64, b: bv64) { Common(a, b) != 0 }

  function Joined(a: bv64, b: bv64): bv64 { a | b }

  function SetBit(words: seq<bv64>, pos: nat): (r: seq<bv64>)
    requires pos / 64 < |words|
    ensures |r| == |words|
  {
    words[pos / 64 := Joined(words[pos / 64], Bit(pos))]
  }

  predicate Seen(d: Door, hash: Hash)
    requires Valid(d)
  {
    IsSet(d.words, First(d.width, hash)) && IsSet(d.words, Second(d.width, hash))
  }

  function Cleared(d: Door): (r: Door)
    requires Valid(d)
    ensures Valid(r)
  {
    d.(words := seq(|d.words|, _ => 0), additions := 0)
  }

  /** Allow: the door afterwards, and whether the hash was seen before. */
  function Allow(d: Door, hash: Hash): (r: (Door, bool))
    requires Valid(d)
    ensures Valid(r.0)
  {
    var words := SetBit(SetBit(d.words, First(d.width, hash)), Second(d.width, hash));
    var marked := d.(words := words, additions := d.additions + 1);
    (if marked.additions >= RESET_EVERY then Cleared(marked) else marked, Seen(d, hash))
  }

  lemma JoinedShares(w: bv64, a: bv64, b: bv64)
    ensures Shares(w, b) ==> Shares(Joined(w, a), b)
    ensures a != 0 ==> Shares(Joined(w, a), a)
  {
  }

  lemma JoinedClear(w: bv64, a: bv64, b: bv64)
    requires !Shares(a, b)
    ensures Shares(Joined(w, a), b) <==> Shares(w, b)
  {
    hide Common, Joined;
    JoinedCommon(w, a, b);
  }

  lemma JoinedCommon(w: bv64, a: bv64, b: bv64)
    requires Common(a, b) == 0
    ensures Common(Joined(w, a), b) == Common(w, b)
  {
  }

  lemma ShiftValue(n: nat)
    requires n < 64
    ensures (n as bv8) as int == n
  {
  }

  lemma ShiftAmount(n: nat)
    requires n < 64
    ensures (n as bv8) as int == n && n as bv8 < 64
  {
    ShiftValue(n);
  }

  lemma ShiftedOne(x: bv8)
    requires x < 64
    ensures (1 as bv64) << x != 0
  {
  }

  lemma BitIsSomething(pos: nat)
    ensures Bit(pos) != 0
  {
    ShiftAmount(pos % 64);
    ShiftedOne((pos % 64) as bv8);
  }

  lemma SetBitKeeps(words: seq<bv64>, pos: nat, at: nat)
    requires pos / 64 < |words| && at / 64 < |words|
    ensures IsSet(words, at) ==> IsSet(SetBit(words, pos), at)
    ensures IsSet(SetBit(words, pos), pos)
  {
    hide Bit, Shares, Joined;
    BitIsSomething(pos);
    JoinedShares(words[pos / 64], Bit(pos), Bit(pos));
    JoinedShares(words[pos / 64], Bit(pos), Bit(at));
  }

  /** Without a reset, what was seen stays seen, and the hash just allowed is seen. */
  lemma AllowMarks(d: Door, hash: Hash, other: Hash)
    requires Valid(d) && d.additions + 1 < RESET_EVERY
    ensures Seen(Allow(d, hash).0, hash)
    ensures Seen(d, other) ==> Seen(Allow(d, hash).0, other)
  {
    hide IsSet, SetBit, First, Second;
    var a, b := First(d.width, hash), Second(d.width, hash);
    assert a / 64 < |d.words| && b / 64 < |d.words| by { PositionFits(d, hash); }
    PositionFits(d, other);
    var once := SetBit(d.words, a);
    SetBitKeeps(d.words, a, a);
    SetBitKeeps(once, b, a);
    SetBitKeeps(d.words, a, First(d.width, other));
    SetBitKeeps(d.words, a, Second(d.width, other));
    SetBitKeeps(once, b, First(d.width, other));
    SetBitKeeps(once, b, Second(d.width, other));
  }

  lemma PositionFits(d: Door, hash: Hash)
    requires Valid(d)
    ensures First(d.width, hash) / 64 < |d.words| && Second(d.width, hash) / 64 < |d.words|
  {
  }

  lemma BitsApart(x: bv8, y: bv8)
    requires x < 64 && y < 64 && x != y
    ensures ((1 as bv64) << x) & ((1 as bv64) << y) == 0
  {
  }

  lemma BitsDiffer(pos: nat, at: nat)
    requires pos != at && pos / 64 == at / 64
    ensures !Shares(Bit(pos), Bit(at))
  {
    var m, n := pos % 64, at % 64;
    ShiftAmount(m);
    ShiftAmount(n);
    BitsApart(m as bv8, n as bv8);
  }

  /** Setting a bit sets that bit and no other. */
  lemma SetBitExact(words: seq<bv64>, pos: nat, at: nat)
    requires pos / 64 < |words| && at / 64 < |words|
    ensures IsSet(SetBit(words, pos), at) <==> IsSet(words, at) || at == pos
  {
    SetBitKeeps(words, pos, at);
    hide Bit, Shares, Joined;
    if at != pos && pos / 64 == at / 64 {
      BitsDiffer(pos, at);
      JoinedClear(words[pos / 64], Bit(pos), Bit(at));
    }
  }

  function AllowAll(d: Door, stream: seq<Hash>): (r: Door)
    requires Valid(d)
    ensures Valid(r)
    decreases |stream|
  {
    if stream == [] then d else AllowAll(Allow(d, stream[0]).0, stream[1..])
  }

  /** No false negatives between resets: a hash allowed earlier is let through from then on. */
  lemma {:induction false} NoFalseNegatives(d: Door, stream: seq<Hash>, hash: Hash)
    requires Valid(d) && d.additions + |stream| < RESET_EVERY && (Seen(d, hash) || hash in stream)
    ensures Seen(AllowAll(d, stream), hash) && Allow(AllowAll(d, stream), hash).1
    decreases |stream|
  {
    hide Seen;
    if stream != [] {
      AllowMarks(d, stream[0], hash);
      NoFalseNegatives(Allow(d, stream[0]).0, stream[1..], hash);
    }
  }

  // ---------------------------------------------------------------------------
  // What the doorkeeper answers, exactly

  /** Some hash of the stream marks this position. */
  predicate Marks(width: nat, stream: seq<Hash>, pos: nat)
    requires width > 0
  {
    exists i :: 0 <= i < |stream| && MarkedBy(width, stream[i], pos)
  }

  predicate MarkedBy(width: nat, e: Hash, pos: nat)
    requires width > 0
  {
    First(width, e) == pos || Second(width, e) == pos
  }

  /** As a new doorkeeper: nothing is marked. */
  predicate Blank(d: Door) {
    Valid(d) && d.additions == 0 && forall i | 0 <= i < |d.words| :: d.words[i] == 0
  }

  lemma AllowSets(d: Door, e: Hash, pos: nat)
    requires Valid(d) && pos < d.width && d.additions + 1 < RESET_EVERY
    ensures var r := Allow(d, e).0;
            && r.width == d.width && r.additions == d.additions + 1
            && (IsSet(r.words, pos) <==> IsSet(d.words, pos) || MarkedBy(d.width, e, pos))
  {
    hide IsSet, SetBit, First, Second;
    var a, b := First(d.width, e), Second(d.width, e);
    assert a / 64 < |d.words| && b / 64 < |d.words| by { PositionFits(d, e); }
    SetBitExact(d.words, a, pos);
    SetBitExact(SetBit(d.words, a), b, pos);
  }

  /** Between resets, a position is marked exactly if it was or a hash of the stream marks it. */
  lemma {:induction false} StreamSets(d: Door, stream: seq<Hash>, pos: nat)
    requires Valid(d) && pos < d.width && d.additions + |stream| < RESET_EVERY
    ensures var r := AllowAll(d, stream);
            && r.width == d.width && r.additions == d.additions + |stream|
            && (IsSet(r.words, pos) <==> IsSet(d.words, pos) || Marks(d.width, stream, pos))
    decreases |stream|
  {
    hide IsSet, Allow, MarkedBy;
    if stream != [] {
      var rest := stream[1..];
      AllowSets(d, stream[0], pos);
      StreamSets(Allow(d, stream[0]).0, rest, pos);
      if Marks(d.width, rest, pos) {
        var i :| 0 <= i < |rest| && MarkedBy(d.width, rest[i], pos);
        assert MarkedBy(d.width, stream[i + 1], pos);
      }
      if i :| 0 <= i < |stream| && MarkedBy(d.width, stream[i], pos) && i > 0 {
        assert MarkedBy(d.width, rest[i - 1], pos);
      }
    }
  }

  lemma {:induction false} AllowConcat(d: Door, a: seq<Hash>, b: seq<Hash>)
    requires Valid(d)
    ensures AllowAll(d, a + b) == AllowAll(AllowAll(d, a), b)
    decreases |a|
  {
    hide Allow;
    if a == [] {
      assert a + b == b;
    } else {
      assert (a + b)[1..] == a[1..] + b;
      AllowConcat(Allow(d, a[0]).0, a[1..], b);
    }
  }

  /** As many hashes as fill it leave a doorkeeper as new. */
  lemma FullRound(d: Door, stream: seq<Hash>)
    requires Blank(d) && |stream| == RESET_EVERY
    ensures Blank(AllowAll(d, stream)) && AllowAll(d, stream).width == d.width
  {
    var n := RESET_EVERY - 1;
    var front, last := stream[..n], stream[n];
    assert stream == front + [last];
    AllowConcat(d, front, [last]);
    StreamSets(d, front, 0);
    var before := AllowAll(d, front);
    AllowedOne(before, last);
    AllowClears(before, last);
  }

  lemma AllowedOne(d: Door, e: Hash)
    requires Valid(d)
    ensures AllowAll(d, [e]) == Allow(d, e).0
  {
    hide Allow;
    assert AllowAll(d, [e]) == AllowAll(Allow(d, e).0, []);
  }

  lemma AllowClears(d: Door, e: Hash)
    requires Valid(d) && d.additions + 1 >= RESET_EVERY
    ensures Blank(Allow(d, e).0) && Allow(d, e).0.width == d.width
  {
    hide First, Second, SetBit, Seen;
    PositionFits(d, e);
  }

  /** The hashes since the last reset of a doorkeeper that was new before the stream. */
  function SinceReset(stream: seq<Hash>): seq<Hash>
    decreases |stream|
  {
    if |stream| < RESET_EVERY then stream else SinceReset(stream[RESET_EVERY..])
  }

  /**
   * What the doorkeeper answers, exactly, over every stream with its resets: a hash is let through if and only if
   * the hashes since the last reset have marked both of its positions.
   */
  lemma {:induction false} AllowedIffMarked(d: Door, stream: seq<Hash>, hash: Hash)
    requires Blank(d)
    ensures var since := SinceReset(stream);
            Allow(AllowAll(d, stream), hash).1 <==>
              Marks(d.width, since, First(d.width, hash)) && Marks(d.width, since, Second(d.width, hash))
    decreases |stream|
  {
    hide Marks, First, Second, IsSet;
    if |stream| < RESET_EVERY {
      assert First(d.width, hash) < d.width && Second(d.width, hash) < d.width by { PositionsInside(d.width, hash); }
      StreamSets(d, stream, First(d.width, hash));
      StreamSets(d, stream, Second(d.width, hash));
      BlankIsUnset(d, First(d.width, hash));
      BlankIsUnset(d, Second(d.width, hash));
      hide AllowAll;
    } else {
      var first, rest := stream[..RESET_EVERY], stream[RESET_EVERY..];
      assert stream == first + rest;
      AllowConcat(d, first, rest);
      FullRound(d, first);
      AllowedIffMarked(AllowAll(d, first), rest, hash);
    }
  }

  lemma PositionsInside(width: nat, hash: Hash)
    requires width > 0
    ensures First(width, hash) < width && Second(width, hash) < width
  {
  }

  lemma BlankIsUnset(d: Door, pos: nat)
    requires Blank(d) && pos < d.width
    ensures !IsSet(d.words, pos)
  {
    hide Bit, Shares;
    assert d.words[pos / 64] == 0;
    SharesNothing(Bit(pos));
  }

  lemma SharesNothing(b: bv64)
    ensures !Shares(0, b)
  {
  }
}

/** The admission filter: the doorkeeper absorbs first accesses, the sketch counts the others. */
module TinyLfu {
  import S = Sketches
  import D = Doorkeepers

  type Hash = bv64

  datatype Lfu = Lfu(door: D.Door, sketch: S.Sketch)

  predicate Valid(l: Lfu) { D.Valid(l.door) && S.Valid(l.sketch) }

  /** RecordAccess. */
  function Record(l: Lfu, hash: Hash): (r: Lfu)
    requires Valid(l)
    ensures Valid(r)
  {
    var (door, seen) := D.Allow(l.door, hash);
    Lfu(door, if seen then S.Increment(l.sketch, hash) else l.sketch)
  }

  function RecordAll(l: Lfu, stream: seq<Hash>): (r: Lfu)
    requires Valid(l)
    ensures Valid(r)
    decreases |stream|
  {
    if stream == [] then l else RecordAll(Record(l, stream[0]), stream[1..])
  }

  function Occurrences(hash: Hash, stream: seq<Hash>): nat {
    if stream == [] then 0 else (if stream[0] == hash then 1 else 0) + Occurrences(hash, stream[1..])
  }

  /** n accesses of a hash: all but the first reach the sketch, which saturates. */
  function Expected(n: nat): nat {
    if n == 0 then 0 else if n - 1 > S.COUNTER_MAX then S.COUNTER_MAX else n - 1
  }

  /** After n accesses of the hash, and no more than budget allows before a reset. */
  ghost predicate Keeps(l: Lfu, hash: Hash, n: nat, budget: nat)
    requires Valid(l)
  {
    && l.sketch.additions <= l.door.additions && l.door.additions + budget < D.RESET_EVERY
    && (n > 0 ==> D.Seen(l.door, hash))
    && S.Covers(l.sketch, hash, S.Tally(Expected(n), l.sketch.additions))
  }

  lemma RecordKeeps(l: Lfu, hash: Hash, n: nat, budget: nat, e: Hash)
    requires Valid(l) && Keeps(l, hash, n, budget) && budget > 0
    ensures Keeps(Record(l, e), hash, if e == hash then n + 1 else n, budget - 1)
  {
    hide D.Seen, S.Covers, S.Increment;
    D.AllowMarks(l.door, e, hash);
    D.AllowMarks(l.door, e, e);
    var tally := S.Tally(Expected(n), l.sketch.additions);
    S.IncrementCovers(l.sketch, hash, tally, e);
    IncrementAdds(l.sketch, e);
    var n' := if e == hash then n + 1 else n;
    WeakerCovers(l.sketch, hash, tally, Expected(n));
    if D.Allow(l.door, e).1 {
      WeakerCovers(S.Increment(l.sketch, e), hash, S.Count(tally, hash, e), Expected(n'));
    }
  }

  lemma IncrementAdds(s: S.Sketch, e: Hash)
    requires S.Valid(s) && s.additions + 1 < S.RESET_THRESHOLD
    ensures S.Increment(s, e).additions == s.additions + 1
  {
  }

  lemma WeakerCovers(s: S.Sketch, hash: Hash, t: S.Tally, count: nat)
    requires S.Valid(s) && S.Covers(s, hash, t) && count <= t.count
    ensures S.Covers(s, hash, S.Tally(count, t.additions))
  {
  }

  lemma {:induction false} StreamKeeps(l: Lfu, hash: Hash, n: nat, stream: seq<Hash>)
    requires Valid(l) && Keeps(l, hash, n, |stream|)
    ensures Keeps(RecordAll(l, stream), hash, n + Occurrences(hash, stream), 0)
    decreases |stream|
  {
    hide Keeps, Record;
    if stream != [] {
      RecordKeeps(l, hash, n, |stream|, stream[0]);
      StreamKeeps(Record(l, stream[0]), hash, if stream[0] == hash then n + 1 else n, stream[1..]);
    }
  }

  /** Between resets, the frequency of a hash is at least its accesses after the first, up to 15. */
  lemma FrequencyCovers(l: Lfu, hash: Hash, stream: seq<Hash>)
    requires Valid(l) && l.door.additions == l.sketch.additions == 0 && |stream| < D.RESET_EVERY
    ensures S.Estimate(RecordAll(l, stream).sketch, hash) >= Expected(Occurrences(hash, stream))
  {
    hide S.Counter, S.Estimate, D.Seen, RecordAll, Occurrences;
    StreamKeeps(l, hash, 0, stream);
    S.EstimateAtLeast(RecordAll(l, stream).sketch, hash, Expected(Occurrences(hash, stream)));
  }

  // ---------------------------------------------------------------------------
  // What reaches the sketch, exactly

  /** The accesses whose positions the accesses since the doorkeeper's last reset had already marked. */
  ghost function Repeated(width: nat, stream: seq<Hash>): seq<Hash>
    requires width > 0
  {
    if stream == [] then []
    else
      var front, last := stream[..|stream| - 1], stream[|stream| - 1];
      var since := D.SinceReset(front);
      Repeated(width, front) +
      if D.Marks(width, since, D.First(width, last)) && D.Marks(width, since, D.Second(width, last))
      then [last] else []
  }

  lemma {:induction false} RecordConcat(l: Lfu, a: seq<Hash>, b: seq<Hash>)
    requires Valid(l)
    ensures RecordAll(l, a + b) == RecordAll(RecordAll(l, a), b)
    decreases |a|
  {
    hide Record;
    if a == [] {
      assert a + b == b;
    } else {
      assert (a + b)[1..] == a[1..] + b;
      RecordConcat(Record(l, a[0]), a[1..], b);
    }
  }

  lemma RecordOne(l: Lfu, e: Hash)
    requires Valid(l)
    ensures RecordAll(l, [e]) == Record(l, e)
  {
    hide Record;
    assert RecordAll(l, [e]) == RecordAll(Record(l, e), []);
  }

  lemma {:induction false} IncrementSnoc(s: S.Sketch, stream: seq<Hash>, e: Hash)
    requires S.Valid(s)
    ensures S.IncrementAll(s, stream + [e]) == S.Increment(S.IncrementAll(s, stream), e)
    decreases |stream|
  {
    hide S.Increment;
    if stream == [] {
      assert [] + [e] == [e];
      assert S.IncrementAll(s, [e]) == S.IncrementAll(S.Increment(s, e), []);
    } else {
      assert (stream + [e])[1..] == stream[1..] + [e];
      IncrementSnoc(S.Increment(s, stream[0]), stream[1..], e);
    }
  }

  lemma NothingRecorded(l: Lfu)
    requires Valid(l)
    ensures RecordAll(l, []) == l && D.AllowAll(l.door, []) == l.door && S.IncrementAll(l.sketch, []) == l.sketch
  {
  }

  lemma NothingRepeated(width: nat)
    requires width > 0
    ensures Repeated(width, []) == []
  {
  }

  lemma RepeatedSnoc(width: nat, front: seq<Hash>, e: Hash)
    requires width > 0
    ensures var since := D.SinceReset(front);
            Repeated(width, front + [e]) == Repeated(width, front) +
              if D.Marks(width, since, D.First(width, e)) && D.Marks(width, since, D.Second(width, e)) then [e] else []
  {
    hide D.Marks, D.First, D.Second, D.SinceReset;
    assert (front + [e])[..|front|] == front;
  }

  /**
   * Over every stream, the filter is the doorkeeper beside a sketch of the repeated accesses: the sketch counts an
   * access exactly if both of its positions were already marked since the doorkeeper's last reset.
   */
  lemma {:induction false} RecordsRepeated(l: Lfu, stream: seq<Hash>)
    requires Valid(l) && D.Blank(l.door)
    ensures RecordAll(l, stream) ==
            Lfu(D.AllowAll(l.door, stream), S.IncrementAll(l.sketch, Repeated(l.door.width, stream)))
    decreases |stream|
  {
    hide D.Allow, S.Increment, D.Blank, D.Marks, D.First, D.Second, Repeated, RecordAll, S.IncrementAll, D.AllowAll;
    hide D.SinceReset;
    if stream == [] {
      NothingRecorded(l);
      NothingRepeated(l.door.width);
    } else {
      var front, e := stream[..|stream| - 1], stream[|stream| - 1];
      assert stream == front + [e];
      RecordsRepeated(l, front);
      RecordConcat(l, front, [e]);
      RecordOne(RecordAll(l, front), e);
      D.AllowConcat(l.door, front, [e]);
      D.AllowedOne(D.AllowAll(l.door, front), e);
      D.AllowedIffMarked(l.door, front, e);
      var before := Repeated(l.door.width, front);
      IncrementSnoc(l.sketch, before, e);
      RepeatedSnoc(l.door.width, front, e);
      assert before + [] == before;
    }
  }
}

/** The two filters as objects whose tables are updated in place. */
module LfuTables {
  import opened PowersOfTwo
  import opened WordValues
  import opened Sketches
  import D = Doorkeepers

  const DEFAULT_WIDTH: bv64 := 0x1_0000

  /** A requested width, taken as a signed word, that is not positive stands for the default. */
  function Requested(width: bv64): (w: bv64)
    ensures w > 0
  {
    if width == 0 || width >= 0x8000_0000_0000_0000 then DEFAULT_WIDTH else width
  }

  /** Widths whose rounding stays a positive signed word. */
  predicate Roundable(width: bv64) {
    Requested(width) <= 0x4000_0000_0000_0000
  }

  /** The number of counters or bits: the requested width rounded up. The mask is one less. */
  function Rounded(width: bv64): bv64 { NextPowerOf2(Requested(width)) }

  lemma RoundedWidth(width: bv64)
    requires Roundable(width)
    ensures IsPower(Rounded(width)) && (Requested(width) != 1 ==> Rounded(width) != 1)
  {
    hide IsPower, NextPowerOf2;
    RoundedIsPower(Requested(width));
  }

  /** A positive width is rounded as it is. */
  lemma RoundedPositive(width: bv64)
    requires 0 < width < 0x8000_0000_0000_0000
    ensures Rounded(width) == NextPowerOf2(width)
  {
    hide NextPowerOf2;
  }

  /** A width that is not positive, taken as a signed word, is rounded like the default. */
  lemma RoundedDefault(width: bv64)
    requires width == 0 || width >= 0x8000_0000_0000_0000
    ensures Rounded(width) == 0x1_0000
  {
    hide NextPowerOf2;
    DefaultRounded();
  }

  lemma DefaultRounded()
    ensures NextPowerOf2(DEFAULT_WIDTH) == 0x1_0000
  {
  }

  class CountMinSketch {
    const size: bv64
    const width: nat
    const rows: seq<array<bv8>>
    var additions: nat

    ghost predicate Ok()
    {
      && IsPower(size) && width == Value(size) && (width >= 2 ==> width % 2 == 0) && |rows| == DEPTH
      && (forall i | 0 <= i < DEPTH :: rows[i].Length == width / 2)
      && forall i, j | 0 <= i < j < DEPTH :: rows[i] != rows[j]
    }

    /** A width of one leaves no byte to count in, and counting would index an empty row. */
    ghost predicate Countable() { Ok() && width >= 2 }

    ghost function View(): (s: Sketch)
      requires Countable()
      reads this, rows
      ensures Valid(s)
    {
      Sketch(width, [rows[0][..], rows[1][..], rows[2][..], rows[3][..]], additions)
    }

    /** The width is rounded up to a power of two; a width of one leaves empty rows. */
    constructor (requested: bv64)
      requires Roundable(requested)
      ensures Ok() && size == Rounded(requested) && (Requested(requested) != 1 ==> Countable())
      ensures Countable() ==> View() == Empty(width)
      ensures forall i | 0 <= i < DEPTH :: fresh(rows[i])
    {
      hide Rounded, IsPower, Value, Requested, Roundable;
      var w := Rounded(requested);
      RoundedWidth(requested);
      PowerNotZero(w);
      ValuePositive(w);
      if w != 1 {
        PowerIsEven(w);
      } else {
        OneValue();
      }
      var width := Value(w);
      size := w;
      var a := new bv8[width / 2](_ => 0);
      var b := new bv8[width / 2](_ => 0);
      var c := new bv8[width / 2](_ => 0);
      var d := new bv8[width / 2](_ => 0);
      this.width, rows, additions := width, [a, b, c, d], 0;
      new;
      if width >= 2 {
        forall i | 0 <= i < DEPTH
          ensures View().rows[i] == Empty(width).rows[i]
        {
          assert rows[i][..] == seq(width / 2, _ => 0 as bv8);
        }
      }
    }

    /** Masking gives the position. */
    lemma PositionByMask(hash: Hash, i: nat)
      requires Countable() && i < DEPTH
      ensures Value(Masked(hash ^ Seed(i), size)) == Pos(width, hash, i)
    {
      hide Value, IsPower, Seed, Masked;
      MaskIsRemainder(hash ^ Seed(i), size);
    }

    static method BumpAt(row: array<bv8>, pos: nat)
      requires pos / 2 < row.Length
      modifies row
      ensures row[..] == BumpRow(old(row[..]), pos)
    {
      hide Bump;
      row[pos / 2] := Bump(row[pos / 2], pos % 2);
    }

    method Increment(hash: Hash)
      requires Countable()
      modifies this, rows
      ensures View() == Sketches.Increment(old(View()), hash)
    {
      hide Pos, BumpRow, Value, IsPower, Seed, Masked, Reset;
      ghost var before := View();
      for i := 0 to DEPTH
        invariant Countable() && additions == old(additions)
        invariant forall j | 0 <= j < DEPTH ::
          rows[j][..] == if j < i then BumpRow(before.rows[j], Pos(width, hash, j)) else before.rows[j]
      {
        PositionByMask(hash, i);
        var pos := Value(Masked(hash ^ Seed(i), size));
        BumpAt(rows[i], pos);
      }
      additions := additions + 1;
      ghost var bumped := seq(DEPTH, i requires 0 <= i < DEPTH => BumpRow(before.rows[i], Pos(width, hash, i)));
      assert View() == before.(rows := bumped, additions := before.additions + 1);
      if additions >= RESET_THRESHOLD {
        ResetAll();
      }
    }

    static method HalveInPlace(row: array<bv8>)
      modifies row
      ensures row[..] == HalveRow(old(row[..]))
    {
      hide Halve;
      for k := 0 to row.Length
        invariant forall m | 0 <= m < row.Length :: row[m] == if m < k then Halve(old(row[m])) else old(row[m])
      {
        row[k] := Halve(row[k]);
      }
    }

    method ResetAll()
      requires Countable()
      modifies this, rows
      ensures View() == Reset(old(View()))
    {
      hide Halve, HalveRow;
      ghost var before := View();
      for i := 0 to DEPTH
        invariant Countable()
        invariant forall j | 0 <= j < DEPTH :: rows[j][..] == if j < i then HalveRow(before.rows[j]) else before.rows[j]
      {
        HalveInPlace(rows[i]);
      }
      additions := 0;
      assert View().rows == Reset(before).rows;
    }

    method Estimate(hash: Hash) returns (min: nat)
      requires Countable()
      ensures min == Sketches.Estimate(View(), hash)
    {
      hide Pos, Nibble, Value, IsPower, Seed, Masked;
      min := COUNTER_MAX;
      ghost var seen: seq<nat> := [COUNTER_MAX];
      for i := 0 to DEPTH
        invariant |seen| == i + 1 && seen[0] == COUNTER_MAX && min == seen[i]
        invariant forall j | 0 <= j < i :: seen[j + 1] == Min(seen[j], Counter(View(), hash, j))
      {
        PositionByMask(hash, i);
        var pos := Value(Masked(hash ^ Seed(i), size));
        var val := Nibble(rows[i][pos / 2], pos % 2);
        if val < min {
          min := val;
        }
        seen := seen + [min];
      }
      assert seen[1] == Min(seen[0], Counter(View(), hash, 0)) && seen[2] == Min(seen[1], Counter(View(), hash, 1));
      assert seen[3] == Min(seen[2], Counter(View(), hash, 2)) && seen[4] == Min(seen[3], Counter(View(), hash, 3));
    }
  }

  class Doorkeeper {
    const size: bv64
    const width: nat
    const words: array<bv64>
    var additions: nat

    ghost function View(): D.Door
      reads this, words
    {
      D.Door(width, words[..], additions)
    }

    ghost predicate Ok()
      reads this, words
    {
      IsPower(size) && width == Value(size) && D.Valid(View())
    }

    /** The width is rounded up to a power of two. */
    constructor (requested: bv64)
      requires Roundable(requested)
      ensures Ok() && size == Rounded(requested) && fresh(words) && additions == 0
      ensures forall i | 0 <= i < words.Length :: words[i] == 0
    {
      hide Rounded, IsPower, Value, Requested, Roundable;
      var w := Rounded(requested);
      RoundedWidth(requested);
      PowerFillsWords(w);
      PowerNotZero(w);
      ValuePositive(w);
      var width := Value(w);
      size := w;
      this.width, additions := width, 0;
      words := new bv64[if width / 64 == 0 then 1 else width / 64](_ => 0);
    }

    /** Masking gives the positions. */
    lemma PositionsByMask(hash: Hash)
      requires Ok()
      ensures Value(Masked(hash, size)) == D.First(width, hash)
      ensures Value(Masked(D.Mix(hash), size)) == D.Second(width, hash)
    {
      hide Value, IsPower, D.Mix, Masked;
      MaskIsRemainder(hash, size);
      MaskIsRemainder(D.Mix(hash), size);
    }

    method Mark(pos: nat)
      requires pos / 64 < words.Length
      modifies words
      ensures words[..] == D.SetBit(old(words[..]), pos)
    {
      hide D.Bit;
      words[pos / 64] := words[pos / 64] | D.Bit(pos);
    }

    method Reset()
      requires D.Valid(View())
      modifies `additions, words
      ensures View() == D.Cleared(old(View()))
    {
      for i := 0 to words.Length
        invariant forall j | 0 <= j < i :: words[j] == 0
      {
        words[i] := 0;
      }
      additions := 0;
      assert words[..] == seq(words.Length, _ => 0 as bv64);
    }

    method Allow(hash: Hash) returns (seen: bool)
      requires Ok()
      modifies this, words
      ensures Ok() && (View(), seen) == D.Allow(old(View()), hash)
    {
      hide D.First, D.Second, D.IsSet, D.SetBit, D.Mix, Value, IsPower, Masked;
      D.PositionFits(View(), hash);
      PositionsByMask(hash);
      var a, b := Value(Masked(hash, size)), Value(Masked(D.Mix(hash), size));
      seen := D.IsSet(words[..], a) && D.IsSet(words[..], b);
      Mark(a);
      Mark(b);
      additions := additions + 1;
      if additions >= D.RESET_EVERY {
        Reset();
      }
    }
  }
}
