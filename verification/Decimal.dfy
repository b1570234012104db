/** Decimal text of integers: the printed form, strconv-style parsing, and the digit-array printer. */
module Decimal {
  import opened Options
  import opened EntryFormat

  const ZERO: byte := 48
  const MINUS: byte := 45
  const PLUS: byte := 43

  /** Decimal digits without leading zeros. */
  function Digits(n: nat): (s: seq<byte>)
    ensures |s| > 0
  {
    if n < 10 then [ZERO + n] else Digits(n / 10) + [ZERO + n % 10]
  }

  /** strconv.FormatInt in base 10. */
  function Format(n: int): (s: seq<byte>)
    ensures |s| > 0
  {
    if n < 0 then [MINUS] + Digits(-n) else Digits(n)
  }

  predicate IsDigit(b: byte) { ZERO <= b <= ZERO + 9 }

  predicate AllDigits(s: seq<byte>) { forall b | b in s :: IsDigit(b) }

  function Value(s: seq<byte>): nat
    requires AllDigits(s)
  {
    if s == [] then 0
    else
      assert s[|s| - 1] in s;
      10 * Value(s[..|s| - 1]) + (s[|s| - 1] - ZERO)
  }

  /** strconv.ParseInt in base 10 for 64 bits: an optional sign, digits only, in range. */
  function ParseInt64(s: seq<byte>): Option<int64> {
    var negative := s != [] && s[0] == MINUS;
    var digits := if s != [] && (s[0] == MINUS || s[0] == PLUS) then s[1..] else s;
    if digits == [] || !AllDigits(digits) then None
    else
      var magnitude: int := Value(digits);
      var n := if negative then 0 - magnitude else magnitude;
      if -0x8000_0000_0000_0000 <= n < 0x8000_0000_0000_0000 then Some(n) else None
  }

  lemma {:induction false} DigitsValue(n: nat)
    ensures AllDigits(Digits(n)) && Value(Digits(n)) == n
  {
    if n >= 10 {
      DigitsValue(n / 10);
      assert Digits(n)[..|Digits(n)| - 1] == Digits(n / 10);
    }
  }

  /** Parsing printed text gives the number back, for every 64-bit integer. */
  lemma ParseFormat(n: int64)
    ensures ParseInt64(Format(n)) == Some(n)
  {
    if n < 0 {
      var magnitude: int := 0 - n;
      DigitsValue(magnitude);
      assert Format(n)[1..] == Digits(magnitude);
    } else {
      DigitsValue(n);
      assert IsDigit(Digits(n)[0]);
    }
  }

  lemma {:induction false} NoLeadingZero(n: nat)
    requires n > 0
    ensures Digits(n)[0] != ZERO
  {
    if n >= 10 {
      NoLeadingZero(n / 10);
    }
  }

  /** Printed text is the shortest: a sign exactly for a negative number, and no zero in front of other digits. */
  lemma FormatShortest(n: int)
    ensures Format(n)[0] == MINUS <==> n < 0
    ensures Format(n)[if n < 0 then 1 else 0] == ZERO <==> n == 0
  {
    if n != 0 {
      var magnitude: int := if n < 0 then 0 - n else n;
      NoLeadingZero(magnitude);
      DigitsValue(magnitude);
      assert Digits(magnitude)[0] in Digits(magnitude);
    }
  }

  function Pow10(k: nat): nat {
    if k == 0 then 1 else 10 * Pow10(k - 1)
  }

  /** The digits of what is left to write; nothing for zero. */
  function Unwritten(n: nat): seq<byte> { if n > 0 then Digits(n) else [] }

  lemma TwentyDigits()
    ensures Pow10(20) == 100_000_000_000_000_000_000
  {
    assert Pow10(5) == 100_000;
    assert Pow10(10) == 10_000_000_000;
    assert Pow10(15) == 1_000_000_000_000_000;
  }

  /** Writing the last digit in front of what is written leaves the number without it to be written. */
  lemma DigitStep(n: nat, i: nat)
    requires 0 < n < Pow10(i)
    ensures i > 0 && n / 10 < Pow10(i - 1)
    ensures forall written :: Unwritten(n) + written == Unwritten(n / 10) + ([ZERO + n % 10] + written)
  {
    assert Unwritten(n) == Unwritten(n / 10) + [ZERO + n % 10];
  }

  lemma AllWritten()
    ensures Unwritten(0) == []
  {
  }

  method WriteDigit(digits: array<byte>, i: nat, digit: byte)
    requires i < digits.Length
    modifies digits
    ensures digits[i..] == [digit] + old(digits[i + 1..])
  {
    digits[i] := digit;
  }

  /** appendUint: fills a digit array from its end. */
  method AppendUint(buf: seq<byte>, number: uint64) returns (r: seq<byte>)
    ensures r == buf + Digits(number)
  {
    if number == 0 {
      return buf + [ZERO];
    }
    assert Digits(number) == Unwritten(number);
    hide Pow10, Digits, Unwritten;
    var digits := new byte[20](_ => 0);
    var i: nat, n: nat := 20, number;
    TwentyDigits();
    while n > 0
      invariant 0 <= i <= 20 && 0 <= n < Pow10(i)
      invariant Digits(number) == Unwritten(n) + digits[i..]
    {
      ghost var before := digits[i..];
      DigitStep(n, i);
      i := i - 1;
      WriteDigit(digits, i, n % 10 + ZERO);
      n := n / 10;
    }
    AllWritten();
    r := buf + digits[i..];
  }

  /** Two's-complement negation: the minimum is its own negation. */
  function Negate(n: int64): int64 {
    if n == -0x8000_0000_0000_0000 then n else -n
  }

  lemma SmallDigits(n: nat)
    requires n < 100
    ensures Digits(n) == if n < 10 then [ZERO + n] else [ZERO + n / 10, ZERO + n % 10]
  {
  }

  /** FormatInt: a table for 0..99, otherwise sign and digits; right even for the minimum. */
  method AppendInt(buf: seq<byte>, number: int64) returns (r: seq<byte>)
    ensures r == buf + Format(number)
  {
    hide Digits;
    if 0 <= number < 100 {
      SmallDigits(number);
      return buf + if number < 10 then [ZERO + number] else [ZERO + number / 10, ZERO + number % 10];
    }
    var prefix, n := buf, number;
    if n < 0 {
      prefix, n := prefix + [MINUS], Negate(n);
      ghost var magnitude: int := 0 - number;
      assert ToUint64(n) == magnitude && Format(number) == [MINUS] + Digits(magnitude);
    }
    r := AppendUint(prefix, ToUint64(n));
  }
}
