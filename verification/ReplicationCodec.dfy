/** The wire form of a replicated operation, and the NUL-separated argument list in its payload. */
module ReplicationCodec {
  import opened Options
  import opened EntryFormat
  import opened Decimal
  import opened Resp
  import opened RespReader
  import opened ReplicationLog

  /** "REPLAPPLY". */
  const MARKER: Text := [82, 69, 80, 76, 65, 80, 80, 76, 89]

  function Fields(op: LogOp): (fs: seq<Text>)
    ensures |fs| == 8
  {
    [MARKER, Format(op.slot), Format(op.epoch), Format(op.lsn), op.opType, op.key, Format(op.expireAtNs), op.payload]
  }

  function EncodeFields(fs: seq<Text>): Text {
    if fs == [] then [] else PrintBulk(fs[0]) + EncodeFields(fs[1..])
  }

  /** encodeReplicationApplyCommand. */
  function EncodeOp(op: LogOp): Text {
    Line(STAR, 8) + EncodeFields(Fields(op))
  }

  method EncodeReplicationApplyCommand(op: LogOp) returns (buf: Text)
    ensures buf == EncodeOp(op)
  {
    hide Format, PrintBulk;
    var fields := Fields(op);
    buf := [STAR] + Format(|fields|) + CRLF;
    for i := 0 to |fields|
      invariant EncodeOp(op) == buf + EncodeFields(fields[i..])
    {
      assert fields[i..][1..] == fields[i + 1..];
      buf := buf + PrintBulk(fields[i]);
    }
    assert fields[|fields|..] == [];
  }

  // ---------------------------------------------------------------------------
  // Scanning and reading

  /** The length of the leading run of digits. */
  function DigitRun(s: Text): (k: nat)
    ensures k <= |s| && AllDigits(s[..k])
    ensures k < |s| ==> !IsDigit(s[k])
  {
    if s == [] || !IsDigit(s[0]) then 0
    else
      var k := DigitRun(s[1..]);
      assert s[..k + 1] == [s[0]] + s[1..][..k];
      k + 1
  }

  /** A leading decimal number below 2^64, 0 if there is none. */
  function ScanUint(s: Text): uint64 {
    var n := Decimal.Value(s[..DigitRun(s)]);
    if n < 0x1_0000_0000_0000_0000 then n else 0
  }

  /** A leading signed decimal number of 64 bits, 0 if there is none. */
  function ScanInt(s: Text): int64 {
    var negative := s != [] && s[0] == MINUS;
    var digits := if s != [] && (s[0] == MINUS || s[0] == PLUS) then s[1..] else s;
    var magnitude: int := Decimal.Value(digits[..DigitRun(digits)]);
    var n := if negative then 0 - magnitude else magnitude;
    if -0x8000_0000_0000_0000 <= n < 0x8000_0000_0000_0000 then n else 0
  }

  /** One length-prefixed field; its terminator is skipped unchecked. */
  function ReadField(input: Text): (r: Option<(Text, Text)>)
    ensures r.Some? ==> |r.value.1| < |input|
  {
    match Cut(input)
    case None => None
    case Some((line, rest)) =>
      var length := if line[0] == DOLLAR then ScanInt(line[1..]) else 0;
      if length < 0 || |rest| < length + 2 then None else Some((rest[..length], rest[length + 2..]))
  }

  function ReadFields(input: Text, count: nat): (r: Option<(seq<Text>, Text)>)
    ensures r.Some? ==> |r.value.0| == count
    decreases count
  {
    if count == 0 then Some(([], input))
    else match ReadField(input)
      case None => None
      case Some((f, rest)) =>
        match ReadFields(rest, count - 1)
        case None => None
        case Some((fs, tail)) => Some(([f] + fs, tail))
  }

  /** The operation eight or more fields stand for; further fields are ignored. */
  function Assemble(fs: seq<Text>): LogOp
    requires |fs| >= 8
  {
    LogOp(ScanUint(fs[1]) % 0x1_0000, ScanUint(fs[2]), ScanUint(fs[3]), fs[4], fs[5], fs[7], ScanInt(fs[6]))
  }

  /** readReplicationOp. */
  function ReadOp(input: Text): Option<(LogOp, Text)> {
    match Cut(input)
    case None => None
    case Some((line, rest)) =>
      if line[0] != STAR then None
      else
        var count := ScanInt(line[1..]);
        if count < 8 then None
        else match ReadFields(rest, count)
          case None => None
          case Some((fs, tail)) => Some((Assemble(fs), tail))
  }

  /** Only input that begins with the header of an array of at least eight fields is read as an operation. */
  lemma OnlyArraysAreRead(input: Text)
    ensures ReadOp(input).Some? ==>
              input != [] && input[0] == STAR && Cut(input).Some? && ScanInt(Cut(input).value.0[1..]) >= 8
  {
    hide ScanInt, ReadFields, Assemble;
    if Cut(input).Some? {
      var (line, rest) := Cut(input).value;
      assert (line + rest)[0] == line[0];
    }
  }

  // ---------------------------------------------------------------------------
  // Reading undoes encoding

  lemma {:induction false} DigitRunOf(s: Text, rest: Text)
    requires AllDigits(s) && (rest == [] || !IsDigit(rest[0]))
    ensures DigitRun(s + rest) == |s|
  {
    if s == [] {
      assert s + rest == rest;
    } else {
      assert (s + rest)[1..] == s[1..] + rest;
      assert s[0] in s;
      DigitRunOf(s[1..], rest);
    }
  }

  lemma ScanUintFormat(n: uint64)
    ensures ScanUint(Format(n)) == n
  {
    DigitsValue(n);
    DigitRunOf(Digits(n), []);
    assert Digits(n) + [] == Digits(n);
    assert Digits(n)[..|Digits(n)|] == Digits(n);
  }

  lemma ScanIntFormat(n: int64, rest: Text)
    requires rest == [] || !IsDigit(rest[0])
    ensures ScanInt(Format(n) + rest) == n
  {
    hide DigitRun, Decimal.Value, Digits;
    var magnitude: int := if n < 0 then 0 - n else n;
    var digits := Digits(magnitude);
    DigitsValue(magnitude);
    DigitRunOf(digits, rest);
    assert (digits + rest)[..|digits|] == digits;
    var s := Format(n) + rest;
    if n < 0 {
      assert s[0] == MINUS && s[1..] == digits + rest;
    } else {
      assert s == digits + rest && digits[0] in digits && IsDigit(s[0]);
    }
  }

  /** A printed number line is cut off and scanned. */
  lemma CutNumberLine(prefix: byte, n: int64, rest: Text)
    requires prefix != LF
    ensures var line := Line(prefix, n);
            Cut(line + rest) == Some((line, rest)) && line[0] == prefix && ScanInt(line[1..]) == n
  {
    var line := Line(prefix, n);
    var s := [prefix] + Format(n) + [CR];
    FormatHasNoLineFeed(n);
    CutLine(s, rest);
    assert s + [LF] == line;
    assert line[1..] == Format(n) + CRLF;
    ScanIntFormat(n, CRLF);
  }

  lemma ReadPrintedField(f: Text, tail: Text)
    requires |f| < 0x8000_0000_0000_0000
    ensures ReadField(PrintBulk(f) + tail) == Some((f, tail))
  {
    hide Format, ScanInt, Cut;
    var rest := f + CRLF + tail;
    assert PrintBulk(f) + tail == Line(DOLLAR, |f|) + rest;
    CutNumberLine(DOLLAR, |f|, rest);
    assert rest[..|f|] == f && rest[|f| + 2..] == tail;
  }

  lemma {:induction false} ReadEncodedFields(fs: seq<Text>, tail: Text)
    requires forall i | 0 <= i < |fs| :: |fs[i]| < 0x8000_0000_0000_0000
    ensures ReadFields(EncodeFields(fs) + tail, |fs|) == Some((fs, tail))
    decreases |fs|
  {
    hide ReadField, PrintBulk;
    if fs == [] {
      assert EncodeFields(fs) + tail == tail;
    } else {
      assert EncodeFields(fs) + tail == PrintBulk(fs[0]) + (EncodeFields(fs[1..]) + tail);
      ReadPrintedField(fs[0], EncodeFields(fs[1..]) + tail);
      ReadEncodedFields(fs[1..], tail);
      assert [fs[0]] + fs[1..] == fs;
    }
  }

  /** What the machine's integers can hold. */
  predicate Encodable(op: LogOp) {
    op.epoch < 0x1_0000_0000_0000_0000 && op.lsn < 0x1_0000_0000_0000_0000
    && -0x8000_0000_0000_0000 <= op.expireAtNs < 0x8000_0000_0000_0000
    && |op.opType| < 0x8000_0000_0000_0000 && |op.key| < 0x8000_0000_0000_0000 && |op.payload| < 0x8000_0000_0000_0000
  }

  lemma {:induction false} DigitsShort(n: nat, k: nat)
    requires n < Pow10(k) && k > 0
    ensures |Digits(n)| <= k
    decreases k
  {
    if n >= 10 {
      DigitsShort(n / 10, k - 1);
    }
  }

  lemma FormatShort(n: int)
    requires -0x1_0000_0000_0000_0000 < n < 0x1_0000_0000_0000_0000
    ensures |Format(n)| <= 21
  {
    assert Pow10(5) == 100_000 && Pow10(10) == 10_000_000_000 && Pow10(15) == 1_000_000_000_000_000;
    assert Pow10(20) == 100_000_000_000_000_000_000;
    DigitsShort(if n < 0 then -n else n, 20);
  }

  /** Reading an encoded operation, with arbitrary bytes in key and payload, gives it back with the exact remainder. */
  lemma ReadEncodedOp(op: LogOp, tail: Text)
    requires Encodable(op)
    ensures ReadOp(EncodeOp(op) + tail) == Some((op, tail))
  {
    hide Format, Cut, ScanInt, ScanUint, ReadFields, EncodeFields;
    var fs := Fields(op);
    FormatShort(op.slot);
    FormatShort(op.epoch);
    FormatShort(op.lsn);
    FormatShort(op.expireAtNs);
    assert EncodeOp(op) + tail == Line(STAR, 8) + (EncodeFields(fs) + tail);
    CutNumberLine(STAR, 8, EncodeFields(fs) + tail);
    ReadEncodedFields(fs, tail);
    ScanUintFormat(op.slot);
    ScanUintFormat(op.epoch);
    ScanUintFormat(op.lsn);
    ScanIntFormat(op.expireAtNs, []);
    assert Format(op.expireAtNs) + [] == Format(op.expireAtNs);
  }

  /** The reader loop: fields are read and dispatched one by one. */
  method ReadReplicationOp(reader: Reader) returns (r: Option<LogOp>)
    modifies reader
    ensures match ReadOp(old(reader.rest))
            case None => r == None
            case Some((op, tail)) => r == Some(op) && reader.rest == tail
  {
    hide ScanInt, ScanUint, ReadField, Cut;
    var header := Cut(reader.rest);
    if header.None? || header.value.0[0] != STAR {
      return None;
    }
    reader.rest := header.value.1;
    var count := ScanInt(header.value.0[1..]);
    if count < 8 {
      return None;
    }
    ghost var start, seen := reader.rest, [];
    ghost var whole := ReadFields(start, count);
    assert whole.Some? ==> [] + whole.value.0 == whole.value.0;
    var slot, epoch, lsn: uint64, opType, key, expireAtNs: int64, payload := 0, 0, 0, [], [], 0, [];
    for i := 0 to count
      invariant |seen| == i
      invariant whole == match ReadFields(reader.rest, count - i) {
                           case None => None
                           case Some((fs, tail)) => Some((seen + fs, tail))
                         }
      invariant i > 1 ==> slot == ScanUint(seen[1])
      invariant i > 2 ==> epoch == ScanUint(seen[2])
      invariant i > 3 ==> lsn == ScanUint(seen[3])
      invariant i > 4 ==> opType == seen[4]
      invariant i > 5 ==> key == seen[5]
      invariant i > 6 ==> expireAtNs == ScanInt(seen[6])
      invariant i > 7 ==> payload == seen[7]
    {
      var field := ReadField(reader.rest);
      if field.None? {
        return None;
      }
      var val := field.value.0;
      reader.rest := field.value.1;
      ghost var more := ReadFields(reader.rest, count - i - 1);
      assert more.Some? ==> seen + ([val] + more.value.0) == (seen + [val]) + more.value.0;
      seen := seen + [val];
      if i == 1 {
        slot := ScanUint(val);
      } else if i == 2 {
        epoch := ScanUint(val);
      } else if i == 3 {
        lsn := ScanUint(val);
      } else if i == 4 {
        opType := val;
      } else if i == 5 {
        key := val;
      } else if i == 6 {
        expireAtNs := ScanInt(val);
      } else if i == 7 {
        payload := val;
      }
    }
    assert whole == Some((seen + [], reader.rest)) && seen + [] == seen;
    return Some(LogOp(slot % 0x1_0000, epoch, lsn, opType, key, payload, expireAtNs));
  }

  // ---------------------------------------------------------------------------
  // The payload: arguments joined by NUL bytes

  /** encodeReplicationPayload. */
  function Join(args: seq<Text>): Text {
    if args == [] then [] else if |args| == 1 then args[0] else args[0] + [0] + Join(args[1..])
  }

  function Split(payload: Text): (parts: seq<Text>)
    ensures |parts| > 0
  {
    if payload == [] then [[]]
    else if payload[0] == 0 then [[]] + Split(payload[1..])
    else
      var rest := Split(payload[1..]);
      [[payload[0]] + rest[0]] + rest[1..]
  }

  /** decodeReplicationPayload: an empty payload is no argument at all. */
  function DecodePayload(payload: Text): seq<Text> {
    if payload == [] then [] else Split(payload)
  }

  lemma {:induction false} SplitOne(s: Text, rest: Text)
    requires 0 !in s
    ensures Split(s) == [s]
    ensures Split(s + [0] + rest) == [s] + Split(rest)
  {
    var t := s + [0] + rest;
    if s == [] {
      assert t[1..] == rest;
    } else {
      SplitOne(s[1..], rest);
      assert t[1..] == s[1..] + [0] + rest;
      assert Split(t[1..])[0] == s[1..] && Split(t[1..])[1..] == Split(rest);
      assert [s[0]] + s[1..] == s;
    }
  }

  lemma {:induction false} SplitJoin(args: seq<Text>)
    requires args != [] && forall i | 0 <= i < |args| :: 0 !in args[i]
    ensures Split(Join(args)) == args
  {
    if |args| == 1 {
      SplitOne(args[0], []);
    } else {
      SplitJoin(args[1..]);
      SplitOne(args[0], Join(args[1..]));
    }
  }

  function Nuls(s: Text): nat {
    if s == [] then 0 else (if s[0] == 0 then 1 else 0) + Nuls(s[1..])
  }

  lemma {:induction false} NulsConcat(a: Text, b: Text)
    ensures Nuls(a + b) == Nuls(a) + Nuls(b)
  {
    if a == [] {
      assert a + b == b;
    } else {
      assert (a + b)[1..] == a[1..] + b;
      NulsConcat(a[1..], b);
    }
  }

  lemma {:induction false} SplitCount(s: Text)
    ensures |Split(s)| == Nuls(s) + 1
  {
    if s != [] {
      SplitCount(s[1..]);
    }
  }

  lemma {:induction false} NulsOfMember(s: Text)
    requires 0 in s
    ensures Nuls(s) > 0
  {
    if s[0] != 0 {
      NulsOfMember(s[1..]);
    }
  }

  /** Joining adds a NUL between neighbours to those the arguments have. */
  lemma {:induction false} JoinCount(args: seq<Text>)
    requires args != []
    ensures Nuls(Join(args)) >= |args| - 1
    ensures (exists i :: 0 <= i < |args| && 0 in args[i]) ==> Nuls(Join(args)) > |args| - 1
  {
    if 0 in args[0] {
      NulsOfMember(args[0]);
    }
    if |args| > 1 {
      JoinCount(args[1..]);
      NulsConcat(args[0] + [0], Join(args[1..]));
      NulsConcat(args[0], [0]);
      if i :| 0 <= i < |args| && 0 in args[i] {
        assert i > 0 ==> 0 in args[1..][i - 1];
      }
    }
  }

  /** Arguments survive the payload if and only if none contains a NUL and they are not one empty argument. */
  lemma PayloadRoundTripIff(args: seq<Text>)
    ensures DecodePayload(Join(args)) == args <==> (forall i | 0 <= i < |args| :: 0 !in args[i]) && args != [[]]
  {
    if args != [] {
      if forall i | 0 <= i < |args| :: 0 !in args[i] {
        SplitJoin(args);
        assert Join(args) == [] ==> |args| == 1 && args == [[]];
      } else {
        JoinCount(args);
        SplitCount(Join(args));
      }
    }
  }

  /** An argument with a NUL byte comes back as two, and a single empty argument as none. */
  lemma NulSplitsArgument(a: byte, b: byte)
    requires a != 0 && b != 0
    ensures DecodePayload(Join([[a, 0, b]])) == [[a], [b]]
    ensures DecodePayload(Join([[]])) == []
  {
    PayloadRoundTripIff([[a], [b]]);
    assert Join([[b]]) == [b];
    assert Join([[a], [b]]) == [a] + [0] + [b] == [a, 0, b];
    assert [[a], [b]][1..] == [[b]];
  }
}
