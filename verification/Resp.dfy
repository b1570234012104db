/** RESP values: printing, parsing with any trailing input, and a reader that consumes its input. */
module Resp {
  import opened Options
  import opened EntryFormat
  import opened Decimal

  type Text = seq<byte>

  const CR: byte := 13
  const LF: byte := 10
  const STAR: byte := 42
  const DOLLAR: byte := 36
  const COLON: byte := 58
  const CRLF: Text := [CR, LF]

  datatype Value = Int(n: int64) | Bulk(s: Text) | Arr(items: seq<Value>) | Nil

  function Line(prefix: byte, n: int): Text {
    [prefix] + Format(n) + CRLF
  }

  /** FormatBulkString. */
  function PrintBulk(s: Text): Text {
    Line(DOLLAR, |s|) + s + CRLF
  }

  function Print(v: Value): Text
    decreases v, 0
  {
    match v
    case Int(n) => Line(COLON, n)
    case Bulk(s) => PrintBulk(s)
    case Arr(items) => Line(STAR, |items|) + PrintAll(items)
    case Nil => Line(DOLLAR, -1)
  }

  function PrintAll(vs: seq<Value>): Text
    decreases vs, 1
  {
    if vs == [] then [] else Print(vs[0]) + PrintAll(vs[1..])
  }

  method FormatIntRESP(buf: Text, n: int64) returns (r: Text)
    ensures r == buf + Print(Int(n))
  {
    r := AppendInt(buf + [COLON], n);
    r := r + CRLF;
  }

  method FormatArrayLen(buf: Text, length: int64) returns (r: Text)
    ensures r == buf + Line(STAR, length)
  {
    r := AppendInt(buf + [STAR], length);
    r := r + CRLF;
  }

  method FormatBulkString(buf: Text, s: Text) returns (r: Text)
    requires |s| < 0x8000_0000_0000_0000
    ensures r == buf + PrintBulk(s)
  {
    r := AppendInt(buf + [DOLLAR], |s|);
    r := r + CRLF + s + CRLF;
  }

  // ---------------------------------------------------------------------------
  // Parsing

  /** The input up to and including the first line feed, and the rest. */
  function Cut(input: Text): (r: Option<(Text, Text)>)
    ensures r.Some? ==> |r.value.0| > 0 && r.value.0 + r.value.1 == input && r.value.0[|r.value.0| - 1] == LF
    ensures r.Some? <==> LF in input
  {
    if input == [] then None
    else if input[0] == LF then Some((input[..1], input[1..]))
    else match Cut(input[1..])
      case None => None
      case Some((line, rest)) => Some(([input[0]] + line, rest))
  }

  /** A line without its CR LF; None if the input ends early or the line ends otherwise. */
  function ReadLine(input: Text): (r: Option<(Text, Text)>)
    ensures r.Some? ==> |r.value.1| < |input|
  {
    match Cut(input)
    case None => None
    case Some((line, rest)) =>
      if |line| >= 2 && line[|line| - 2] == CR then Some((line[..|line| - 2], rest)) else None
  }

  function Parse(input: Text): (r: Option<(Value, Text)>)
    ensures r.Some? ==> |r.value.1| < |input|
    decreases |input|, 0
  {
    if input == [] then None
    else match ReadLine(input[1..])
      case None => None
      case Some((line, rest)) =>
        if input[0] == STAR then
          match ParseInt64(line)
          case None => None
          case Some(count) =>
            if count == -1 then Some((Nil, rest))
            else if count < -1 then None
            else match ParseItems(rest, count)
              case None => None
              case Some((items, tail)) => Some((Arr(items), tail))
        else if input[0] == COLON then
          match ParseInt64(line)
          case None => None
          case Some(n) => Some((Int(n), rest))
        else if input[0] == DOLLAR then
          match ParseInt64(line)
          case None => None
          case Some(length) =>
            if length == -1 then Some((Nil, rest))
            else if length < -1 || |rest| < length + 2 || rest[length..length + 2] != CRLF then None
            else Some((Bulk(rest[..length]), rest[length + 2..]))
        else if input[0] == PLUS then Some((Bulk(line), rest))
        else None
  }

  function ParseItems(input: Text, count: nat): (r: Option<(seq<Value>, Text)>)
    ensures r.Some? ==> |r.value.0| == count && |r.value.1| <= |input|
    decreases |input|, count + 1
  {
    if count == 0 then Some(([], input))
    else match Parse(input)
      case None => None
      case Some((v, rest)) =>
        match ParseItems(rest, count - 1)
        case None => None
        case Some((vs, tail)) => Some(([v] + vs, tail))
  }

  lemma ParseNoItems(input: Text)
    ensures ParseItems(input, 0) == Some(([], input))
  {
  }

  lemma ParseItemsStep(input: Text, count: nat)
    requires count > 0
    ensures ParseItems(input, count) ==
            match Parse(input) {
              case None => None
              case Some((v, rest)) =>
                match ParseItems(rest, count - 1) { case None => None case Some((vs, tail)) => Some(([v] + vs, tail)) }
            }
  {
    hide Parse;
  }

  // ---------------------------------------------------------------------------
  // Parsing undoes printing

  lemma {:induction false} CutLine(s: Text, rest: Text)
    requires LF !in s
    ensures Cut(s + [LF] + rest) == Some((s + [LF], rest))
  {
    var input := s + [LF] + rest;
    if s == [] {
      assert input[..1] == [LF] && input[1..] == rest;
    } else {
      assert input[1..] == s[1..] + [LF] + rest;
      CutLine(s[1..], rest);
      assert [s[0]] + (s[1..] + [LF]) == s + [LF];
    }
  }

  lemma ReadPrintedLine(s: Text, rest: Text)
    requires LF !in s
    ensures ReadLine(s + CRLF + rest) == Some((s, rest))
  {
    assert s + CRLF + rest == (s + [CR]) + [LF] + rest;
    CutLine(s + [CR], rest);
    assert (s + [CR] + [LF])[..|s|] == s;
  }

  lemma FormatHasNoLineFeed(n: int)
    ensures LF !in Format(n)
  {
    var digits := Digits(if n < 0 then -n else n);
    DigitsValue(if n < 0 then -n else n);
    assert forall b | b in digits :: IsDigit(b);
  }

  /** A printed length or integer line is read back. */
  lemma ReadNumberLine(prefix: byte, n: int64, rest: Text)
    ensures var input := Line(prefix, n) + rest;
            input[0] == prefix && ReadLine(input[1..]) == Some((Format(n), rest)) && ParseInt64(Format(n)) == Some(n)
  {
    var input := Line(prefix, n) + rest;
    assert input[1..] == Format(n) + CRLF + rest;
    FormatHasNoLineFeed(n);
    ReadPrintedLine(Format(n), rest);
    ParseFormat(n);
  }

  /** Lengths fit the machine's integers. */
  predicate Representable(v: Value) {
    match v
    case Int(_) => true
    case Bulk(s) => |s| < 0x8000_0000_0000_0000
    case Arr(items) => |items| < 0x8000_0000_0000_0000 && forall i | 0 <= i < |items| :: Representable(items[i])
    case Nil => true
  }

  lemma ParsePrintedBulk(s: Text, tail: Text)
    requires |s| < 0x8000_0000_0000_0000
    ensures Parse(PrintBulk(s) + tail) == Some((Bulk(s), tail))
  {
    hide Format, ParseInt64, ReadLine, ParseItems;
    var rest := s + CRLF + tail;
    assert PrintBulk(s) + tail == Line(DOLLAR, |s|) + rest;
    ReadNumberLine(DOLLAR, |s|, rest);
    assert rest[..|s|] == s && rest[|s|..|s| + 2] == CRLF && rest[|s| + 2..] == tail;
  }

  /** Parsing printed nested values gives them back, with the exact remainder of the input. */
  lemma {:induction false} ParsePrint(v: Value, tail: Text)
    requires Representable(v)
    ensures Parse(Print(v) + tail) == Some((v, tail))
    decreases v, 0
  {
    hide Format, ParseInt64, ReadLine;
    match v
    case Int(n) => ReadNumberLine(COLON, n, tail);
    case Bulk(s) => ParsePrintedBulk(s, tail);
    case Nil => ReadNumberLine(DOLLAR, -1, tail);
    case Arr(items) =>
      assert Print(v) + tail == Line(STAR, |items|) + (PrintAll(items) + tail);
      ReadNumberLine(STAR, |items|, PrintAll(items) + tail);
      ParsePrintAll(items, tail);
  }

  lemma {:induction false} ParsePrintAll(vs: seq<Value>, tail: Text)
    requires forall i | 0 <= i < |vs| :: Representable(vs[i])
    ensures ParseItems(PrintAll(vs) + tail, |vs|) == Some((vs, tail))
    decreases vs, 1
  {
    hide Parse;
    if vs == [] {
      assert PrintAll(vs) + tail == tail;
    } else {
      assert PrintAll(vs) + tail == Print(vs[0]) + (PrintAll(vs[1..]) + tail);
      ParsePrint(vs[0], PrintAll(vs[1..]) + tail);
      ParsePrintAll(vs[1..], tail);
      assert [vs[0]] + vs[1..] == vs;
    }
  }

  // ---------------------------------------------------------------------------
  // What is parsed, exactly: the grammar

  /** A prefix, a line, and what follows the line. */
  predicate Opens(text: Text, prefix: byte, line: Text, body: Text) {
    LF !in line && text == [prefix] + line + CRLF + body
  }

  predicate Says(line: Text, n: int) { ParseInt64(line).Some? && ParseInt64(line).value == n }

  /** The texts of a value: a string may also be written as a simple string, and Nil as an array of length -1. */
  ghost predicate Spells(v: Value, text: Text)
    decreases v, 0
  {
    match v
    case Int(n) => exists line :: Opens(text, COLON, line, []) && Says(line, n)
    case Nil => exists line :: (Opens(text, STAR, line, []) || Opens(text, DOLLAR, line, [])) && Says(line, -1)
    case Bulk(s) => Opens(text, PLUS, s, []) || exists line :: Opens(text, DOLLAR, line, s + CRLF) && Says(line, |s|)
    case Arr(items) =>
      exists line, body :: Opens(text, STAR, line, body) && Says(line, |items|) && SpellsAll(items, body)
  }

  ghost predicate SpellsAll(vs: seq<Value>, text: Text)
    decreases vs, 1
  {
    if vs == [] then text == []
    else exists first :: first <= text && Spells(vs[0], first) && SpellsAll(vs[1..], text[|first|..])
  }

  lemma {:induction false} CutIsFirst(input: Text)
    requires Cut(input).Some?
    ensures var line := Cut(input).value.0;
            LF !in line[..|line| - 1]
  {
    if input[0] != LF {
      CutIsFirst(input[1..]);
      var line := Cut(input[1..]).value.0;
      assert ([input[0]] + line)[..|line|] == [input[0]] + line[..|line| - 1];
    }
  }

  lemma ReadLineExact(input: Text)
    requires ReadLine(input).Some?
    ensures var (line, rest) := ReadLine(input).value;
            LF !in line && input == line + CRLF + rest
  {
    CutIsFirst(input);
    var whole := Cut(input).value.0;
    var n := |whole| - 2;
    assert whole[..n + 1] == whole[..n] + [CR];
    assert whole == whole[..n] + CRLF;
  }

  /** A text from its parts. */
  function Opening(prefix: byte, line: Text, body: Text): Text { [prefix] + line + CRLF + body }

  lemma SpellsLine(prefix: byte, line: Text, v: Value)
    requires LF !in line
    requires (prefix == COLON && v.Int? && Says(line, v.n)) || (prefix == PLUS && v == Bulk(line))
             || ((prefix == STAR || prefix == DOLLAR) && v == Nil && Says(line, -1))
    ensures Spells(v, Opening(prefix, line, []))
  {
    hide ParseInt64;
    assert Opens(Opening(prefix, line, []), prefix, line, []);
  }

  lemma SpellsBulk(line: Text, s: Text)
    requires LF !in line && Says(line, |s|)
    ensures Spells(Bulk(s), Opening(DOLLAR, line, s + CRLF))
  {
    hide ParseInt64;
    assert Opens(Opening(DOLLAR, line, s + CRLF), DOLLAR, line, s + CRLF);
  }

  lemma SpellsArray(line: Text, items: seq<Value>, body: Text)
    requires LF !in line && Says(line, |items|) && SpellsAll(items, body)
    ensures Spells(Arr(items), Opening(STAR, line, body))
  {
    hide ParseInt64;
    assert Opens(Opening(STAR, line, body), STAR, line, body);
  }

  lemma SpellsCons(v: Value, vs: seq<Value>, first: Text, others: Text)
    requires Spells(v, first) && SpellsAll(vs, others)
    ensures SpellsAll([v] + vs, first + others)
  {
    hide Spells;
    var all, text := [v] + vs, first + others;
    assert all[1..] == vs && first <= text && text[|first|..] == others;
  }

  lemma SpellsSplit(vs: seq<Value>, text: Text) returns (first: Text, others: Text)
    requires SpellsAll(vs, text) && vs != []
    ensures text == first + others && Spells(vs[0], first) && SpellsAll(vs[1..], others)
  {
    hide Spells;
    first :| first <= text && Spells(vs[0], first) && SpellsAll(vs[1..], text[|first|..]);
    others := text[|first|..];
  }

  lemma SpellsNothing(text: Text)
    ensures SpellsAll([], text) <==> text == []
  {
  }

  lemma OpeningRest(prefix: byte, line: Text, body: Text, rest: Text)
    ensures Opening(prefix, line, body) + rest == Opening(prefix, line, body + rest)
  {
  }

  lemma ParsedBulk(rest: Text, length: nat)
    requires length + 2 <= |rest| && rest[length..length + 2] == CRLF
    ensures rest == rest[..length] + CRLF + rest[length + 2..]
  {
    assert rest == rest[..length] + rest[length..length + 2] + rest[length + 2..];
  }

  /** What is parsed is a text of the value, followed by the rest. */
  lemma {:induction false} ParseSound(input: Text) returns (text: Text)
    requires Parse(input).Some?
    ensures Spells(Parse(input).value.0, text) && input == text + Parse(input).value.1
    decreases |input|, 0
  {
    hide ParseInt64, ReadLine, Spells, Opening;
    ReadLineExact(input[1..]);
    var (line, after) := ReadLine(input[1..]).value;
    var prefix := input[0];
    OpeningIs(input, line, after);
    var (v, rest) := Parse(input).value;
    if v.Arr? {
      var body := ItemsSound(after, |v.items|);
      SpellsArray(line, v.items, body);
      OpeningRest(STAR, line, body, rest);
      text := Opening(STAR, line, body);
    } else if prefix == DOLLAR && v.Bulk? {
      ParsedBulk(after, |v.s|);
      SpellsBulk(line, v.s);
      OpeningRest(DOLLAR, line, v.s + CRLF, rest);
      text := Opening(DOLLAR, line, v.s + CRLF);
    } else {
      SpellsLine(prefix, line, v);
      OpeningRest(prefix, line, [], rest);
      assert [] + rest == rest;
      text := Opening(prefix, line, []);
    }
  }

  lemma OpeningIs(input: Text, line: Text, after: Text)
    requires input != [] && input[1..] == line + CRLF + after
    ensures input == Opening(input[0], line, after)
  {
    assert input == [input[0]] + input[1..];
  }

  lemma {:induction false} ItemsSound(input: Text, count: nat) returns (text: Text)
    requires ParseItems(input, count).Some?
    ensures SpellsAll(ParseItems(input, count).value.0, text) && input == text + ParseItems(input, count).value.1
    decreases |input|, count + 1
  {
    hide Parse, ParseItems, Spells, SpellsAll;
    if count == 0 {
      ParseNoItems(input);
      SpellsNothing([]);
      text := [];
    } else {
      ParseItemsStep(input, count);
      var (v, rest) := Parse(input).value;
      var (vs, tail) := ParseItems(rest, count - 1).value;
      var first := ParseSound(input);
      var others := ItemsSound(rest, count - 1);
      SpellsCons(v, vs, first, others);
      text := first + others;
      assert first + (others + tail) == text + tail;
    }
  }

  lemma OpensReads(text: Text, prefix: byte, line: Text, body: Text, tail: Text)
    requires Opens(text, prefix, line, body)
    ensures var input := text + tail;
            input != [] && input[0] == prefix && ReadLine(input[1..]) == Some((line, body + tail))
  {
    var input := text + tail;
    assert input[1..] == line + CRLF + (body + tail);
    ReadPrintedLine(line, body + tail);
  }

  lemma ArrayParsed(text: Text, line: Text, body: Text, items: seq<Value>, tail: Text)
    requires Opens(text, STAR, line, body) && Says(line, |items|)
    requires ParseItems(body + tail, |items|) == Some((items, tail))
    ensures Parse(text + tail) == Some((Arr(items), tail))
  {
    OpensReads(text, STAR, line, body, tail);
    hide ParseInt64, ReadLine, ParseItems, Opens;
  }

  /** Every text of a value is parsed as that value, whatever follows it. */
  lemma {:induction false} ParseComplete(v: Value, text: Text, tail: Text)
    requires Spells(v, text)
    ensures Parse(text + tail) == Some((v, tail))
    decreases v, 0
  {
    hide ParseInt64, ReadLine;
    assert [] + tail == tail;
    match v {
      case Int(n) =>
        var line :| Opens(text, COLON, line, []) && Says(line, n);
        OpensReads(text, COLON, line, [], tail);
      case Nil =>
        var line :| (Opens(text, STAR, line, []) || Opens(text, DOLLAR, line, [])) && Says(line, -1);
        OpensReads(text, if Opens(text, STAR, line, []) then STAR else DOLLAR, line, [], tail);
      case Bulk(s) =>
        if Opens(text, PLUS, s, []) {
          OpensReads(text, PLUS, s, [], tail);
        } else {
          var line :| Opens(text, DOLLAR, line, s + CRLF) && Says(line, |s|);
          OpensReads(text, DOLLAR, line, s + CRLF, tail);
          var rest := s + CRLF + tail;
          assert rest[..|s|] == s && rest[|s|..|s| + 2] == CRLF && rest[|s| + 2..] == tail;
        }
      case Arr(items) =>
        var line, body :| Opens(text, STAR, line, body) && Says(line, |items|) && SpellsAll(items, body);
        ItemsComplete(items, body, tail);
        ArrayParsed(text, line, body, items, tail);
    }
  }

  lemma {:induction false} ItemsComplete(vs: seq<Value>, text: Text, tail: Text)
    requires SpellsAll(vs, text)
    ensures ParseItems(text + tail, |vs|) == Some((vs, tail))
    decreases vs, 1
  {
    hide Parse, ParseItems, Spells, SpellsAll;
    if vs == [] {
      SpellsNothing(text);
      ParseNoItems(tail);
      assert text + tail == tail;
    } else {
      var first, others := SpellsSplit(vs, text);
      assert text + tail == first + (others + tail);
      ParseComplete(vs[0], first, others + tail);
      ItemsComplete(vs[1..], others, tail);
      ParseItemsStep(text + tail, |vs|);
      assert [vs[0]] + vs[1..] == vs;
    }
  }

  /** The parser accepts an input exactly if it begins with a text of some value, and gives that value and the rest. */
  lemma ParseIff(input: Text, v: Value, rest: Text)
    ensures Parse(input) == Some((v, rest)) <==> exists text :: Spells(v, text) && input == text + rest
  {
    hide Parse, Spells;
    if Parse(input) == Some((v, rest)) {
      var text := ParseSound(input);
    }
    if text :| Spells(v, text) && input == text + rest {
      ParseComplete(v, text, rest);
    }
  }
}

/** A buffered reader that consumes its input, and the recursive-descent parser over it. */
module RespReader {
  import opened Options
  import opened EntryFormat
  import opened Decimal
  import opened Resp

  class Reader {
    var rest: Text

    constructor (input: Text)
      ensures rest == input
    {
      rest := input;
    }

    /** A line without its CR LF; on failure the reader is left anywhere further on. */
    method ReadRESPLine() returns (r: Option<Text>)
      modifies this
      ensures match ReadLine(old(rest))
              case None => r == None
              case Some((line, tail)) => r == Some(line) && rest == tail
      ensures |rest| <= |old(rest)|
    {
      var i := 0;
      while i < |rest| && rest[i] != LF
        invariant i <= |rest| && LF !in rest[..i]
      {
        i := i + 1;
      }
      if i == |rest| {
        assert rest[..i] == rest;
        rest := [];
        return None;
      }
      CutLine(rest[..i], rest[i + 1..]);
      assert rest == rest[..i] + [LF] + rest[i + 1..];
      var line := rest[..i + 1];
      assert line == rest[..i] + [LF];
      rest := rest[i + 1..];
      if |line| < 2 || line[|line| - 2] != CR {
        return None;
      }
      return Some(line[..|line| - 2]);
    }

    method ParseRESP() returns (r: Option<Value>)
      modifies this
      ensures match Parse(old(rest))
              case None => r == None
              case Some((v, tail)) => r == Some(v) && rest == tail
      ensures |rest| <= |old(rest)|
      decreases |rest|, 0
    {
      hide ReadLine, ParseInt64;
      if rest == [] {
        return None;
      }
      var prefix := rest[0];
      rest := rest[1..];
      if prefix != STAR && prefix != COLON && prefix != DOLLAR && prefix != PLUS {
        return None;
      }
      var line := ReadRESPLine();
      if line.None? {
        return None;
      }
      if prefix == PLUS {
        return Some(Bulk(line.value));
      }
      var n := ParseInt64(line.value);
      if n.None? {
        return None;
      }
      if prefix == COLON {
        return Some(Int(n.value));
      }
      if n.value == -1 {
        return Some(Nil);
      }
      if n.value < -1 {
        return None;
      }
      if prefix == STAR {
        r := ParseArray(n.value);
      } else {
        var length := n.value;
        if |rest| < length + 2 {
          rest := [];
          return None;
        }
        var body := rest[..length + 2];
        assert body[..length] == rest[..length] && rest[length..length + 2] == [body[length], body[length + 1]];
        rest := rest[length + 2..];
        if body[length] != CR || body[length + 1] != LF {
          return None;
        }
        return Some(Bulk(body[..length]));
      }
    }

    /** The items of an array, one after the other. */
    method ParseArray(count: nat) returns (r: Option<Value>)
      modifies this
      ensures match ParseItems(old(rest), count)
              case None => r == None
              case Some((items, tail)) => r == Some(Arr(items)) && rest == tail
      ensures |rest| <= |old(rest)|
      decreases |rest|, count + 1
    {
      hide Parse, ParseItems;
      var items: seq<Value> := [];
      ghost var start := rest;
      ghost var whole := ParseItems(start, count);
      assert whole.Some? ==> [] + whole.value.0 == whole.value.0;
      while |items| < count
        invariant |items| <= count && |rest| <= |start|
        invariant |items| > 0 ==> |rest| < |start|
        invariant ParseItems(start, count) ==
                  match ParseItems(rest, count - |items|) {
                    case None => None
                    case Some((vs, tail)) => Some((items + vs, tail))
                  }
      {
        ghost var before := rest;
        ghost var done := items;
        ParseItemsStep(rest, count - |items|);
        var v := ParseRESP();
        if v.None? {
          return None;
        }
        items := items + [v.value];
        ghost var remaining := ParseItems(rest, count - |items|);
        assert remaining.Some? ==> done + ([v.value] + remaining.value.0) == items + remaining.value.0;
      }
      ParseNoItems(rest);
      assert ParseItems(start, count) == Some((items + [], rest));
      assert items + [] == items;
      return Some(Arr(items));
    }
  }
}
