/** Writing a string as TOML and reading it back as the TOML v1.0.0 specification says, section "String". */
module Toml {
  // ----- writing -----

  /** The nth lower-case hexadecimal digit. */
  function Hex(n: int): char
    requires 0 <= n < 16
  {
    "0123456789abcdef"[n]
  }

  function QuotedChar(c: char): string {
    var code := c as int;
    if c == '"' then "\\\""
    else if c == '\\' then "\\\\"
    else if c == '\n' then "\\n"
    else if c == '\t' then "\\t"
    else if c == '\r' then "\\r"
    else if code < 0x20 || code == 0x7f then "\\u00" + [Hex(code / 16), Hex(code % 16)]
    else [c]
  }

  function QuotedChars(s: string): string {
    if s == "" then "" else QuotedChar(s[0]) + QuotedChars(s[1..])
  }

  function Quote(s: string): string {
    "\"" + QuotedChars(s) + "\""
  }

  // ----- reading -----

  datatype Read<T> = Malformed | Done(value: T, rest: string)

  function HexValue(c: char): int
    ensures -1 <= HexValue(c) < 16
  {
    if '0' <= c <= '9' then c as int - '0' as int
    else if 'a' <= c <= 'f' then c as int - 'a' as int + 10
    else if 'A' <= c <= 'F' then c as int - 'A' as int + 10
    else -1
  }

  /** The number `digits` hexadecimal digits denote, or -1. */
  function HexNumber(s: string, digits: nat): int
    ensures HexNumber(s, digits) >= -1
  {
    if digits == 0 then 0
    else if |s| < digits || HexValue(s[digits - 1]) < 0 || HexNumber(s, digits - 1) < 0 then -1
    else 16 * HexNumber(s, digits - 1) + HexValue(s[digits - 1])
  }

  predicate IsScalar(code: int) {
    0 <= code < 0xD800 || 0xE000 <= code < 0x11_0000
  }

  function ReadCode(s: string, digits: nat): (r: Read<char>)
    ensures r.Done? ==> |r.rest| <= |s|
  {
    var code := HexNumber(s, digits);
    if !IsScalar(code) || |s| < digits then Malformed else Done(code as char, s[digits..])
  }

  /** What follows a backslash. */
  function ReadEscape(s: string): (r: Read<char>)
    ensures r.Done? ==> |r.rest| < |s|
  {
    if s == "" then Malformed
    else if s[0] == '"' || s[0] == '\\' then Done(s[0], s[1..])
    else if s[0] == 'b' then Done(8 as char, s[1..])
    else if s[0] == 't' then Done('\t', s[1..])
    else if s[0] == 'n' then Done('\n', s[1..])
    else if s[0] == 'f' then Done(12 as char, s[1..])
    else if s[0] == 'r' then Done('\r', s[1..])
    else if s[0] == 'u' then ReadCode(s[1..], 4)
    else if s[0] == 'U' then ReadCode(s[1..], 8)
    else Malformed
  }

  /** Any Unicode character except those that must be escaped: quotation mark, backslash, and the control
      characters other than tab. */
  predicate IsUnescaped(c: char) {
    c != '"' && c != '\\' && (c == '\t' || 0x20 <= c as int != 0x7f)
  }

  /** The rest of a basic string, its opening quotation mark having been read. */
  function ReadChars(s: string): Read<string>
    decreases |s|
  {
    if s == "" then Malformed
    else if s[0] == '"' then Done("", s[1..])
    else if s[0] == '\\' then
      match ReadEscape(s[1..])
      case Malformed => Malformed
      case Done(c, rest) => Prefixed(c, ReadChars(rest))
    else if IsUnescaped(s[0]) then Prefixed(s[0], ReadChars(s[1..]))
    else Malformed
  }

  function Prefixed(c: char, r: Read<string>): Read<string> {
    match r
    case Malformed => Malformed
    case Done(value, rest) => Done([c] + value, rest)
  }

  function ReadBasicString(s: string): Read<string> {
    if s != "" && s[0] == '"' then ReadChars(s[1..]) else Malformed
  }

  lemma HexRoundTrip(n: int)
    requires 0 <= n < 16
    ensures HexValue(Hex(n)) == n
  {
  }

  lemma ReadsControl(c: char, t: string)
    requires c as int < 0x20 || c as int == 0x7f
    ensures ReadCode("00" + [Hex(c as int / 16), Hex(c as int % 16)] + t, 4) == Done(c, t)
  {
    var code := c as int;
    var s := "00" + [Hex(code / 16), Hex(code % 16)] + t;
    HexRoundTrip(code / 16);
    HexRoundTrip(code % 16);
    assert s[0] == '0' && s[1] == '0' && s[2] == Hex(code / 16) && s[3] == Hex(code % 16);
    assert HexNumber(s, 0) == 0 && HexNumber(s, 1) == 0 && HexNumber(s, 2) == 0;
    assert HexNumber(s, 3) == code / 16 && HexNumber(s, 4) == code;
    assert s[4..] == t;
  }

  lemma ReadsQuotedChar(c: char, t: string)
    ensures ReadChars(QuotedChar(c) + t) == Prefixed(c, ReadChars(t))
  {
    var code, s := c as int, QuotedChar(c) + t;
    if c == '"' || c == '\\' || c == '\n' || c == '\t' || c == '\r' {
      assert s[1..][1..] == t;
    } else if code < 0x20 || code == 0x7f {
      ReadsControl(c, t);
      assert s[1..][1..] == "00" + [Hex(code / 16), Hex(code % 16)] + t;
    } else {
      assert s[1..] == t;
    }
  }

  lemma {:induction false} ReadsQuotedChars(s: string, t: string)
    ensures ReadChars(QuotedChars(s) + "\"" + t) == Done(s, t)
  {
    var end := "\"" + t;
    if s == "" {
      assert QuotedChars(s) + "\"" + t == end && end[1..] == t;
    } else {
      var rest := QuotedChars(s[1..]) + "\"" + t;
      assert QuotedChars(s) + "\"" + t == QuotedChar(s[0]) + rest;
      ReadsQuotedChar(s[0], rest);
      ReadsQuotedChars(s[1..], t);
      assert s == [s[0]] + s[1..];
    }
  }

  /** Reading undoes quoting, for every string and whatever follows. */
  lemma ReadingUndoesQuoting(s: string, t: string)
    ensures ReadBasicString(Quote(s) + t) == Done(s, t)
  {
    ReadsQuotedChars(s, t);
    assert (Quote(s) + t)[1..] == QuotedChars(s) + "\"" + t;
  }

  // ----- the program's strings -----

  /** A UTF-16 code unit. */
  newtype Unit = x: int | 0 <= x < 0x1_0000

  function UnitsOfChar(c: char): seq<Unit> {
    var code := c as int;
    if code < 0x1_0000 then [code as Unit]
    else [(0xD800 + (code - 0x1_0000) / 0x400) as Unit, (0xDC00 + (code - 0x1_0000) % 0x400) as Unit]
  }

  function Units(s: string): seq<Unit> {
    if s == "" then [] else UnitsOfChar(s[0]) + Units(s[1..])
  }

  function QuotedUnit(u: Unit): seq<Unit> {
    if u < 0x80 then Units(QuotedChar(u as int as char)) else [u]
  }

  function FlatMap<S, T>(f: S -> seq<T>, s: seq<S>): seq<T> {
    if s == [] then [] else FlatMap(f, s[..|s| - 1]) + f(s[|s| - 1])
  }

  function QuotedUnits(us: seq<Unit>): seq<Unit> {
    FlatMap(QuotedUnit, us)
  }

  lemma {:induction false} UnitsConcat(a: string, b: string)
    ensures Units(a + b) == Units(a) + Units(b)
  {
    if a == "" {
      assert a + b == b;
    } else {
      assert (a + b)[1..] == a[1..] + b;
      UnitsConcat(a[1..], b);
    }
  }

  lemma {:induction false} FlatMapConcat<S, T>(f: S -> seq<T>, a: seq<S>, b: seq<S>)
    ensures FlatMap(f, a + b) == FlatMap(f, a) + FlatMap(f, b)
    decreases |b|
  {
    if b == [] {
      assert a + b == a;
    } else {
      assert (a + b)[..|a + b| - 1] == a + b[..|b| - 1];
      FlatMapConcat(f, a, b[..|b| - 1]);
    }
  }

  lemma OneMore<S, T>(f: S -> seq<T>, s: seq<S>, x: S)
    ensures FlatMap(f, s + [x]) == FlatMap(f, s) + f(x)
  {
    assert (s + [x])[..|s + [x]| - 1] == s;
  }

  lemma QuotesChar(c: char)
    ensures QuotedUnits(UnitsOfChar(c)) == Units(QuotedChar(c))
  {
    var us := UnitsOfChar(c);
    if us[0] >= 0x80 {
      assert QuotedChar(c) == [c] && [c][1..] == "" && Units([c]) == us;
      if |us| == 2 {
        assert us == [us[0]] + [us[1]];
        OneMore(QuotedUnit, [us[0]], us[1]);
      }
    }
    assert [] + [us[0]] == [us[0]];
    OneMore(QuotedUnit, [], us[0]);
  }

  /** Quoting code unit by code unit is quoting character by character: no part of a character outside the
      basic plane is ever escaped. */
  lemma {:induction false} QuotingUnitsIsQuoting(s: string)
    ensures QuotedUnits(Units(s)) == Units(QuotedChars(s))
  {
    if s != "" {
      QuotingUnitsIsQuoting(s[1..]);
      FlatMapConcat(QuotedUnit, UnitsOfChar(s[0]), Units(s[1..]));
      QuotesChar(s[0]);
      UnitsConcat(QuotedChar(s[0]), QuotedChars(s[1..]));
    }
  }

  lemma UnitCases(u: Unit)
    ensures u == '"' as int as Unit ==> QuotedUnit(u) == Units("\\\"")
    ensures u == '\\' as int as Unit ==> QuotedUnit(u) == Units("\\\\")
    ensures u == '\n' as int as Unit ==> QuotedUnit(u) == Units("\\n")
    ensures u == '\t' as int as Unit ==> QuotedUnit(u) == Units("\\t")
    ensures u == '\r' as int as Unit ==> QuotedUnit(u) == Units("\\r")
    ensures IsControl(u) ==> QuotedUnit(u) == Units("\\u00" + [Hex(u as int / 16), Hex(u as int % 16)])
    ensures u >= 0x20 && u != 0x7f && u != '"' as int as Unit && u != '\\' as int as Unit ==> QuotedUnit(u) == [u]
  {
    PlainUnit(u);
  }

  predicate IsControl(u: Unit) {
    (u < 0x20 && u != 9 && u != 10 && u != 13) || u == 0x7f
  }

  lemma QuotesOneMore(text: seq<Unit>, i: nat)
    requires i < |text|
    ensures QuotedUnits(text[..i + 1]) == QuotedUnits(text[..i]) + QuotedUnit(text[i])
  {
    assert text[..i + 1] == text[..i] + [text[i]];
    OneMore(QuotedUnit, text[..i], text[i]);
  }

  method QuoteUnit(code: Unit) returns (piece: seq<Unit>)
    ensures piece == QuotedUnit(code)
  {
    UnitCases(code);
    if code == '"' as int as Unit {
      piece := Units("\\\"");
    } else if code == '\\' as int as Unit {
      piece := Units("\\\\");
    } else if code == '\n' as int as Unit {
      piece := Units("\\n");
    } else if code == '\t' as int as Unit {
      piece := Units("\\t");
    } else if code == '\r' as int as Unit {
      piece := Units("\\r");
    } else if code < 0x20 || code == 0x7f {
      piece := Units("\\u00" + [Hex(code as int / 16), Hex(code as int % 16)]);
    } else {
      piece := [code];
    }
  }

  method QuoteString(text: seq<Unit>) returns (quoted: seq<Unit>)
    ensures quoted == ['"' as int as Unit] + QuotedUnits(text) + ['"' as int as Unit]
  {
    quoted := ['"' as int as Unit];
    for i := 0 to |text|
      invariant quoted == ['"' as int as Unit] + QuotedUnits(text[..i])
    {
      var piece := QuoteUnit(text[i]);
      QuotesOneMore(text, i);
      quoted := quoted + piece;
    }
    assert text[..|text|] == text;
    quoted := quoted + ['"' as int as Unit];
  }

  /** What the loop writes for a string is the quoted string. */
  lemma QuotedUnitsAreQuote(s: string)
    ensures ['"' as int as Unit] + QuotedUnits(Units(s)) + ['"' as int as Unit] == Units(Quote(s))
  {
    QuotingUnitsIsQuoting(s);
    UnitsConcat("\"", QuotedChars(s));
    UnitsConcat("\"" + QuotedChars(s), "\"");
    PlainUnit('"' as int as Unit);
  }

  lemma PlainUnit(u: Unit)
    ensures u < 0x80 ==> Units([u as int as char]) == [u]
  {
    if u < 0x80 {
      assert [u as int as char][1..] == "";
    }
  }
}
