/** The content of the state file: the document that holds the last location, and how it reads. */
module State {
  import opened Toml
  import opened Wrappers

  datatype Value = Integer(number: int) | Text(text: string)

  /** Values by section and key. */
  type Document = map<(string, string), Value>

  // ----- reading a document of bare keys, tables, integers and basic strings -----

  predicate IsBare(c: char) {
    'a' <= c <= 'z' || 'A' <= c <= 'Z' || '0' <= c <= '9' || c == '_' || c == '-'
  }

  /** The length of the longest prefix of bare-key characters. */
  function BareLength(s: string): (n: nat)
    ensures n <= |s|
  {
    if s != "" && IsBare(s[0]) then 1 + BareLength(s[1..]) else 0
  }

  function SkipBlanks(s: string): (t: string)
    ensures |t| <= |s|
  {
    if s != "" && (s[0] == ' ' || s[0] == '\t') then SkipBlanks(s[1..]) else s
  }

  function EndOfLine(s: string): (r: Read<()>)
    ensures r.Done? ==> |r.rest| <= |s|
  {
    var t := SkipBlanks(s);
    if t == "" then Done((), "") else if t[0] == '\n' then Done((), t[1..]) else Malformed
  }

  function DigitLength(s: string): (n: nat)
    ensures n <= |s|
  {
    if s != "" && '0' <= s[0] <= '9' then 1 + DigitLength(s[1..]) else 0
  }

  function Number(digits: string): int {
    if digits == "" then 0 else 10 * Number(digits[..|digits| - 1]) + (digits[|digits| - 1] as int - '0' as int)
  }

  lemma {:induction false} ReadCharsShrinks(s: string)
    ensures ReadChars(s).Done? ==> |ReadChars(s).rest| < |s|
    decreases |s|
  {
    if s != "" && s[0] != '"' {
      if s[0] == '\\' {
        if ReadEscape(s[1..]).Done? {
          ReadCharsShrinks(ReadEscape(s[1..]).rest);
        }
      } else {
        ReadCharsShrinks(s[1..]);
      }
    }
  }

  function ReadValue(s: string): (r: Read<Value>)
    ensures r.Done? ==> |r.rest| < |s|
  {
    if s != "" && s[0] == '"' then
      ReadCharsShrinks(s[1..]);
      match ReadBasicString(s)
      case Malformed => Malformed
      case Done(text, rest) => Done(Text(text), rest)
    else
      var n := DigitLength(s);
      if n == 0 || (n > 1 && s[0] == '0') then Malformed else Done(Integer(Number(s[..n])), s[n..])
  }

  /** A line `[name]`. */
  function ReadTable(s: string): (r: Read<string>)
    ensures r.Done? ==> |r.rest| < |s|
  {
    if s == "" || s[0] != '[' then Malformed
    else
      var n := BareLength(s[1..]);
      if n == 0 || 1 + n == |s| || s[1 + n] != ']' then Malformed
      else
        match EndOfLine(s[2 + n..])
        case Malformed => Malformed
        case Done(_, rest) => Done(s[1..1 + n], rest)
  }

  function ReadEquals(s: string): (r: Read<()>)
    ensures r.Done? ==> |r.rest| < |s|
  {
    var t := SkipBlanks(s);
    if t == "" || t[0] != '=' then Malformed else Done((), SkipBlanks(t[1..]))
  }

  /** A line `key = value`. */
  function ReadPair(s: string): (r: Read<(string, Value)>)
    ensures r.Done? ==> |r.rest| < |s|
  {
    var n := BareLength(s);
    if n == 0 then Malformed
    else
      match ReadEquals(s[n..])
      case Malformed => Malformed
      case Done(_, t) =>
        match ReadValue(t)
        case Malformed => Malformed
        case Done(value, after) =>
          match EndOfLine(after)
          case Malformed => Malformed
          case Done(_, rest) => Done((s[..n], value), rest)
  }

  function ParseFrom(s: string, section: string, document: Document): Option<Document>
    decreases |s|
  {
    if s == "" then Some(document)
    else if s[0] == '\n' then ParseFrom(s[1..], section, document)
    else if s[0] == '[' then
      match ReadTable(s)
      case Malformed => None
      case Done(name, rest) => ParseFrom(rest, name, document)
    else
      match ReadPair(s)
      case Malformed => None
      case Done((key, value), rest) =>
        if (section, key) in document then None else ParseFrom(rest, section, document[(section, key) := value])
  }

  function Parse(s: string): Option<Document> {
    ParseFrom(s, "", map[])
  }

  // ----- the store -----

  const VERSION := 1

  function Content(lastLocation: string): string {
    ContentOf("1", lastLocation)
  }

  /** The file as the given version would write it. */
  function ContentOf(version: string, lastLocation: string): string {
    "version = " + version + "\n\n[navigation]\nlast_location = " + Quote(lastLocation) + "\n"
  }

  /** A decimal number as a document may hold it. */
  predicate IsNumeral(digits: string) {
    && digits != "" && (|digits| > 1 ==> digits[0] != '0')
    && forall i | 0 <= i < |digits| :: '0' <= digits[i] <= '9'
  }

  predicate IsAbsolute(path: string) {
    path != "" && path[0] == '/'
  }

  /** What a file's content says is stored; `clean` tidies a path. */
  function Stored(content: string, clean: string -> string): Option<string> {
    match Parse(content)
    case None => None
    case Some(document) =>
      if ("", "version") !in document || document[("", "version")] != Integer(VERSION) then None
      else if ("navigation", "last_location") !in document then None
      else
        match document[("navigation", "last_location")]
        case Integer(_) => None
        case Text(location) => if IsAbsolute(location) then Some(clean(location)) else None
  }

  lemma {:induction false} BareLengthOf(key: string, rest: string)
    requires forall i | 0 <= i < |key| :: IsBare(key[i])
    requires rest == "" || !IsBare(rest[0])
    ensures BareLength(key + rest) == |key|
  {
    if key == "" {
      assert key + rest == rest;
    } else {
      assert (key + rest)[1..] == key[1..] + rest;
      BareLengthOf(key[1..], rest);
    }
  }

  lemma ReadsEquals(v: string)
    requires v != "" && v[0] != ' ' && v[0] != '\t'
    ensures ReadEquals(" = " + v) == Done((), v)
  {
    var s := " = " + v;
    assert s[1..] == "= " + v && SkipBlanks(s) == SkipBlanks("= " + v) == "= " + v;
    assert ("= " + v)[1..] == " " + v && (" " + v)[1..] == v && SkipBlanks(" " + v) == SkipBlanks(v) == v;
  }

  lemma ReadsPair(key: string, written: string, value: Value, rest: string)
    requires key != "" && forall i | 0 <= i < |key| :: IsBare(key[i])
    requires written != "" && written[0] != ' ' && written[0] != '\t'
    requires ReadValue(written + ("\n" + rest)) == Done(value, "\n" + rest)
    ensures ReadPair(key + (" = " + (written + ("\n" + rest)))) == Done((key, value), rest)
  {
    var v := written + ("\n" + rest);
    var s := key + (" = " + v);
    BareLengthOf(key, " = " + v);
    assert s[..|key|] == key && s[|key|..] == " = " + v;
    ReadsEquals(v);
    assert ("\n" + rest)[1..] == rest;
  }

  lemma ReadsTable(name: string, rest: string)
    requires name != "" && forall i | 0 <= i < |name| :: IsBare(name[i])
    ensures ReadTable("[" + (name + ("]\n" + rest))) == Done(name, rest)
  {
    var after := "]\n" + rest;
    var s := "[" + (name + after);
    assert s[1..] == name + after;
    BareLengthOf(name, after);
    assert s[1..1 + |name|] == name && s[1 + |name|] == ']' && s[2 + |name|..] == "\n" + rest;
    assert ("\n" + rest)[1..] == rest;
  }

  lemma {:induction false} DigitLengthOf(digits: string, rest: string)
    requires forall i | 0 <= i < |digits| :: '0' <= digits[i] <= '9'
    requires rest == "" || !('0' <= rest[0] <= '9')
    ensures DigitLength(digits + rest) == |digits|
  {
    if digits == "" {
      assert digits + rest == rest;
    } else {
      assert (digits + rest)[1..] == digits[1..] + rest;
      DigitLengthOf(digits[1..], rest);
    }
  }

  lemma ReadsNumeral(digits: string, rest: string)
    requires IsNumeral(digits)
    ensures ReadValue(digits + ("\n" + rest)) == Done(Integer(Number(digits)), "\n" + rest)
  {
    var s := digits + ("\n" + rest);
    DigitLengthOf(digits, "\n" + rest);
    assert s[..|digits|] == digits && s[|digits|..] == "\n" + rest && s[0] == digits[0];
  }

  lemma ReadsText(text: string, rest: string)
    ensures ReadValue(Quote(text) + ("\n" + rest)) == Done(Text(text), "\n" + rest)
  {
    ReadingUndoesQuoting(text, "\n" + rest);
  }

  /** The three parts of the file, from its end. */
  lemma ParsesLast(lastLocation: string, document: Document)
    requires ("navigation", "last_location") !in document
    ensures ParseFrom("last_location" + (" = " + (Quote(lastLocation) + ("\n" + ""))), "navigation", document)
      == Some(document[("navigation", "last_location") := Text(lastLocation)])
  {
    var written := Quote(lastLocation);
    var s := "last_location" + (" = " + (written + ("\n" + "")));
    assert written[0] == '"' && s[0] == 'l';
    ReadsText(lastLocation, "");
    ReadsPair("last_location", written, Text(lastLocation), "");
  }

  lemma ParsesNavigation(last: string, document: Document)
    ensures ParseFrom("\n" + ("[" + ("navigation" + ("]\n" + last))), "", document)
      == ParseFrom(last, "navigation", document)
  {
    var table := "[" + ("navigation" + ("]\n" + last));
    assert ("\n" + table)[1..] == table && table[0] == '[';
    ReadsTable("navigation", last);
  }

  lemma ParsesVersion(version: string, rest: string)
    requires IsNumeral(version)
    ensures ParseFrom("version" + (" = " + (version + ("\n" + rest))), "", map[])
      == ParseFrom(rest, "", map[("", "version") := Integer(Number(version))])
  {
    var s := "version" + (" = " + (version + ("\n" + rest)));
    assert s[0] == 'v';
    ReadsNumeral(version, rest);
    ReadsPair("version", version, Integer(Number(version)), rest);
  }

  lemma ContentShape(version: string, q: string)
    ensures "version = " + version + "\n\n[navigation]\nlast_location = " + q + "\n"
      == "version" + (" = " + (version + ("\n" + ("\n" + ("[" + ("navigation" + ("]\n" +
           ("last_location" + (" = " + (q + ("\n" + "")))))))))))
  {
  }

  lemma ParsesContentOf(version: string, lastLocation: string)
    requires IsNumeral(version)
    ensures Parse(ContentOf(version, lastLocation)) ==
      Some(map[("", "version") := Integer(Number(version)), ("navigation", "last_location") := Text(lastLocation)])
  {
    var last := "last_location" + (" = " + (Quote(lastLocation) + ("\n" + "")));
    var table := "\n" + ("[" + ("navigation" + ("]\n" + last)));
    ContentShape(version, Quote(lastLocation));
    ParsesVersion(version, table);
    ParsesNavigation(last, map[("", "version") := Integer(Number(version))]);
    ParsesLast(lastLocation, map[("", "version") := Integer(Number(version))]);
  }

  lemma ParsesContent(lastLocation: string)
    ensures Parse(Content(lastLocation)) ==
      Some(map[("", "version") := Integer(1), ("navigation", "last_location") := Text(lastLocation)])
  {
    assert "1"[..0] == "" && Number("1") == 1;
    ParsesContentOf("1", lastLocation);
  }

  /** A file that gives another version is not read, whatever location it holds. */
  lemma OtherVersionsAreRefused(version: string, lastLocation: string, clean: string -> string)
    requires IsNumeral(version)
    ensures Stored(ContentOf(version, lastLocation), clean) ==
      if Number(version) == 1 && IsAbsolute(lastLocation) then Some(clean(lastLocation)) else None
  {
    ParsesContentOf(version, lastLocation);
  }

  /** What was saved is loaded exactly when it is absolute, and then cleaned; so a clean absolute path comes
      back unchanged, whatever characters it has. */
  lemma LoadUndoesSave(lastLocation: string, clean: string -> string)
    ensures Stored(Content(lastLocation), clean) ==
      if IsAbsolute(lastLocation) then Some(clean(lastLocation)) else None
    ensures IsAbsolute(lastLocation) && clean(lastLocation) == lastLocation ==>
      Stored(Content(lastLocation), clean) == Some(lastLocation)
  {
    ParsesContent(lastLocation);
  }
}
