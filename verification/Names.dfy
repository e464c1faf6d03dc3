/** Fresh names: "name (2).ext", "name (3).ext", ... as built by chained QString::arg calls. */
module Names {
  import opened Paths
  import opened World
  import opened CopyService

  predicate Digit(c: char) {
    '0' <= c <= '9'
  }

  function DigitValue(c: char): nat
    requires Digit(c)
  {
    (c - '0') as nat
  }

  function Decimal(n: nat): (s: string)
    ensures s != "" && forall c | c in s :: Digit(c)
  {
    if n < 10 then ['0' + n as char] else Decimal(n / 10) + ['0' + (n % 10) as char]
  }

  lemma {:induction false} DecimalInjective(m: nat, n: nat)
    requires Decimal(m) == Decimal(n)
    ensures m == n
    decreases m
  {
    assert Decimal(m)[|Decimal(m)| - 1] == '0' + (m % 10) as char;
    assert Decimal(n)[|Decimal(n)| - 1] == '0' + (n % 10) as char;
    if m >= 10 && n >= 10 {
      assert Decimal(m)[..|Decimal(m)| - 1] == Decimal(m / 10);
      assert Decimal(n)[..|Decimal(n)| - 1] == Decimal(n / 10);
      DecimalInjective(m / 10, n / 10);
    }
  }

  // QString::arg

  /** A place marker at the start of a string: its length, 0 if there is none, and its number. */
  datatype Marker = Marker(length: nat, number: nat)

  const NO_MARKER := 100

  function MarkerDigits(s: string, from: nat): Marker
    requires from <= |s|
  {
    if from == |s| || !Digit(s[from]) then Marker(0, NO_MARKER)
    else if from + 1 < |s| && Digit(s[from + 1]) then
      Marker(from + 2, 10 * DigitValue(s[from]) + DigitValue(s[from + 1]))
    else Marker(from + 1, DigitValue(s[from]))
  }

  /** "%", an optional "L", one or two digits. */
  function MarkerAt(s: string): (m: Marker)
    ensures m.length <= |s| && (m.length > 0 ==> m.length >= 2 && s[0] == '%')
    ensures m.length == 0 <==> m.number == NO_MARKER
  {
    if |s| < 2 || s[0] != '%' then Marker(0, NO_MARKER)
    else if s[1] == 'L' then MarkerDigits(s, 2)
    else MarkerDigits(s, 1)
  }

  function Min(a: nat, b: nat): nat {
    if a < b then a else b
  }

  function LowestMarker(s: string): nat {
    if s == "" then NO_MARKER else Min(MarkerAt(s).number, LowestMarker(s[1..]))
  }

  function ReplaceMarker(s: string, number: nat, value: string): string
    decreases |s|
  {
    if s == "" then ""
    else if MarkerAt(s).length > 0 && MarkerAt(s).number == number then
      value + ReplaceMarker(s[MarkerAt(s).length..], number, value)
    else [s[0]] + ReplaceMarker(s[1..], number, value)
  }

  /** All occurrences of the lowest-numbered place marker are replaced. */
  function Arg(s: string, value: string): string {
    if LowestMarker(s) == NO_MARKER then s else ReplaceMarker(s, LowestMarker(s), value)
  }

  /** The chain of three calls on "%1<mid>%2<end>%3". */
  function Numbered(mid: string, end: string, base: string, n: nat, ext: string): string {
    Arg(Arg(Arg("%1" + mid + "%2" + end + "%3", base), Decimal(n)), ext)
  }

  predicate Plain(s: string) {
    '%' !in s
  }

  lemma {:induction false} ReplaceNone(s: string, number: nat, value: string)
    requires number < LowestMarker(s)
    ensures ReplaceMarker(s, number, value) == s
    decreases |s|
  {
    if s != "" {
      ReplaceNone(s[1..], number, value);
    }
  }

  lemma Reassociate(a: string, b: string, c: string, d: string, e: string)
    ensures a + (b + (c + (d + e))) == a + b + c + d + e
  {
  }

  lemma Associate(a: string, b: string, c: string)
    ensures a + (b + c) == (a + b) + c
  {
  }

  lemma MarkerStops(a: string, t: string)
    requires a != "" && t != "" && !Digit(t[0]) && t[0] != 'L'
    ensures MarkerAt(a + t) == MarkerAt(a)
  {
    assert forall i | 0 <= i < |a| :: (a + t)[i] == a[i];
    assert (a + t)[|a|] == t[0];
  }

  lemma SameHeadMarker(a: string, t: string)
    requires a != "" && (Plain(a) || (t != "" && !Digit(t[0]) && t[0] != 'L'))
    ensures MarkerAt(a + t) == MarkerAt(a) && (a + t)[1..] == a[1..] + t && (a + t)[0] == a[0]
  {
    if Plain(a) {
      assert a[0] in a && (a + t)[0] == a[0];
    } else {
      MarkerStops(a, t);
    }
  }

  /** A prefix none of whose markers is meant, and after which no marker is completed, stays. */
  lemma {:induction false} ThroughPrefix(a: string, t: string, number: nat, value: string)
    requires Plain(a) || (t != "" && !Digit(t[0]) && t[0] != 'L')
    ensures LowestMarker(a + t) == Min(LowestMarker(a), LowestMarker(t))
    ensures number < LowestMarker(a) ==> ReplaceMarker(a + t, number, value) == a + ReplaceMarker(t, number, value)
    decreases |a|
  {
    if a == "" {
      assert a + t == t;
    } else {
      SameHeadMarker(a, t);
      ThroughPrefix(a[1..], t, number, value);
      assert LowestMarker(a + t) == Min(MarkerAt(a).number, LowestMarker(a[1..] + t));
      if number < LowestMarker(a) {
        assert ReplaceMarker(a + t, number, value) == [a[0]] + ReplaceMarker(a[1..] + t, number, value);
        Associate([a[0]], a[1..], ReplaceMarker(t, number, value));
      }
    }
  }

  lemma LoneMarker(d: char, t: string, value: string)
    requires Digit(d) && (t == "" || !Digit(t[0]))
    requires DigitValue(d) <= LowestMarker(t)
    ensures LowestMarker(['%', d] + t) == DigitValue(d)
    ensures ReplaceMarker(['%', d] + t, DigitValue(d), value) == value + ReplaceMarker(t, DigitValue(d), value)
    ensures DigitValue(d) < LowestMarker(t) ==> ReplaceMarker(t, DigitValue(d), value) == t
  {
    var s := ['%', d] + t;
    assert s[1..] == [d] + t && ([d] + t)[1..] == t && s[2..] == t;
    assert MarkerAt(s) == Marker(2, DigitValue(d));
    assert MarkerAt([d] + t).length == 0;
    if DigitValue(d) < LowestMarker(t) {
      ReplaceNone(t, DigitValue(d), value);
    }
  }

  lemma {:induction false} PlainHasNoMarker(s: string)
    requires Plain(s)
    ensures LowestMarker(s) == NO_MARKER
  {
    if s != "" {
      assert s[0] in s;
      PlainHasNoMarker(s[1..]);
    }
  }

  predicate Separators(mid: string, end: string) {
    mid != "" && Plain(mid) && !Digit(mid[0]) && mid[0] != 'L' && Plain(end) && (end == "" || !Digit(end[0]))
  }

  /** The rest of the template after the stem, and after the stem and the number. */
  function Rest(mid: string, end: string): string {
    mid + ("%2" + (end + "%3"))
  }

  lemma RestMarkers(mid: string, end: string, v: string)
    requires Separators(mid, end)
    ensures LowestMarker(Rest(mid, end)) == 2
    ensures ReplaceMarker(Rest(mid, end), 2, v) == mid + (v + (end + "%3"))
  {
    PlainHasNoMarker(mid);
    PlainHasNoMarker(end);
    LoneMarker('3', "", v);
    assert ['%', '3'] + "" == "%3";
    ThroughPrefix(end, "%3", 2, v);
    LoneMarker('2', end + "%3", v);
    ThroughPrefix(mid, "%2" + (end + "%3"), 2, v);
  }

  lemma FirstArg(mid: string, end: string, base: string)
    requires Separators(mid, end)
    ensures Arg("%1" + mid + "%2" + end + "%3", base) == base + Rest(mid, end)
  {
    RestMarkers(mid, end, "");
    LoneMarker('1', Rest(mid, end), base);
    assert "%1" == ['%', '1'];
    Reassociate("%1", mid, "%2", end, "%3");
  }

  lemma SecondArg(mid: string, end: string, base: string, v: string)
    requires Separators(mid, end) && LowestMarker(base) > 2
    ensures Arg(base + Rest(mid, end), v) == base + (mid + (v + (end + "%3")))
  {
    RestMarkers(mid, end, v);
    ThroughPrefix(base, Rest(mid, end), 2, v);
  }

  lemma ThirdArg(mid: string, end: string, base: string, v: string, ext: string)
    requires Separators(mid, end) && LowestMarker(base) > 3 && Plain(v)
    ensures Arg(base + (mid + (v + (end + "%3"))), ext) == base + (mid + (v + (end + ext)))
  {
    PlainHasNoMarker(mid);
    PlainHasNoMarker(end);
    PlainHasNoMarker(v);
    LoneMarker('3', "", ext);
    assert ['%', '3'] + "" == "%3" && ext + "" == ext;
    ThroughPrefix(end, "%3", 3, ext);
    ThroughPrefix(v, end + "%3", 3, ext);
    ThroughPrefix(mid, v + (end + "%3"), 3, ext);
    ThroughPrefix(base, mid + (v + (end + "%3")), 3, ext);
  }

  /** What the chain of substitutions gives when the stem carries no low marker of its own. */
  lemma NumberedIs(mid: string, end: string, base: string, n: nat, ext: string)
    requires Separators(mid, end) && LowestMarker(base) > 3
    ensures Numbered(mid, end, base, n, ext) == base + mid + Decimal(n) + end + ext
  {
    FirstArg(mid, end, base);
    SecondArg(mid, end, base, Decimal(n));
    ThirdArg(mid, end, base, Decimal(n), ext);
    Reassociate(base, mid, Decimal(n), end, ext);
  }

  /** The first two calls on the stem "%2": both its marker and the template's take the number. */
  lemma MarkerTakesNumber(v: string)
    ensures Arg("%2" + Rest(" (", ")"), v) == v + (" (" + (v + (")" + "%3")))
  {
    RestMarkers(" (", ")", v);
    LoneMarker('2', Rest(" (", ")"), v);
    assert ['%', '2'] == "%2";
  }

  /** A stem that looks like a place marker is itself substituted: for "%2" the first name tried is
      "2 (2)" and not "%2 (2)". */
  lemma MarkerInStemIsReplaced()
    ensures Numbered(" (", ")", "%2", 2, "") == "2 (2)"
  {
    assert Decimal(2) == "2";
    FirstArg(" (", ")", "%2");
    MarkerTakesNumber("2");
    PlainHasNoMarker("2");
    ThirdArg(" (", ")", "2", "2", "");
    assert "2" + (" (" + ("2" + (")" + ""))) == "2 (2)";
  }

  // The stem and the extension

  function LastDot(name: string): (i: int)
    ensures -1 <= i < |name| && (i >= 0 ==> name[i] == '.')
    ensures forall k | i < k < |name| :: name[k] != '.'
  {
    if name == "" then -1
    else if name[|name| - 1] == '.' then |name| - 1
    else LastDot(name[..|name| - 1])
  }

  function Stem(name: string): string {
    if LastDot(name) > 0 then name[..LastDot(name)] else name
  }

  function Extension(name: string): string {
    if LastDot(name) > 0 then name[LastDot(name)..] else ""
  }

  lemma StemAndExtension(name: string)
    ensures Stem(name) + Extension(name) == name
    ensures Extension(name) != "" ==> Extension(name)[0] == '.' && '.' !in Extension(name)[1..] && Stem(name) != ""
  {
  }

  /** What is replaced in a stem is replaced there only: no marker reaches into what follows. */
  lemma {:induction false} ReplaceConcat(a: string, t: string, number: nat, value: string)
    requires t != "" && !Digit(t[0]) && t[0] != 'L'
    ensures ReplaceMarker(a + t, number, value) == ReplaceMarker(a, number, value) + ReplaceMarker(t, number, value)
    decreases |a|
  {
    if a == "" {
      assert a + t == t;
    } else {
      var m := MarkerAt(a);
      assert MarkerAt(a + t) == m by {
        MarkerStops(a, t);
      }
      if m.length > 0 && m.number == number {
        assert (a + t)[m.length..] == a[m.length..] + t;
        ReplaceConcat(a[m.length..], t, number, value);
        Associate(value, ReplaceMarker(a[m.length..], number, value), ReplaceMarker(t, number, value));
      } else {
        assert (a + t)[1..] == a[1..] + t && (a + t)[0] == a[0];
        ReplaceConcat(a[1..], t, number, value);
        Associate([a[0]], ReplaceMarker(a[1..], number, value), ReplaceMarker(t, number, value));
      }
    }
  }

  lemma {:induction false} ReplaceShortens(s: string, number: nat, value: string)
    requires |value| <= 1 && number < NO_MARKER
    ensures |ReplaceMarker(s, number, value)| <= |s|
    ensures LowestMarker(s) == number ==> |ReplaceMarker(s, number, value)| < |s|
    decreases |s|
  {
    if s != "" {
      if MarkerAt(s).length > 0 && MarkerAt(s).number == number {
        ReplaceShortens(s[MarkerAt(s).length..], number, value);
      } else {
        ReplaceShortens(s[1..], number, value);
      }
    }
  }

  /** Where a stem's own markers are replaced, a digit or the dot of the extension stands for a "%". */
  lemma {:induction false} ReplaceDiffers(s: string, a: nat, b: nat, ext: string) returns (q: nat)
    requires a < b < NO_MARKER && (LowestMarker(s) == a || LowestMarker(s) == b)
    requires ext != "" && ext[0] == '.'
    ensures var r := ReplaceMarker(ReplaceMarker(s, a, "9"), b, ext);
      q < |s| && q < |r| && s[q] == '%' && r[q] != '%'
    decreases |s|
  {
    var s2 := ReplaceMarker(s, a, "9");
    if MarkerAt(s).length > 0 && MarkerAt(s).number == a {
      assert s2[0] == '9';
      q := 0;
    } else {
      assert s2 == [s[0]] + ReplaceMarker(s[1..], a, "9") && s2[1..] == ReplaceMarker(s[1..], a, "9");
      if MarkerAt(s2).length > 0 && MarkerAt(s2).number == b {
        q := 0;
      } else {
        if LowestMarker(s) == b {
          ReplaceNone(s, a, "9");
        }
        q := ReplaceDiffers(s[1..], a, b, ext);
        q := q + 1;
      }
    }
  }

  /** The two calls after the first, on a stem with a low marker of its own. */
  lemma LaterArgs(mid: string, end: string, base: string, ext: string) returns (a: nat, b: nat)
    requires Separators(mid, end) && LowestMarker(base) <= 3
    ensures a == Min(LowestMarker(base), 2) && a < NO_MARKER && b <= 3
    ensures var rest := if a == 2 then mid + ("9" + (end + "%3")) else Rest(mid, end);
      && LowestMarker(rest) == (if a == 2 then 3 else 2)
      && b == Min(LowestMarker(ReplaceMarker(base, a, "9")), LowestMarker(rest))
      && Numbered(mid, end, base, 9, ext)
         == ReplaceMarker(ReplaceMarker(base, a, "9"), b, ext) + ReplaceMarker(rest, b, ext)
  {
    assert Decimal(9) == "9";
    FirstArg(mid, end, base);
    RestMarkers(mid, end, "9");
    ThroughPrefix(base, Rest(mid, end), 0, "9");
    a := Min(LowestMarker(base), 2);
    ReplaceConcat(base, Rest(mid, end), a, "9");
    if a < 2 {
      ReplaceNone(Rest(mid, end), a, "9");
    } else {
      LastMarker(mid, end, "");
    }
    var rest := if a == 2 then mid + ("9" + (end + "%3")) else Rest(mid, end);
    var base2 := ReplaceMarker(base, a, "9");
    ThroughPrefix(base2, rest, 0, ext);
    b := Min(LowestMarker(base2), LowestMarker(rest));
    ReplaceConcat(base2, rest, b, ext);
  }

  /** The last place marker of the template, once the number is in. */
  lemma LastMarker(mid: string, end: string, ext: string)
    requires Separators(mid, end)
    ensures var rest := mid + ("9" + (end + "%3"));
      LowestMarker(rest) == 3 && ReplaceMarker(rest, 3, ext) == mid + ("9" + (end + ext))
  {
    PlainHasNoMarker(mid);
    PlainHasNoMarker(end);
    PlainHasNoMarker("9");
    LoneMarker('3', "", ext);
    assert ['%', '3'] + "" == "%3" && ext + "" == ext;
    ThroughPrefix(end, "%3", 3, ext);
    ThroughPrefix("9", end + "%3", 3, ext);
    ThroughPrefix(mid, "9" + (end + "%3"), 3, ext);
  }

  /** With a low marker in the stem, and no extension, something is missing or left over at the end. */
  lemma BareNameDiffers(mid: string, end: string, base: string)
    requires Separators(mid, end) && LowestMarker(base) <= 3 && (end == "" || end[|end| - 1] != '3')
    ensures Numbered(mid, end, base, 9, "") != base + mid + "9" + end
  {
    var a, b := LaterArgs(mid, end, base, "");
    var base2 := ReplaceMarker(base, a, "9");
    ReplaceShortens(base, a, "9");
    if a == 2 && b == 3 {
      LastMarker(mid, end, "");
      ReplaceShortens(base2, 3, "");
      if LowestMarker(base) == 3 {
        ReplaceNone(base, 2, "9");
      }
    } else {
      var rest := if a == 2 then mid + ("9" + (end + "%3")) else Rest(mid, end);
      EndsInThree(mid, end, rest, a, b);
      var all := ReplaceMarker(base2, b, "") + ReplaceMarker(rest, b, "");
      assert all[|all| - 1] == '3';
      var meant := base + mid + "9" + end;
      assert meant[|meant| - 1] == if end == "" then '9' else end[|end| - 1];
    }
  }

  /** The template's last marker is left when a lower one is there. */
  lemma EndsInThree(mid: string, end: string, rest: string, a: nat, b: nat)
    requires Separators(mid, end) && b <= 2
    requires rest == if a == 2 then mid + ("9" + (end + "%3")) else Rest(mid, end)
    ensures var r := ReplaceMarker(rest, b, ""); r != "" && r[|r| - 1] == '3'
  {
    if a == 2 {
      LastMarker(mid, end, "");
      ReplaceNone(rest, b, "");
    } else {
      RestMarkers(mid, end, "");
      if b < 2 {
        ReplaceNone(rest, b, "");
      }
    }
  }

  lemma ExtendedNameDiffers(mid: string, end: string, base: string, ext: string)
    requires Separators(mid, end) && LowestMarker(base) <= 3 && ext != "" && ext[0] == '.'
    ensures Numbered(mid, end, base, 9, ext) != base + mid + "9" + end + ext
  {
    var a, b := LaterArgs(mid, end, base, ext);
    if a == 2 && LowestMarker(base) == 3 {
      ReplaceNone(base, 2, "9");
    }
    SecondIsHigher(base, a);
    if a < b {
      var q := ReplaceDiffers(base, a, b, ext);
      assert (base + mid + "9" + end + ext)[q] == '%';
    }
  }

  /** The marker a "%" begins, once nines stand for some of what follows: as it was, or higher. */
  lemma MarkerAfterNines(t: string, a: nat)
    requires a < 9 && MarkerAt("%" + t).number > a
    ensures MarkerAt("%" + ReplaceMarker(t, a, "9")).number > a
  {
  }

  lemma {:induction false} SuffixMarkers(s: string, k: nat)
    requires k <= |s|
    ensures LowestMarker(s[k..]) >= LowestMarker(s)
  {
    if k > 0 {
      assert s[1..][k - 1..] == s[k..];
      SuffixMarkers(s[1..], k - 1);
    }
  }

  /** Replacing the lowest marker by a nine leaves only higher ones. */
  lemma {:induction false} SecondIsHigher(s: string, a: nat)
    requires a <= LowestMarker(s) && a < 9
    ensures LowestMarker(ReplaceMarker(s, a, "9")) > a
    decreases |s|
  {
    if s != "" {
      var m := MarkerAt(s);
      if m.length > 0 && m.number == a {
        SuffixMarkers(s, m.length);
        SecondIsHigher(s[m.length..], a);
        var rest := ReplaceMarker(s[m.length..], a, "9");
        assert ("9" + rest)[1..] == rest && MarkerAt("9" + rest).length == 0;
      } else {
        SecondIsHigher(s[1..], a);
        var rest := ReplaceMarker(s[1..], a, "9");
        assert ([s[0]] + rest)[1..] == rest;
        if s[0] == '%' {
          assert s == "%" + s[1..];
          MarkerAfterNines(s[1..], a);
        } else {
          assert MarkerAt([s[0]] + rest).length == 0;
        }
      }
    }
  }

  lemma NumberedDiffers(mid: string, end: string, base: string, ext: string)
    requires Separators(mid, end) && LowestMarker(base) <= 3
    requires (end == "" || end[|end| - 1] != '3') && (ext == "" || ext[0] == '.')
    ensures Numbered(mid, end, base, 9, ext) != base + mid + Decimal(9) + end + ext
  {
    assert Decimal(9) == "9";
    if ext == "" {
      BareNameDiffers(mid, end, base);
      assert base + mid + "9" + end + ext == base + mid + "9" + end;
    } else {
      ExtendedNameDiffers(mid, end, base, ext);
    }
  }

  /** The names tried read "stem<mid>n<end>.ext" for every n exactly when the stem carries no place marker
      numbered 3 or less. */
  lemma NumberedExactly(mid: string, end: string, base: string, ext: string)
    requires Separators(mid, end) && (end == "" || end[|end| - 1] != '3') && (ext == "" || ext[0] == '.')
    ensures (forall n: nat :: Numbered(mid, end, base, n, ext) == base + mid + Decimal(n) + end + ext)
      <==> LowestMarker(base) > 3
  {
    if LowestMarker(base) > 3 {
      forall n: nat
        ensures Numbered(mid, end, base, n, ext) == base + mid + Decimal(n) + end + ext
      {
        NumberedIs(mid, end, base, n, ext);
      }
    } else {
      NumberedDiffers(mid, end, base, ext);
    }
  }

  lemma NamesExactly(mid: string, end: string, name: string)
    requires Separators(mid, end) && (end == "" || end[|end| - 1] != '3')
    ensures (forall n: nat ::
        NthName(mid, end, name, n) == Stem(name) + mid + Decimal(n) + end + Extension(name))
      <==> Searchable(mid, end, name)
  {
    NumberedExactly(mid, end, Stem(name), Extension(name));
    assert forall n: nat :: NthName(mid, end, name, n) == Numbered(mid, end, Stem(name), n, Extension(name));
  }

  lemma Regroup(a: string, b: string, c: string, d: string)
    ensures a + b + c + d == a + b + (c + d)
  {
  }

  lemma SameMiddle(front: string, a: string, b: string, back: string)
    requires front + a + back == front + b + back
    ensures a == b
  {
    assert |a| == |b|;
    forall i | 0 <= i < |a|
      ensures a[i] == b[i]
    {
      assert (front + a + back)[|front| + i] == a[i] && (front + b + back)[|front| + i] == b[i];
    }
  }

  /** Different numbers give different names. */
  lemma NumberedInjective(mid: string, end: string, base: string, ext: string, m: nat, n: nat)
    requires Separators(mid, end) && LowestMarker(base) > 3
    requires Numbered(mid, end, base, m, ext) == Numbered(mid, end, base, n, ext)
    ensures m == n
  {
    NumberedIs(mid, end, base, m, ext);
    NumberedIs(mid, end, base, n, ext);
    Regroup(base + mid, Decimal(m), end, ext);
    Regroup(base + mid, Decimal(n), end, ext);
    SameMiddle(base + mid, Decimal(m), Decimal(n), end + ext);
    DecimalInjective(m, n);
  }

  lemma {:induction false} SubsetIsSmaller<T>(a: set<T>, b: set<T>)
    requires a <= b
    ensures |a| <= |b|
  {
    if a != {} {
      var x :| x in a;
      SubsetIsSmaller(a - {x}, b - {x});
    }
  }

  // Every stem: the numbers from 10 on are never swallowed

  /** A text with holes for the number. */
  datatype Part = Lit(c: char) | Hole

  function Fill(ps: seq<Part>, v: string): string {
    if ps == [] then ""
    else if ps[0].Hole? then v + Fill(ps[1..], v)
    else [ps[0].c] + Fill(ps[1..], v)
  }

  function Lits(s: string): seq<Part> {
    if s == "" then [] else [Lit(s[0])] + Lits(s[1..])
  }

  /** The markers of that number become holes. */
  function Cut(s: string, number: nat): seq<Part>
    decreases |s|
  {
    if s == "" then []
    else if MarkerAt(s).length > 0 && MarkerAt(s).number == number then [Hole] + Cut(s[MarkerAt(s).length..], number)
    else [Lit(s[0])] + Cut(s[1..], number)
  }

  lemma {:induction false} ReplaceIsFill(s: string, number: nat, v: string)
    ensures ReplaceMarker(s, number, v) == Fill(Cut(s, number), v)
    decreases |s|
  {
    if s != "" {
      var m := MarkerAt(s);
      ReplaceIsFill(if m.length > 0 && m.number == number then s[m.length..] else s[1..], number, v);
    }
  }

  /** The digits of a number from 10 on. */
  predicate Long(v: string) {
    |v| >= 2 && v[0] != '0' && forall c | c in v :: Digit(c)
  }

  lemma {:induction false} DecimalIsLong(n: nat)
    requires n >= 10
    ensures Long(Decimal(n))
  {
    if n >= 100 {
      DecimalIsLong(n / 10);
      assert Decimal(n)[0] == Decimal(n / 10)[0];
    } else {
      assert Decimal(n / 10) == ['0' + (n / 10) as char];
    }
  }

  /** A marker that begins with a zero and ends in a hole. */
  predicate ZeroHole(ps: seq<Part>) {
    || (|ps| >= 3 && ps[0] == Lit('%') && ps[1] == Lit('0') && ps[2] == Hole)
    || (|ps| >= 4 && ps[0] == Lit('%') && ps[1] == Lit('L') && ps[2] == Lit('0') && ps[3] == Hole)
  }

  predicate NoZeroHole(ps: seq<Part>) {
    ps == [] || (!ZeroHole(ps) && NoZeroHole(ps[1..]))
  }

  /** A part that is text stands for one character, and a hole for a place marker. */
  lemma CutHead(s: string, number: nat)
    requires s != ""
    ensures var ps := Cut(s, number);
      && ps != []
      && (ps[0].Lit? ==> ps[0].c == s[0] && ps[1..] == Cut(s[1..], number))
      && (ps[0].Hole? ==> s[0] == '%')
  {
  }

  lemma CutEmpty(s: string, number: nat)
    ensures Cut(s, number) == [] <==> s == ""
  {
  }

  lemma ZeroHoleIsMarker(s: string, number: nat)
    requires ZeroHole(Cut(s, number))
    ensures s != "" && MarkerAt(s).length > 0 && MarkerAt(s).number == 0
  {
    var ps := Cut(s, number);
    CutHead(s, number);
    CutEmpty(s[1..], number);
    CutHead(s[1..], number);
    CutEmpty(s[2..], number);
    assert s[1..][1..] == s[2..];
    CutHead(s[2..], number);
    if ps[1] == Lit('L') {
      CutEmpty(s[3..], number);
      assert s[2..][1..] == s[3..];
      CutHead(s[3..], number);
      assert MarkerAt(s) == Marker(3, 0);
    } else {
      assert MarkerAt(s) == Marker(2, 0);
    }
  }

  /** Where the lowest markers are cut out, "%0" before a hole would have been one of them. */
  lemma {:induction false} CutHasNoZeroHole(s: string, number: nat)
    requires number <= LowestMarker(s)
    ensures NoZeroHole(Cut(s, number))
    decreases |s|
  {
    if s != "" {
      var m := MarkerAt(s);
      if m.length > 0 && m.number == number {
        SuffixMarkers(s, m.length);
        CutHasNoZeroHole(s[m.length..], number);
        assert Cut(s, number)[1..] == Cut(s[m.length..], number);
      } else {
        CutHasNoZeroHole(s[1..], number);
        assert Cut(s, number)[1..] == Cut(s[1..], number);
        if ZeroHole(Cut(s, number)) {
          ZeroHoleIsMarker(s, number);
          assert false;
        }
      }
    }
  }

  lemma {:induction false} FillAt(ps: seq<Part>, v: string, k: nat)
    requires k <= |ps| && forall i | 0 <= i < k :: ps[i].Lit?
    ensures k <= |Fill(ps, v)| && Fill(ps, v)[k..] == Fill(ps[k..], v)
    ensures forall i | 0 <= i < k :: Fill(ps, v)[i] == ps[i].c
  {
    if k > 0 {
      FillAt(ps[1..], v, k - 1);
      assert ps[1..][k - 1..] == ps[k..];
      assert Fill(ps, v)[1..] == Fill(ps[1..], v);
    }
  }

  lemma DigitThenHole(c: char, v: string, t: string)
    requires Long(v) && c != '0'
    ensures MarkerDigits([c] + (v + t), 0).number >= 10
  {
    var s := [c] + (v + t);
    assert s[0] == c && s[1] == v[0];
    assert v[0] in v;
  }

  /** The digits behind a "%", or behind "%L". */
  lemma {:induction false} LowDigits(ps: seq<Part>, v: string, from: nat)
    requires Long(v) && from <= |ps| && (forall i | 0 <= i < from :: ps[i].Lit?)
    requires !(|ps| >= from + 2 && ps[from] == Lit('0') && ps[from + 1] == Hole)
    ensures from <= |Fill(ps, v)| && from <= |Fill(ps, "99")|
    ensures var m, low := MarkerDigits(Fill(ps, v), from), MarkerDigits(Fill(ps, "99"), from);
      && (m.number <= 3 <==> low.number <= 3)
      && (m.number <= 3 ==> m == low && from < m.length <= |ps| && forall i | 0 <= i < m.length :: ps[i].Lit?)
  {
    FillAt(ps, v, from);
    FillAt(ps, "99", from);
    assert forall i | 0 <= i < |ps[from..]| :: ps[from..][i] == ps[from + i];
    var m := MarkerDigits(Fill(ps, v), from);
    if m.number <= 3 {
      forall i | 0 <= i < m.length
        ensures ps[i].Lit?
      {
        if i >= from {
          assert ps[from..][i - from].Lit?;
        }
      }
    }
  }

  /** A low marker is the same for all numbers in the holes, and reaches into none. */
  lemma LowMarker(ps: seq<Part>, v: string)
    requires Long(v) && ps != [] && ps[0].Lit? && !ZeroHole(ps)
    ensures var m, low := MarkerAt(Fill(ps, v)), MarkerAt(Fill(ps, "99"));
      && (m.number <= 3 <==> low.number <= 3)
      && (m.number <= 3 ==> m == low && 0 < m.length <= |ps| && forall i | 0 <= i < m.length :: ps[i].Lit?)
  {
    FillAt(ps, v, 1);
    FillAt(ps, "99", 1);
    if ps[0].c == '%' && |ps| > 1 {
      if ps[1] == Lit('L') {
        FillAt(ps, v, 2);
        FillAt(ps, "99", 2);
        LowDigits(ps, v, 2);
      } else {
        assert v[0] in v;
        LowDigits(ps, v, 1);
      }
    }
  }

  /** What replacing a low marker by `value` makes of the text around the holes. */
  function Recut(ps: seq<Part>, number: nat, value: string): seq<Part> {
    if ps == [] then []
    else
      var m := MarkerAt(Fill(ps, "99"));
      if ps[0].Lit? && m.number == number && 0 < m.length <= |ps| then
        Lits(value) + Recut(ps[m.length..], number, value)
      else [ps[0]] + Recut(ps[1..], number, value)
  }

  lemma {:induction false} FillLits(s: string, ps: seq<Part>, v: string)
    ensures Fill(Lits(s) + ps, v) == s + Fill(ps, v)
  {
    if s == "" {
      assert Lits(s) + ps == ps;
    } else {
      var rest := Lits(s[1..]) + ps;
      FillLits(s[1..], ps, v);
      assert Lits(s) + ps == [Lit(s[0])] + rest;
      assert s == [s[0]] + s[1..];
    }
  }

  lemma LongIsPlain(v: string)
    requires Long(v)
    ensures Plain(v) && LowestMarker(v) == NO_MARKER
  {
    PlainHasNoMarker(v);
  }

  lemma {:induction false} ReplaceInFill(ps: seq<Part>, v: string, number: nat, value: string)
    requires Long(v) && NoZeroHole(ps) && number <= 3
    ensures ReplaceMarker(Fill(ps, v), number, value) == Fill(Recut(ps, number, value), v)
    decreases |ps|
  {
    if ps != [] {
      if ps[0].Hole? {
        ReplaceInFill(ps[1..], v, number, value);
        LongIsPlain(v);
        ThroughPrefix(v, Fill(ps[1..], v), number, value);
        assert Recut(ps, number, value)[1..] == Recut(ps[1..], number, value);
      } else {
        LowMarker(ps, v);
        var m := MarkerAt(Fill(ps, v));
        if m.number == number {
          FillAt(ps, v, m.length);
          NoZeroBelow(ps, m.length);
          ReplaceInFill(ps[m.length..], v, number, value);
          FillLits(value, Recut(ps[m.length..], number, value), v);
        } else {
          FillAt(ps, v, 1);
          ReplaceInFill(ps[1..], v, number, value);
          assert Recut(ps, number, value)[1..] == Recut(ps[1..], number, value);
        }
      }
    }
  }

  lemma {:induction false} NoZeroBelow(ps: seq<Part>, k: nat)
    requires NoZeroHole(ps) && k <= |ps|
    ensures NoZeroHole(ps[k..])
  {
    if k > 0 {
      NoZeroBelow(ps[1..], k - 1);
      assert ps[1..][k - 1..] == ps[k..];
    }
  }

  lemma LowestPastHole(v: string, t: string)
    requires Long(v)
    ensures LowestMarker(v + t) == Min(NO_MARKER, LowestMarker(t))
  {
    LongIsPlain(v);
    ThroughPrefix(v, t, 0, "");
  }

  /** The lowest marker does not depend on the number in the holes. */
  lemma {:induction false} LowestInFill(ps: seq<Part>, v: string)
    requires Long(v) && NoZeroHole(ps)
    ensures Min(LowestMarker(Fill(ps, v)), 4) == Min(LowestMarker(Fill(ps, "99")), 4)
  {
    if ps != [] {
      LowestInFill(ps[1..], v);
      if ps[0].Hole? {
        LowestPastHole(v, Fill(ps[1..], v));
        LowestPastHole("99", Fill(ps[1..], "99"));
      } else {
        LowMarker(ps, v);
        FillAt(ps, v, 1);
        FillAt(ps, "99", 1);
      }
    }
  }

  predicate HasHole(ps: seq<Part>) {
    ps != [] && (ps[0].Hole? || HasHole(ps[1..]))
  }

  lemma {:induction false} CutHasHole(s: string)
    requires LowestMarker(s) < NO_MARKER
    ensures HasHole(Cut(s, LowestMarker(s)))
    decreases |s|
  {
    var number := LowestMarker(s);
    if MarkerAt(s).number != number {
      CutHasHole(s[1..]);
      assert Cut(s, number)[1..] == Cut(s[1..], number);
    }
  }

  lemma {:induction false} LitsThenHole(s: string, ps: seq<Part>)
    requires HasHole(ps)
    ensures HasHole(Lits(s) + ps)
  {
    if s == "" {
      assert Lits(s) + ps == ps;
    } else {
      LitsThenHole(s[1..], ps);
      assert (Lits(s) + ps)[1..] == Lits(s[1..]) + ps;
    }
  }

  lemma {:induction false} HoleIsBehind(ps: seq<Part>, k: nat)
    requires HasHole(ps) && k <= |ps| && forall i | 0 <= i < k :: ps[i].Lit?
    ensures HasHole(ps[k..])
  {
    if k > 0 {
      HoleIsBehind(ps[1..], k - 1);
      assert ps[1..][k - 1..] == ps[k..];
    }
  }

  lemma {:induction false} RecutKeepsHole(ps: seq<Part>, number: nat, value: string)
    requires HasHole(ps) && NoZeroHole(ps) && number <= 3
    ensures HasHole(Recut(ps, number, value))
    decreases |ps|
  {
    if ps[0].Lit? {
      LowMarker(ps, "99");
      var m := MarkerAt(Fill(ps, "99"));
      if m.number == number {
        HoleIsBehind(ps, m.length);
        NoZeroBelow(ps, m.length);
        RecutKeepsHole(ps[m.length..], number, value);
        LitsThenHole(value, Recut(ps[m.length..], number, value));
      } else {
        RecutKeepsHole(ps[1..], number, value);
        assert Recut(ps, number, value)[1..] == Recut(ps[1..], number, value);
      }
    }
  }

  lemma {:induction false} FillLength(ps: seq<Part>, v: string, v': string)
    requires |v| <= |v'|
    ensures |Fill(ps, v)| <= |Fill(ps, v')|
    ensures HasHole(ps) && |v| < |v'| ==> |Fill(ps, v)| < |Fill(ps, v')|
  {
    if ps != [] {
      FillLength(ps[1..], v, v');
    }
  }

  /** What stands in a hole can be read off. */
  lemma {:induction false} FillInjective(ps: seq<Part>, v: string, v': string)
    requires HasHole(ps) && Fill(ps, v) == Fill(ps, v')
    ensures v == v'
  {
    if |v| <= |v'| {
      FillLength(ps, v, v');
    } else {
      FillLength(ps, v', v);
    }
    assert |v| == |v'|;
    if ps[0].Hole? {
      assert v == Fill(ps, v)[..|v|] && v' == Fill(ps, v')[..|v'|];
    } else {
      assert Fill(ps[1..], v) == Fill(ps, v)[1..] && Fill(ps[1..], v') == Fill(ps, v')[1..];
      FillInjective(ps[1..], v, v');
    }
  }

  /** The template with the stem in it: its lowest marker, the holes for the number, and the lowest marker
      that is left then. */
  lemma Stemmed(mid: string, end: string, base: string, v: string)
    requires Separators(mid, end) && Long(v)
    ensures var s := base + Rest(mid, end);
      && LowestMarker(s) <= 2 && NoZeroHole(Cut(s, LowestMarker(s))) && HasHole(Cut(s, LowestMarker(s)))
      && LowestMarker(Fill(Cut(s, LowestMarker(s)), v)) <= 3
  {
    var s := base + Rest(mid, end);
    RestMarkers(mid, end, v);
    ThroughPrefix(base, Rest(mid, end), 0, v);
    var a := LowestMarker(s);
    CutHasNoZeroHole(s, a);
    CutHasHole(s);
    ReplaceIsFill(s, a, v);
    var front := base + mid + "%2" + end;
    assert s == front + "%3" by {
      Reassociate(base, mid, "%2", end, "%3");
    }
    LoneMarker('3', "", v);
    assert ['%', '3'] + "" == "%3";
    ReplaceConcat(front, "%3", a, v);
    ReplaceNone("%3", a, v);
    ThroughPrefix(ReplaceMarker(front, a, v), "%3", 0, v);
  }

  /** The text around the number in the names tried for a stem. */
  function Frame(mid: string, end: string, base: string, ext: string): seq<Part> {
    var s := base + Rest(mid, end);
    var ps := Cut(s, LowestMarker(s));
    Recut(ps, LowestMarker(Fill(ps, "99")), ext)
  }

  /** Whatever markers a stem carries, the names from the tenth number on have the number, whole, in the same
      places. */
  lemma NumberedIsFrame(mid: string, end: string, base: string, n: nat, ext: string)
    requires Separators(mid, end) && n >= 10
    ensures HasHole(Frame(mid, end, base, ext))
    ensures Numbered(mid, end, base, n, ext) == Fill(Frame(mid, end, base, ext), Decimal(n))
  {
    var s, v := base + Rest(mid, end), Decimal(n);
    var a := LowestMarker(s);
    var ps := Cut(s, a);
    DecimalIsLong(n);
    FirstArg(mid, end, base);
    Stemmed(mid, end, base, v);
    Stemmed(mid, end, base, "99");
    ReplaceIsFill(s, a, v);
    LowestInFill(ps, v);
    var b := LowestMarker(Fill(ps, "99"));
    ReplaceInFill(ps, v, b, ext);
    RecutKeepsHole(ps, b, ext);
  }

  /** From 10 on different numbers give different names, for every stem. */
  lemma NumberedDistinct(mid: string, end: string, base: string, ext: string, m: nat, n: nat)
    requires Separators(mid, end) && m >= 10 && n >= 10
    requires Numbered(mid, end, base, m, ext) == Numbered(mid, end, base, n, ext)
    ensures m == n
  {
    NumberedIsFrame(mid, end, base, m, ext);
    NumberedIsFrame(mid, end, base, n, ext);
    FillInjective(Frame(mid, end, base, ext), Decimal(m), Decimal(n));
    DecimalInjective(m, n);
  }

  // The search for a free name

  /** The n-th name tried for `name`: mid and end are " (" and ")" when pasting, "_" and "" in the trash. */
  function NthName(mid: string, end: string, name: string, n: nat): string {
    Numbered(mid, end, Stem(name), n, Extension(name))
  }

  predicate Searchable(mid: string, end: string, name: string) {
    Separators(mid, end) && LowestMarker(Stem(name)) > 3
  }

  /** From here on no name is tried twice: from the first attempt, unless the stem carries a low marker. */
  function Settled(mid: string, end: string, name: string): nat {
    if Searchable(mid, end, name) then 2 else 10
  }

  /** The names tried from the attempt `from` on, before the attempt `n`. */
  ghost function Tried(mid: string, end: string, name: string, from: nat, n: nat): set<string>
    requires n >= from
  {
    if n == from then {} else Tried(mid, end, name, from, n - 1) + {NthName(mid, end, name, n - 1)}
  }

  lemma NamesDistinct(mid: string, end: string, name: string, m: nat, n: nat)
    requires Separators(mid, end) && Settled(mid, end, name) <= m < n
    ensures NthName(mid, end, name, m) != NthName(mid, end, name, n)
  {
    if NthName(mid, end, name, m) == NthName(mid, end, name, n) {
      if Searchable(mid, end, name) {
        NumberedInjective(mid, end, Stem(name), Extension(name), m, n);
      } else {
        NumberedDistinct(mid, end, Stem(name), Extension(name), m, n);
      }
    }
  }

  lemma {:induction false} TriedAreOthers(mid: string, end: string, name: string, n: nat, m: nat)
    requires Separators(mid, end) && Settled(mid, end, name) <= n <= m
    ensures NthName(mid, end, name, m) !in Tried(mid, end, name, Settled(mid, end, name), n)
    decreases n
  {
    if n > Settled(mid, end, name) {
      TriedAreOthers(mid, end, name, n - 1, m);
      NamesDistinct(mid, end, name, n - 1, m);
    }
  }

  lemma {:induction false} TriedCount(mid: string, end: string, name: string, n: nat)
    requires Separators(mid, end) && n >= Settled(mid, end, name)
    ensures |Tried(mid, end, name, Settled(mid, end, name), n)| == n - Settled(mid, end, name)
  {
    if n > Settled(mid, end, name) {
      TriedCount(mid, end, name, n - 1);
      TriedAreOthers(mid, end, name, n - 1, n - 1);
    }
  }

  lemma {:induction false} TriedFrom(mid: string, end: string, name: string, from: nat, n: nat, inUse: set<string>)
    requires n >= from && forall i | from <= i < n :: NthName(mid, end, name, i) in inUse
    ensures Tried(mid, end, name, from, n) <= inUse
  {
    if n > from {
      TriedFrom(mid, end, name, from, n - 1, inUse);
    }
  }

  /** All names tried before the attempt `n` are in use. */
  ghost predicate AllTaken(mid: string, end: string, name: string, inUse: set<string>, n: nat) {
    n >= 2 && forall i | 2 <= i < n :: NthName(mid, end, name, i) in inUse
  }

  lemma OneMoreTaken(mid: string, end: string, name: string, inUse: set<string>, n: nat)
    requires AllTaken(mid, end, name, inUse, n) && NthName(mid, end, name, n) in inUse
    ensures AllTaken(mid, end, name, inUse, n + 1)
  {
  }

  /** The candidate is the first of the names tried that is not in use, and few were tried. */
  ghost predicate FirstFree(mid: string, end: string, name: string, inUse: set<string>, candidate: string) {
    exists n: nat :: IsAttempt(mid, end, name, inUse, candidate, n)
  }

  ghost predicate IsAttempt(mid: string, end: string, name: string, inUse: set<string>, candidate: string, n: nat) {
    && AllTaken(mid, end, name, inUse, n) && n <= Settled(mid, end, name) + |inUse|
    && candidate == NthName(mid, end, name, n)
  }

  /** The search ends for every name: in a directory with `k` names in use at most `k` attempts, and eight more
      for a stem with a low place marker, find theirs taken. */
  lemma SearchEnds(mid: string, end: string, name: string, inUse: set<string>, n: nat)
    requires Separators(mid, end) && AllTaken(mid, end, name, inUse, n)
    ensures n <= Settled(mid, end, name) + |inUse|
  {
    var first := Settled(mid, end, name);
    if n > first {
      TriedCount(mid, end, name, n);
      TriedFrom(mid, end, name, first, n, inUse);
      SubsetIsSmaller(Tried(mid, end, name, first, n), inUse);
    }
  }

  /** The first free "name (n).ext" from 2; a name is free when lstat() does not find it. */
  method AutoRenameCandidate(w: Kernel, destDir: Path, itemName: Name) returns (candidate: Name)
    requires w.Valid()
    ensures FirstFree(" (", ")", itemName, ChildNames(w.tree, destDir), candidate)
    ensures w.undisturbed ==> destDir + [candidate] !in w.tree
  {
    var attempt: nat := 2;
    ghost var inUse := ChildNames(w.tree, destDir);
    ChildNamesListed(w.tree, destDir);
    SearchEnds(" (", ")", itemName, inUse, attempt);
    while true
      invariant AllTaken(" (", ")", itemName, inUse, attempt) && attempt <= Settled(" (", ")", itemName) + |inUse|
      decreases Settled(" (", ")", itemName) + |inUse| - attempt
    {
      candidate := NthName(" (", ")", itemName, attempt);
      var taken := DestinationExists(w, destDir, candidate);
      if !taken {
        assert IsAttempt(" (", ")", itemName, inUse, candidate, attempt);
        return;
      }
      OneMoreTaken(" (", ")", itemName, inUse, attempt);
      attempt := attempt + 1;
      SearchEnds(" (", ")", itemName, inUse, attempt);
    }
  }
}
