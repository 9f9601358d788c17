/** `isValidColor` of utils/colorUtils.ts: the five regular expressions it tries,
    written out as scanners over the string. Each scanner consumes a prefix and returns
    what is left, so a pattern anchored with `^…$` matches when nothing is left. */
module ColorValidation {
  import opened Text

  datatype Option<T> = None | Some(value: T)

  /** A character of JavaScript's `\s` class (white space and line terminators). */
  predicate IsSpace(c: char) {
    c == ' ' || c == '\t' || c == '\n' || c == '\U{000B}' || c == '\U{000C}' || c == '\r' ||
    c == '\U{00A0}' || c == '\U{1680}' || '\U{2000}' <= c <= '\U{200A}' ||
    c == '\U{2028}' || c == '\U{2029}' || c == '\U{202F}' || c == '\U{205F}' ||
    c == '\U{3000}' || c == '\U{FEFF}'
  }

  predicate AllDigits(s: string) {
    forall k :: 0 <= k < |s| ==> IsDigit(s[k])
  }

  predicate AllSpaces(s: string) {
    forall k :: 0 <= k < |s| ==> IsSpace(s[k])
  }

  predicate AllHexDigits(s: string) {
    forall k :: 0 <= k < |s| ==> IsHexDigit(s[k])
  }

  /** Greedy optional white space: what is left after the leading white space. */
  function DropSpaces(s: string): (r: string)
    ensures |r| <= |s|
    ensures |r| == 0 || !IsSpace(r[0])
  {
    if |s| > 0 && IsSpace(s[0]) then DropSpaces(s[1..]) else s
  }

  /** What DropSpaces leaves is a suffix, and everything before it is white space. */
  lemma {:induction false} DropSpacesSuffix(s: string)
    ensures var r := DropSpaces(s); r == s[|s| - |r|..] && AllSpaces(s[..|s| - |r|])
  {
    if |s| > 0 && IsSpace(s[0]) {
      DropSpacesSuffix(s[1..]);
      var r := DropSpaces(s[1..]);
      assert s[1..][..|s[1..]| - |r|] == s[1..|s| - |r|];
    }
  }

  /** Greedy optional digits: what is left after the leading decimal digits. */
  function DropDigits(s: string): (r: string)
    ensures |r| <= |s|
    ensures |r| == 0 || !IsDigit(r[0])
  {
    if |s| > 0 && IsDigit(s[0]) then DropDigits(s[1..]) else s
  }

  /** What DropDigits leaves is a suffix, and everything before it is a digit. */
  lemma {:induction false} DropDigitsSuffix(s: string)
    ensures var r := DropDigits(s); r == s[|s| - |r|..] && AllDigits(s[..|s| - |r|])
  {
    if |s| > 0 && IsDigit(s[0]) {
      DropDigitsSuffix(s[1..]);
      var r := DropDigits(s[1..]);
      assert s[1..][..|s[1..]| - |r|] == s[1..|s| - |r|];
    }
  }

  /** One literal character. */
  function Expect(s: string, c: char): (r: Option<string>)
    ensures r.Some? <==> |s| > 0 && s[0] == c
    ensures r.Some? ==> r.value == s[1..]
  {
    if |s| > 0 && s[0] == c then Some(s[1..]) else None
  }

  /** Optional white space, at least one digit, a '%' when `percent` holds, optional
      white space, then the character `close`. The scan is deterministic: none of these
      character classes overlaps the next one. */
  function NumberThen(s: string, percent: bool, close: char): Option<string>
  {
    var t := DropSpaces(s);
    if |t| == 0 || !IsDigit(t[0]) then None
    else
      var u := DropDigits(t);
      if percent && !(|u| > 0 && u[0] == '%') then None
      else Expect(DropSpaces(if percent then u[1..] else u), close)
  }

  /** A run of numbers as in `rgb(…)` or `hsl(…)`: one per entry of `percents` (which
      says whether that number carries '%'), separated by commas, the last one
      followed by `close`. */
  function Numbers(s: string, percents: seq<bool>, close: char): Option<string>
    requires |percents| > 0
    decreases |percents|
  {
    if |percents| == 1 then NumberThen(s, percents[0], close)
    else
      match NumberThen(s, percents[0], ',')
      case None => None
      case Some(rest) => Numbers(rest, percents[1..], close)
  }

  /** The alpha field and the closing parenthesis: optional white space, either at most
      one digit, a point and at least one digit, or at least one digit alone, then
      optional white space and ")". A digit run followed by '.' can only be the first
      alternative, so two or more digits before the point are rejected. */
  function AlphaThenClose(s: string): Option<string>
  {
    var t := DropSpaces(s);
    var u := DropDigits(t);
    var run := |t| - |u|;
    if |u| > 0 && u[0] == '.' then
      var w := u[1..];
      if run <= 1 && |w| > 0 && IsDigit(w[0]) then Expect(DropSpaces(DropDigits(w)), ')')
      else None
    else if run >= 1 then Expect(DropSpaces(u), ')')
    else None
  }

  predicate StartsWith(s: string, p: string) {
    |p| <= |s| && s[..|p|] == p
  }

  /** The hex pattern: '#' and then exactly 3, 4, 6 or 8 hexadecimal digits of either case. */
  predicate IsHexPattern(s: string) {
    |s| > 0 && s[0] == '#' && (|s| == 4 || |s| == 5 || |s| == 7 || |s| == 9) && AllHexDigits(s[1..])
  }

  /** The rgb pattern: "rgb(", three unsigned integers separated by commas, then ")",
      with optional white space around each integer. */
  predicate IsRgbPattern(s: string) {
    StartsWith(s, "rgb(") && Numbers(s[4..], [false, false, false], ')') == Some("")
  }

  /** The rgba pattern: "rgba(", three integers as in rgb, a comma, an alpha field, then ")". */
  predicate IsRgbaPattern(s: string) {
    StartsWith(s, "rgba(") &&
    match Numbers(s[5..], [false, false, false], ',')
    case None => false
    case Some(rest) => AlphaThenClose(rest) == Some("")
  }

  /** The hsl pattern: "hsl(", an integer, then two integers each directly followed by
      '%', separated by commas, then ")", with optional white space around the fields. */
  predicate IsHslPattern(s: string) {
    StartsWith(s, "hsl(") && Numbers(s[4..], [false, true, true], ')') == Some("")
  }

  /** The hsla pattern: "hsla(", the three fields of hsl, a comma, an alpha field, then ")". */
  predicate IsHslaPattern(s: string) {
    StartsWith(s, "hsla(") &&
    match Numbers(s[5..], [false, true, true], ',')
    case None => false
    case Some(rest) => AlphaThenClose(rest) == Some("")
  }

  /** `isValidColor(color)`: any of the five patterns. */
  predicate IsValidColor(s: string) {
    IsHexPattern(s) || IsRgbPattern(s) || IsRgbaPattern(s) || IsHslPattern(s) || IsHslaPattern(s)
  }

  // ---------------------------------------------------------------------------
  // Scanning concatenations

  /** The digit scan stops exactly where the digits end. */
  lemma {:induction false} DropDigitsConcat(d: string, r: string)
    requires AllDigits(d) && (|r| == 0 || !IsDigit(r[0]))
    ensures DropDigits(d + r) == r
  {
    if |d| > 0 {
      assert (d + r)[1..] == d[1..] + r;
      DropDigitsConcat(d[1..], r);
    }
  }

  /** A string starting with a character other than white space is left as it is by the
      white-space scan. */
  lemma NoLeadingSpace(s: string)
    requires |s| > 0 && !IsSpace(s[0])
    ensures DropSpaces(s) == s
  {
  }

  /** One number field with no white space around it. */
  lemma NumberField(d: string, percent: bool, close: char, rest: string)
    requires |d| > 0 && AllDigits(d)
    requires !IsDigit(close) && !IsSpace(close) && close != '%'
    ensures NumberThen(Field(d, percent) + [close] + rest, percent, close) == Some(rest)
  {
    var s := Field(d, percent) + [close] + rest;
    if percent {
      assert s == d + ("%" + [close] + rest);
      DropDigitsConcat(d, "%" + [close] + rest);
      assert ("%" + [close] + rest)[1..] == [close] + rest;
    } else {
      assert s == d + ([close] + rest);
      DropDigitsConcat(d, [close] + rest);
    }
    NoLeadingSpace(s);
    NoLeadingSpace([close] + rest);
  }

  /** A number field that lacks the '%' its pattern asks for. */
  lemma NumberFieldWithoutPercent(d: string, close: char, rest: string)
    requires |d| > 0 && AllDigits(d) && close != '%' && !IsDigit(close)
    ensures NumberThen(d + [close] + rest, true, close) == None
  {
    var s := d + ([close] + rest);
    assert s == d + [close] + rest;
    NoLeadingSpace(s);
    DropDigitsConcat(d, [close] + rest);
  }

  /** The first field of a run of numbers hands what follows its comma to the rest. */
  lemma NumbersStep(s: string, percents: seq<bool>, close: char, rest: string)
    requires |percents| > 1 && NumberThen(s, percents[0], ',') == Some(rest)
    ensures Numbers(s, percents, close) == Numbers(rest, percents[1..], close)
  {
  }

  /** A number field, written as its digits and '%' when the pattern asks for one. */
  function Field(d: string, percent: bool): string {
    if percent then d + "%" else d
  }

  /** Three comma-separated number fields, the last followed by `close`. */
  lemma ThreeFields(a: string, b: string, c: string, p1: bool, p2: bool, close: char, rest: string)
    requires |a| > 0 && AllDigits(a) && |b| > 0 && AllDigits(b) && |c| > 0 && AllDigits(c)
    requires !IsDigit(close) && !IsSpace(close) && close != '%'
    ensures Numbers(a + "," + Field(b, p1) + "," + Field(c, p2) + [close] + rest, [false, p1, p2], close) == Some(rest)
  {
    var r2 := Field(c, p2) + [close] + rest;
    var r1 := Field(b, p1) + "," + r2;
    var s := a + "," + Field(b, p1) + "," + Field(c, p2) + [close] + rest;
    assert s == Field(a, false) + [','] + r1;
    NumberField(a, false, ',', r1);
    NumbersStep(s, [false, p1, p2], close, r1);
    NumberField(b, p1, ',', r2);
    assert [false, p1, p2][1..] == [p1, p2];
    NumbersStep(r1, [p1, p2], close, r2);
    NumberField(c, p2, close, rest);
    assert [p1, p2][1..] == [p2];
  }

  // ---------------------------------------------------------------------------
  // What isValidColor accepts and rejects

  /** '#' and hexadecimal digits form a valid colour exactly when there are 3, 4, 6 or 8 digits. */
  lemma HexDigitCount(d: string)
    requires AllHexDigits(d)
    ensures IsValidColor("#" + d) <==> |d| == 3 || |d| == 4 || |d| == 6 || |d| == 8
  {
    var s := "#" + d;
    assert s[1..] == d;
    assert !StartsWith(s, "rgb(") && !StartsWith(s, "rgba(") && !StartsWith(s, "hsl(") && !StartsWith(s, "hsla(") by {
      assert s[0] == '#';
    }
  }

  /** `rgb(` with three comma-separated integers is accepted. */
  lemma RgbAccepted(a: string, b: string, c: string)
    requires |a| > 0 && AllDigits(a) && |b| > 0 && AllDigits(b) && |c| > 0 && AllDigits(c)
    ensures IsValidColor("rgb(" + a + "," + b + "," + c + ")")
  {
    var s := "rgb(" + a + "," + b + "," + c + ")";
    assert StartsWith(s, "rgb(");
    RgbFields(s[4..], a, b, c, ')', "");
  }

  /** `hsl(` is accepted with '%' after the second and third integers. */
  lemma HslAccepted(a: string, b: string, c: string)
    requires |a| > 0 && AllDigits(a) && |b| > 0 && AllDigits(b) && |c| > 0 && AllDigits(c)
    ensures IsValidColor("hsl(" + a + "," + b + "%," + c + "%)")
  {
    var s := "hsl(" + a + "," + b + "%," + c + "%)";
    assert StartsWith(s, "hsl(");
    HslFields(s[4..], a, b, c, ')', "");
  }

  /** `hsl(` without the '%' signs matches none of the five patterns. */
  lemma HslWithoutPercentRejected(a: string, b: string, c: string)
    requires |a| > 0 && AllDigits(a) && |b| > 0 && AllDigits(b) && |c| > 0 && AllDigits(c)
    ensures !IsValidColor("hsl(" + a + "," + b + "," + c + ")")
  {
    var t := a + "," + b + "," + c + ")";
    var s := "hsl(" + t;
    assert s == "hsl(" + a + "," + b + "," + c + ")";
    var r1 := b + [','] + (c + ")");
    assert Numbers(t, [false, true, true], ')') == None by {
      assert t == Field(a, false) + [','] + r1;
      NumberField(a, false, ',', r1);
      NumbersStep(t, [false, true, true], ')', r1);
      assert [false, true, true][1..] == [true, true];
      NumberFieldWithoutPercent(b, ',', c + ")");
    }
    assert s[..4] == "hsl(" && s[4..] == t;
    assert !IsHslPattern(s);
    assert s[0] == 'h' && s[3] == '(';
    assert !IsHexPattern(s);
    assert !IsRgbPattern(s) && !IsRgbaPattern(s) by {
      assert s[..4][0] == 'h' && s[..5][0] == 'h';
    }
    assert !IsHslaPattern(s) by {
      assert s[..5][3] == '(';
    }
  }

  /** An alpha field of digits alone. */
  lemma AlphaDigits(x: string, rest: string)
    requires |x| > 0 && AllDigits(x)
    ensures AlphaThenClose(x + ")" + rest) == Some(rest)
  {
    var s := x + (")" + rest);
    assert s == x + ")" + rest;
    NoLeadingSpace(s);
    DropDigitsConcat(x, ")" + rest);
    NoLeadingSpace(")" + rest);
  }

  /** An alpha field with a point: accepted exactly when at most one digit precedes it. */
  lemma AlphaFraction(p: string, f: string, rest: string)
    requires AllDigits(p) && |f| > 0 && AllDigits(f)
    ensures AlphaThenClose(p + "." + f + ")" + rest) == (if |p| <= 1 then Some(rest) else None)
  {
    var tail := "." + f + ")" + rest;
    var s := p + tail;
    assert s == p + "." + f + ")" + rest;
    var w := f + (")" + rest);
    assert DropSpaces(s) == s by {
      assert s[0] == '.' || IsDigit(s[0]);
      NoLeadingSpace(s);
    }
    assert DropDigits(s) == tail by {
      DropDigitsConcat(p, tail);
    }
    assert tail[0] == '.' && tail[1..] == w;
    assert DropSpaces(DropDigits(w)) == ")" + rest by {
      DropDigitsConcat(f, ")" + rest);
      NoLeadingSpace(")" + rest);
    }
  }

  /** The three integer fields of rgb and rgba, then `close`. */
  lemma RgbFields(s: string, a: string, b: string, c: string, close: char, rest: string)
    requires |a| > 0 && AllDigits(a) && |b| > 0 && AllDigits(b) && |c| > 0 && AllDigits(c)
    requires !IsDigit(close) && !IsSpace(close) && close != '%'
    requires s == a + "," + b + "," + c + [close] + rest
    ensures Numbers(s, [false, false, false], close) == Some(rest)
  {
    assert s == a + "," + Field(b, false) + "," + Field(c, false) + [close] + rest;
    ThreeFields(a, b, c, false, false, close, rest);
  }

  /** The three fields of hsl and hsla, then `close`. */
  lemma HslFields(s: string, a: string, b: string, c: string, close: char, rest: string)
    requires |a| > 0 && AllDigits(a) && |b| > 0 && AllDigits(b) && |c| > 0 && AllDigits(c)
    requires !IsDigit(close) && !IsSpace(close) && close != '%'
    requires s == a + "," + b + "%," + c + "%" + [close] + rest
    ensures Numbers(s, [false, true, true], close) == Some(rest)
  {
    assert s == a + "," + Field(b, true) + "," + Field(c, true) + [close] + rest;
    ThreeFields(a, b, c, true, true, close, rest);
  }

  /** `rgba(` with three integers and an alpha of digits alone is accepted. */
  lemma RgbaDigitsAccepted(a: string, b: string, c: string, x: string)
    requires |a| > 0 && AllDigits(a) && |b| > 0 && AllDigits(b) && |c| > 0 && AllDigits(c)
    requires |x| > 0 && AllDigits(x)
    ensures IsValidColor("rgba(" + a + "," + b + "," + c + "," + x + ")")
  {
    var rest := x + ")" + "";
    var t := a + "," + b + "," + c + "," + rest;
    var s := "rgba(" + t;
    assert s == "rgba(" + a + "," + b + "," + c + "," + x + ")";
    RgbFields(t, a, b, c, ',', rest);
    AlphaDigits(x, "");
    assert s[..5] == "rgba(" && s[5..] == t;
    assert IsRgbaPattern(s);
  }

  /** `rgba(` with a fractional alpha `p.f` is a valid colour exactly when `p` has at most
      one digit: "0.5" and ".5" pass, "12.5" does not. */
  lemma RgbaFractionAlpha(a: string, b: string, c: string, p: string, f: string)
    requires |a| > 0 && AllDigits(a) && |b| > 0 && AllDigits(b) && |c| > 0 && AllDigits(c)
    requires AllDigits(p) && |f| > 0 && AllDigits(f)
    ensures IsValidColor("rgba(" + a + "," + b + "," + c + "," + p + "." + f + ")") <==> |p| <= 1
  {
    var t := a + "," + b + "," + c + "," + p + "." + f + ")";
    var s := "rgba(" + t;
    assert s == "rgba(" + a + "," + b + "," + c + "," + p + "." + f + ")";
    var rest := p + "." + f + ")" + "";
    assert Numbers(t, [false, false, false], ',') == Some(rest) by {
      RgbFields(t, a, b, c, ',', rest);
    }
    AlphaFraction(p, f, "");
    assert s[..5] == "rgba(" && s[5..] == t;
    assert IsRgbaPattern(s) <==> |p| <= 1;
    assert s[0] == 'r' && s[3] == 'a';
    assert !IsHexPattern(s);
    assert !IsRgbPattern(s) by {
      assert s[..4][3] == 'a';
    }
    assert !IsHslPattern(s) by {
      assert s[..4][0] == 'r';
    }
    assert !IsHslaPattern(s) by {
      assert s[..5][0] == 'r';
    }
  }

  /** `hsla(` with the fields of hsl and a digit alpha is accepted. */
  lemma HslaDigitsAccepted(a: string, b: string, c: string, x: string)
    requires |a| > 0 && AllDigits(a) && |b| > 0 && AllDigits(b) && |c| > 0 && AllDigits(c)
    requires |x| > 0 && AllDigits(x)
    ensures IsValidColor("hsla(" + a + "," + b + "%," + c + "%," + x + ")")
  {
    var rest := x + ")" + "";
    var t := a + "," + b + "%," + c + "%," + rest;
    var s := "hsla(" + t;
    assert s == "hsla(" + a + "," + b + "%," + c + "%," + x + ")";
    HslFields(t, a, b, c, ',', rest);
    AlphaDigits(x, "");
    assert s[..5] == "hsla(" && s[5..] == t;
    assert IsHslaPattern(s);
  }
}
