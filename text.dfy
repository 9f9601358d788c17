/** The string operations the colour code uses: hexadecimal digits as `parseInt(…, 16)`
    reads them, `Number.prototype.toString(radix)` and `Array.prototype.join`; and
    `Split` on a one-character separator, which the code does not call: it is the
    partner of `Join`, used to read a joined text back into its lines. */
module Text {

  predicate IsDigit(c: char) {
    '0' <= c <= '9'
  }

  /** A digit `parseInt(…, 16)` and the `[A-Fa-f0-9]` character class accept. */
  predicate IsHexDigit(c: char) {
    '0' <= c <= '9' || 'a' <= c <= 'f' || 'A' <= c <= 'F'
  }

  /** A digit as `toString(16)` writes it: letters in lower case. */
  predicate IsLowerHexDigit(c: char) {
    '0' <= c <= '9' || 'a' <= c <= 'f'
  }

  /** The value of a hexadecimal digit of either case. */
  function HexDigitValue(c: char): (v: nat)
    requires IsHexDigit(c)
    ensures v < 16
    ensures IsDigit(c) ==> v < 10
  {
    if '0' <= c <= '9' then c as int - '0' as int
    else if 'a' <= c <= 'f' then c as int - 'a' as int + 10
    else c as int - 'A' as int + 10
  }

  /** The lower-case digit character of a value below 16: the inverse of HexDigitValue. */
  function DigitChar(d: nat): (c: char)
    requires d < 16
    ensures IsLowerHexDigit(c) && HexDigitValue(c) == d
    ensures d < 10 <==> IsDigit(c)
  {
    if d < 10 then ('0' as int + d) as char else ('a' as int + d - 10) as char
  }

  /** Each lower-case digit is the digit character of its own value, so lower-case
      digit strings are determined by their values. */
  lemma DigitCharOfValue(c: char)
    requires IsLowerHexDigit(c)
    ensures DigitChar(HexDigitValue(c)) == c
  {
  }

  /** The lower-case spelling of a hexadecimal digit. */
  function LowerHexDigit(c: char): (d: char)
    requires IsHexDigit(c)
    ensures IsLowerHexDigit(d) && HexDigitValue(d) == HexDigitValue(c)
    ensures IsLowerHexDigit(c) ==> d == c
  {
    DigitCharOfValue(if IsLowerHexDigit(c) then c else '0');
    DigitChar(HexDigitValue(c))
  }

  /** The number a string of digits in base `radix` denotes, most significant digit first. */
  function DigitsValue(s: string, radix: nat): nat
    requires forall k :: 0 <= k < |s| ==> IsHexDigit(s[k])
  {
    if s == [] then 0 else DigitsValue(s[..|s| - 1], radix) * radix + HexDigitValue(s[|s| - 1])
  }

  /** `n.toString(radix)` for a non-negative integer: its digits in base `radix`, most
      significant first, in lower case. */
  function NatToString(n: nat, radix: nat): (s: string)
    requires 2 <= radix <= 16
    ensures 1 <= |s|
    ensures forall k :: 0 <= k < |s| ==> IsLowerHexDigit(s[k]) && HexDigitValue(s[k]) < radix
    decreases n
  {
    if n < radix then [DigitChar(n)]
    else
      DivideByRadix(n, radix);
      NatToString(n / radix, radix) + [DigitChar(n % radix)]
  }

  /** Euclidean division by the radix. */
  lemma DivideByRadix(n: nat, radix: nat)
    requires 2 <= radix <= 16 && radix <= n
    ensures 1 <= n / radix < n && n % radix < radix
    ensures (n / radix) * radix + n % radix == n
  {
  }

  /** The digits NatToString writes denote `n` and have no leading zero. */
  lemma {:induction false} NatToStringValue(n: nat, radix: nat)
    requires 2 <= radix <= 16
    ensures DigitsValue(NatToString(n, radix), radix) == n
    ensures |NatToString(n, radix)| == 1 || NatToString(n, radix)[0] != '0'
    decreases n
  {
    if n >= radix {
      var q, d := n / radix, n % radix;
      DivideByRadix(n, radix);
      var init := NatToString(q, radix);
      NatToStringValue(q, radix);
      var s := init + [DigitChar(d)];
      assert s == NatToString(n, radix);
      assert s[..|s| - 1] == init;
      assert DigitsValue(s, radix) == DigitsValue(init, radix) * radix + d;
    }
  }

  /** `n.toString(radix)` for any integer: a minus sign in front of a negative number,
      and only there; the rest is the digits of its magnitude. */
  function IntToString(n: int, radix: nat): (s: string)
    requires 2 <= radix <= 16
    ensures 1 <= |s| && (s[0] == '-' <==> n < 0)
    ensures n < 0 ==> 2 <= |s|
  {
    if n < 0 then "-" + NatToString(-n, radix) else NatToString(n, radix)
  }

  /** `xs.join(sep)`. */
  function Join(xs: seq<string>, sep: string): string
  {
    if |xs| == 0 then ""
    else if |xs| == 1 then xs[0]
    else xs[0] + sep + Join(xs[1..], sep)
  }

  /** The maximal pieces of `s` between occurrences of `c` (as `s.split(c)` would give
      them, an empty string splitting into one empty piece): the reference for reading
      a joined text back. */
  function Split(s: string, c: char): (pieces: seq<string>)
    ensures 1 <= |pieces|
    ensures forall k :: 0 <= k < |pieces| ==> c !in pieces[k]
  {
    if |s| == 0 then [""]
    else
      var rest := Split(s[1..], c);
      if s[0] == c then [""] + rest else [[s[0]] + rest[0]] + rest[1..]
  }

  /** A string without the separator is a single piece. */
  lemma {:induction false} SplitNoSeparator(a: string, c: char)
    requires c !in a
    ensures Split(a, c) == [a]
  {
    if |a| > 0 {
      SplitNoSeparator(a[1..], c);
      assert [a[0]] + a[1..] == a;
    }
  }

  /** A separator ends the first piece. */
  lemma {:induction false} SplitAtSeparator(a: string, c: char, b: string)
    requires c !in a
    ensures Split(a + [c] + b, c) == [a] + Split(b, c)
  {
    if |a| == 0 {
      assert a + [c] + b == [c] + b;
      assert ([c] + b)[1..] == b;
    } else {
      var s := a + [c] + b;
      assert s[1..] == a[1..] + [c] + b;
      SplitAtSeparator(a[1..], c, b);
      assert [a[0]] + a[1..] == a;
    }
  }

  /** Splitting undoes joining, when no joined piece contains the separator. */
  lemma {:induction false} SplitJoin(xs: seq<string>, c: char)
    requires 1 <= |xs|
    requires forall k :: 0 <= k < |xs| ==> c !in xs[k]
    ensures Split(Join(xs, [c]), c) == xs
  {
    if |xs| == 1 {
      SplitNoSeparator(xs[0], c);
    } else {
      SplitJoin(xs[1..], c);
      SplitAtSeparator(xs[0], c, Join(xs[1..], [c]));
      assert [xs[0]] + xs[1..] == xs;
    }
  }
}
