/** The two texts the page of app/page.tsx puts on the clipboard for a scheme: all
    colours separated by commas, and the colours as CSS custom properties. */
module HomePage {
  import opened Text
  import opened ColorUtils

  /** `colorScheme.colors.join(', ')`, the text "copy all" writes. */
  function CopyAllText(colors: seq<string>): string
  {
    Join(colors, ", ")
  }

  /** With canonical colours the text has a fixed layout: colour `k` occupies the seven
      characters from `9 * k`, and a comma and a space follow every colour but the last. */
  lemma {:induction false} CopyAllLayout(colors: seq<string>)
    requires 1 <= |colors| && forall k :: 0 <= k < |colors| ==> IsCanonicalHex(colors[k])
    ensures |CopyAllText(colors)| == 9 * |colors| - 2
    ensures forall k :: 0 <= k < |colors| ==> CopyAllText(colors)[9 * k .. 9 * k + 7] == colors[k]
    ensures forall k :: 0 <= k < |colors| - 1 ==> CopyAllText(colors)[9 * k + 7 .. 9 * k + 9] == ", "
  {
    if |colors| > 1 {
      var rest := colors[1..];
      CopyAllLayout(rest);
      var t := CopyAllText(colors);
      var r := CopyAllText(rest);
      assert t == colors[0] + ", " + r;
      forall k | 0 <= k < |colors|
        ensures t[9 * k .. 9 * k + 7] == colors[k]
      {
        if k > 0 {
          assert t[9 * k .. 9 * k + 7] == r[9 * (k - 1) .. 9 * (k - 1) + 7];
          assert colors[k] == rest[k - 1];
        }
      }
      forall k | 0 <= k < |colors| - 1
        ensures t[9 * k + 7 .. 9 * k + 9] == ", "
      {
        if k > 0 {
          assert t[9 * k + 7 .. 9 * k + 9] == r[9 * (k - 1) + 7 .. 9 * (k - 1) + 9];
        }
      }
    }
  }

  /** `--color-${index + 1}: ${color};`, the CSS declaration of colour `index`. */
  function CssLine(index: nat, color: string): string
  {
    "--color-" + IntToString(index + 1, 10) + ": " + color + ";"
  }

  /** One declaration per colour, numbered from 1. */
  function CssLines(colors: seq<string>): (lines: seq<string>)
    ensures |lines| == |colors|
  {
    seq(|colors|, i requires 0 <= i < |colors| => CssLine(i, colors[i]))
  }

  /** `:root {\n${cssVars}\n}` with the declarations joined by newlines, the text "copy
      as CSS variables" writes. */
  function CssVariables(colors: seq<string>): string
  {
    ":root {\n" + Join(CssLines(colors), "\n") + "\n}"
  }

  /** A declaration names the property after the colour's position counted from 1, in
      decimal without leading zeros, and holds no newline when the colour holds none. */
  lemma CssLineNumber(index: nat, color: string)
    requires '\n' !in color
    ensures var digits := NatToString(index + 1, 10);
            CssLine(index, color) == "--color-" + digits + ": " + color + ";" &&
            DigitsValue(digits, 10) == index + 1 && (|digits| == 1 || digits[0] != '0')
    ensures '\n' !in CssLine(index, color)
  {
    var digits := NatToString(index + 1, 10);
    NatToStringValue(index + 1, 10);
    assert '\n' !in digits by {
      assert forall k :: 0 <= k < |digits| ==> IsLowerHexDigit(digits[k]);
    }
    assert '\n' !in "--color-" && '\n' !in ": " && '\n' !in ";";
  }

  /** Joining pieces and appending a separator and a tail splits back into the pieces
      followed by the pieces of the tail. */
  lemma {:induction false} SplitJoinThen(xs: seq<string>, c: char, tail: string)
    requires 1 <= |xs| && forall k :: 0 <= k < |xs| ==> c !in xs[k]
    ensures Split(Join(xs, [c]) + [c] + tail, c) == xs + Split(tail, c)
  {
    var x0 := xs[0];
    if |xs| == 1 {
      assert Join(xs, [c]) == x0;
      SplitAtSeparator(x0, c, tail);
      assert [x0] == xs;
    } else {
      var rest := Join(xs[1..], [c]);
      var u := rest + [c] + tail;
      assert Join(xs, [c]) + [c] + tail == x0 + [c] + u by {
        assert Join(xs, [c]) == x0 + [c] + rest;
      }
      SplitAtSeparator(x0, c, u);
      SplitJoinThen(xs[1..], c, tail);
      var pieces := Split(tail, c);
      assert [x0] + (xs[1..] + pieces) == ([x0] + xs[1..]) + pieces;
      assert [x0] + xs[1..] == xs;
    }
  }

  /** Read line by line, the CSS text is the `:root {` opening, one declaration per
      colour (a single empty line when there are no colours) and the closing brace. */
  lemma CssVariablesLines(colors: seq<string>)
    requires forall k :: 0 <= k < |colors| ==> '\n' !in colors[k]
    ensures Split(CssVariables(colors), '\n')
            == [":root {"] + (if |colors| == 0 then [""] else CssLines(colors)) + ["}"]
  {
    var lines := CssLines(colors);
    var body := Join(lines, "\n");
    var css := CssVariables(colors);
    assert css == ":root {" + ['\n'] + (body + ['\n'] + "}");
    SplitAtSeparator(":root {", '\n', body + ['\n'] + "}");
    SplitNoSeparator("}", '\n');
    if |colors| == 0 {
      assert body + ['\n'] + "}" == "" + ['\n'] + "}";
      SplitAtSeparator("", '\n', "}");
    } else {
      forall k | 0 <= k < |lines|
        ensures '\n' !in lines[k]
      {
        CssLineNumber(k, colors[k]);
      }
      SplitJoinThen(lines, '\n', "}");
    }
  }
}
