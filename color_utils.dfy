/** The colour conversions of utils/colorUtils.ts: `#RRGGBB` to HSL and back, the
    black-or-white text colour for a background, and the monochromatic palette. */
module ColorUtils {
  import opened JsMath
  import opened Text

  /** A colour in HSL: hue in degrees, saturation and lightness in percent. */
  datatype Hsl = Hsl(h: real, s: real, l: real)

  /** A colour's red, green and blue channels, each scaled to [0, 1]. */
  datatype Rgb = Rgb(r: real, g: real, b: real)

  predicate InUnit(x: real) {
    0.0 <= x <= 1.0
  }

  /** The HSL ranges hexToHSL produces: hue in [0, 360), saturation and lightness in [0, 100]. */
  predicate InHslRange(h: real, s: real, l: real) {
    0.0 <= h < 360.0 && 0.0 <= s <= 100.0 && 0.0 <= l <= 100.0
  }

  // ---------------------------------------------------------------------------
  // hexToHSL

  /** `hex.replace(/^#/, '')`: one leading '#' is dropped. The result is either the input
      itself or the input less a single '#' in front, and the input is left unchanged
      exactly when it does not start with '#'. */
  function StripHash(hex: string): (t: string)
    ensures hex == "#" + t <==> (|hex| > 0 && hex[0] == '#')
    ensures t == hex <==> !(|hex| > 0 && hex[0] == '#')
  {
    if |hex| > 0 && hex[0] == '#' then hex[1..] else hex
  }

  /** The input on which hexToHSL computes a number for every channel: an optional
      '#', then six hexadecimal digits (anything after them is never read). */
  predicate WellFormedHex(hex: string) {
    var t := StripHash(hex);
    6 <= |t| && forall k :: 0 <= k < 6 ==> IsHexDigit(t[k])
  }

  /** Channel `k` (0 red, 1 green, 2 blue) as `parseInt(hex.substring(2k, 2k + 2), 16)` reads it. */
  function Channel(hex: string, k: nat): (v: nat)
    requires WellFormedHex(hex) && k < 3
    ensures v < 256
    ensures var t := StripHash(hex); v == 16 * HexDigitValue(t[2 * k]) + HexDigitValue(t[2 * k + 1])
  {
    var t := StripHash(hex);
    var pair := t[2 * k..2 * k + 2];
    assert pair[..1] == [t[2 * k]] && pair[..1][..0] == [];
    assert DigitsValue(pair[..1], 16) == HexDigitValue(t[2 * k]);
    DigitsValue(pair, 16)
  }

  function Max3(a: real, b: real, c: real): (m: real)
    ensures a <= m && b <= m && c <= m && (m == a || m == b || m == c)
  {
    Max(Max(a, b), c)
  }

  function Min3(a: real, b: real, c: real): (m: real)
    ensures m <= a && m <= b && m <= c && (m == a || m == b || m == c)
  {
    Min(Min(a, b), c)
  }

  /** The sign of a product with a positive factor is the sign of the other factor. */
  lemma PositiveFactor(d: real, y: real)
    requires 0.0 < d
    ensures 0.0 < d * y ==> 0.0 < y
    ensures 0.0 <= d * y ==> 0.0 <= y
  {
  }

  /** Bounds on a quotient `a / d` whose numerator lies within the positive denominator. */
  lemma Ratio(a: real, d: real)
    requires 0.0 < d && -d <= a <= d
    ensures d * (a / d) == a
    ensures -1.0 <= a / d <= 1.0
    ensures a < d ==> a / d < 1.0
    ensures -d < a ==> -1.0 < a / d
    ensures 0.0 <= a ==> 0.0 <= a / d
    ensures 0.0 < a ==> 0.0 < a / d
    ensures a < 0.0 ==> a / d < 0.0
  {
    var x := a / d;
    assert d * x == a;
    assert d * (x + 1.0) == a + d;
    PositiveFactor(d, x + 1.0);
    assert d * (1.0 - x) == d - a;
    PositiveFactor(d, 1.0 - x);
    PositiveFactor(d, x);
    PositiveFactor(d, -x);
  }

  /** A quotient of a non-negative number by a positive one is non-negative. */
  lemma QuotientSign(a: real, d: real)
    requires 0.0 <= a && 0.0 < d
    ensures 0.0 <= a / d
  {
    PositiveFactor(d, a / d);
  }

  /** A product of a non-negative number and a factor in [0, 1] lies between 0 and the number. */
  lemma ProductBounds(a: real, x: real)
    requires 0.0 <= a && 0.0 <= x <= 1.0
    ensures 0.0 <= a * x <= a
  {
    assert a * (1.0 - x) == a - a * x;
    PositiveFactor2(a, 1.0 - x);
  }

  lemma PositiveFactor2(a: real, y: real)
    requires 0.0 <= a && 0.0 <= y
    ensures 0.0 <= a * y
  {
  }

  /** The hue in sixths of a turn, as the `switch (max)` computes it before `h /= 6`:
      the first channel (in the order red, green, blue) equal to the maximum decides. */
  function HueSixths(r: real, g: real, b: real): (x: real)
    requires InUnit(r) && InUnit(g) && InUnit(b)
    requires Max3(r, g, b) != Min3(r, g, b)
    ensures 0.0 <= x < 6.0
  {
    var max := Max3(r, g, b);
    var d := max - Min3(r, g, b);
    if max == r then
      Ratio(g - b, d);
      (g - b) / d + (if g < b then 6.0 else 0.0)
    else if max == g then
      Ratio(b - r, d);
      (b - r) / d + 2.0
    else
      Ratio(r - g, d);
      (r - g) / d + 4.0
  }

  /** The saturation of a chromatic colour in [0, 1], from its extreme channels. */
  function Saturation(max: real, min: real): (s: real)
    requires 0.0 <= min < max <= 1.0
    ensures 0.0 < s <= 1.0
  {
    var d := max - min;
    var l := (max + min) / 2.0;
    if l > 0.5 then
      Ratio(d, 2.0 - max - min);
      d / (2.0 - max - min)
    else
      Ratio(d, max + min);
      d / (max + min)
  }

  /** The HSL of three channels in [0, 1] (utils/colorUtils.ts, lines 17-33). */
  function RgbToHsl(r: real, g: real, b: real): (c: Hsl)
    requires InUnit(r) && InUnit(g) && InUnit(b)
    ensures InHslRange(c.h, c.s, c.l)
  {
    var max := Max3(r, g, b);
    var min := Min3(r, g, b);
    var l := (max + min) / 2.0;
    if max == min then Hsl(0.0, 0.0, l * 100.0)
    else Hsl(HueSixths(r, g, b) / 6.0 * 360.0, Saturation(max, min) * 100.0, l * 100.0)
  }

  /** `hexToHSL(hex)`: parse the three channels, scale them by 1/255 and convert. */
  function HexToHsl(hex: string): (c: Hsl)
    requires WellFormedHex(hex)
    ensures InHslRange(c.h, c.s, c.l)
  {
    RgbToHsl(Channel(hex, 0) as real / 255.0, Channel(hex, 1) as real / 255.0, Channel(hex, 2) as real / 255.0)
  }

  // ---------------------------------------------------------------------------
  // hslToHex

  /** The `hue2rgb` helper: one channel of a colour whose channels range over [p, q],
      at the position `t` (in turns) on the colour wheel. */
  function Hue2Rgb(p: real, q: real, t: real): real
  {
    var t1 := if t < 0.0 then t + 1.0 else t;
    var t2 := if t1 > 1.0 then t1 - 1.0 else t1;
    if t2 < 1.0 / 6.0 then p + (q - p) * 6.0 * t2
    else if t2 < 1.0 / 2.0 then q
    else if t2 < 2.0 / 3.0 then p + (q - p) * (2.0 / 3.0 - t2) * 6.0
    else p
  }

  /** The upper channel bound `q` of hslToHex, for lightness and saturation in [0, 1]. */
  function UpperChannel(l: real, s: real): real
  {
    if l < 0.5 then l * (1.0 + s) else l + s - l * s
  }

  /** The channels of an HSL colour, each in [0, 1] when the inputs are in range
      (utils/colorUtils.ts, lines 44-68). */
  function HslToRgb(h: real, s: real, l: real): (c: Rgb)
  {
    var h' := h / 360.0;
    var s' := s / 100.0;
    var l' := l / 100.0;
    if s' == 0.0 then Rgb(l', l', l')
    else
      var q := UpperChannel(l', s');
      var p := 2.0 * l' - q;
      Rgb(Hue2Rgb(p, q, h' + 1.0 / 3.0), Hue2Rgb(p, q, h'), Hue2Rgb(p, q, h' - 1.0 / 3.0))
  }

  /** The `toHex` helper: `Math.round(x * 255).toString(16)`, padded with a '0' to two
      characters when it has only one. */
  function ToHex(x: real): string
  {
    var hex := IntToString(Round(x * 255.0), 16);
    if |hex| == 1 then "0" + hex else hex
  }

  /** `hslToHex(h, s, l)`. */
  function HslToHex(h: real, s: real, l: real): string
  {
    RgbToHex(HslToRgb(h, s, l))
  }

  /** The string hslToHex returns for its computed channels: `#` and each channel through toHex. */
  function RgbToHex(c: Rgb): string
  {
    "#" + ToHex(c.r) + ToHex(c.g) + ToHex(c.b)
  }

  // ---------------------------------------------------------------------------
  // Round trip: hslToHex undoes hexToHSL

  /** The `q` hslToHex derives from a computed lightness and saturation is the
      largest channel again. */
  lemma UpperChannelOfSaturation(max: real, min: real)
    requires 0.0 <= min < max <= 1.0
    ensures UpperChannel((max + min) / 2.0, Saturation(max, min)) == max
  {
    var l := (max + min) / 2.0;
    if l > 0.5 {
      UpperChannelLight(max, min, l, Saturation(max, min));
    } else {
      UpperChannelDark(max, min, l, Saturation(max, min));
    }
  }

  /** UpperChannelOfSaturation for a lightness above one half. */
  lemma UpperChannelLight(max: real, min: real, l: real, s: real)
    requires 0.0 <= min < max <= 1.0 && l == (max + min) / 2.0 && l > 0.5
    requires s == (max - min) / (2.0 - max - min)
    ensures l + s - l * s == max
  {
    var e := 2.0 - max - min;
    assert s * e == max - min;
    assert l * s == s - s * e / 2.0;
  }

  /** UpperChannelOfSaturation for a lightness of at most one half. */
  lemma UpperChannelDark(max: real, min: real, l: real, s: real)
    requires 0.0 <= min < max <= 1.0 && l == (max + min) / 2.0 && l <= 0.5
    requires s == (max - min) / (max + min)
    ensures UpperChannel(l, s) == max
  {
    assert (max + min) * s == max - min;
  }

  // One lemma per sector of the colour wheel: which channel is largest, which is
  // smallest, and `x` the quotient the switch computes (so `(max - min) * x` is the
  // difference of the two other channels).

  lemma RedMaxGreenAboveBlue(r: real, g: real, b: real, x: real)
    requires b <= g <= r && b < r && (r - b) * x == g - b && 0.0 <= x <= 1.0
    ensures Hue2Rgb(b, r, x / 6.0 + 1.0 / 3.0) == r
    ensures Hue2Rgb(b, r, x / 6.0) == g
    ensures Hue2Rgb(b, r, x / 6.0 - 1.0 / 3.0) == b
  {
    if x == 1.0 {
      assert g == r;
    }
  }

  lemma RedMaxBlueAboveGreen(r: real, g: real, b: real, x: real)
    requires g < b <= r && (r - g) * x == g - b && -1.0 <= x < 0.0
    ensures Hue2Rgb(g, r, (x + 6.0) / 6.0 + 1.0 / 3.0) == r
    ensures Hue2Rgb(g, r, (x + 6.0) / 6.0) == g
    ensures Hue2Rgb(g, r, (x + 6.0) / 6.0 - 1.0 / 3.0) == b
  {
  }

  lemma GreenMaxRedAboveBlue(r: real, g: real, b: real, x: real)
    requires b <= r < g && (g - b) * x == b - r && -1.0 < x <= 0.0
    ensures Hue2Rgb(b, g, (x + 2.0) / 6.0 + 1.0 / 3.0) == r
    ensures Hue2Rgb(b, g, (x + 2.0) / 6.0) == g
    ensures Hue2Rgb(b, g, (x + 2.0) / 6.0 - 1.0 / 3.0) == b
  {
    if x == 0.0 {
      assert b == r;
    }
  }

  lemma GreenMaxBlueAboveRed(r: real, g: real, b: real, x: real)
    requires r < b <= g && (g - r) * x == b - r && 0.0 < x <= 1.0
    ensures Hue2Rgb(r, g, (x + 2.0) / 6.0 + 1.0 / 3.0) == r
    ensures Hue2Rgb(r, g, (x + 2.0) / 6.0) == g
    ensures Hue2Rgb(r, g, (x + 2.0) / 6.0 - 1.0 / 3.0) == b
  {
    if x == 1.0 {
      assert b == g;
    }
  }

  lemma BlueMaxGreenAboveRed(r: real, g: real, b: real, x: real)
    requires r <= g < b && (b - r) * x == r - g && -1.0 < x <= 0.0
    ensures Hue2Rgb(r, b, (x + 4.0) / 6.0 + 1.0 / 3.0) == r
    ensures Hue2Rgb(r, b, (x + 4.0) / 6.0) == g
    ensures Hue2Rgb(r, b, (x + 4.0) / 6.0 - 1.0 / 3.0) == b
  {
    if x == 0.0 {
      assert r == g;
    }
  }

  lemma BlueMaxRedAboveGreen(r: real, g: real, b: real, x: real)
    requires g < r < b && (b - g) * x == r - g && 0.0 < x < 1.0
    ensures Hue2Rgb(g, b, (x + 4.0) / 6.0 + 1.0 / 3.0) == r
    ensures Hue2Rgb(g, b, (x + 4.0) / 6.0) == g
    ensures Hue2Rgb(g, b, (x + 4.0) / 6.0 - 1.0 / 3.0) == b
  {
  }

  lemma RedMaxChannels(r: real, g: real, b: real)
    requires InUnit(r) && InUnit(g) && InUnit(b)
    requires Max3(r, g, b) != Min3(r, g, b)
    requires Max3(r, g, b) == r
    ensures var max, min := Max3(r, g, b), Min3(r, g, b);
            var h := HueSixths(r, g, b) / 6.0;
            Hue2Rgb(min, max, h + 1.0 / 3.0) == r &&
            Hue2Rgb(min, max, h) == g &&
            Hue2Rgb(min, max, h - 1.0 / 3.0) == b
  {
    var min := Min3(r, g, b);
    var d := r - min;
    var x := (g - b) / d;
    Ratio(g - b, d);
    if g < b {
      assert min == g;
      assert (r - g) * x == g - b;
      assert HueSixths(r, g, b) == x + 6.0;
      RedMaxBlueAboveGreen(r, g, b, x);
    } else {
      assert min == b;
      assert (r - b) * x == g - b;
      assert HueSixths(r, g, b) == x;
      RedMaxGreenAboveBlue(r, g, b, x);
    }
  }

  lemma GreenMaxChannels(r: real, g: real, b: real)
    requires InUnit(r) && InUnit(g) && InUnit(b)
    requires Max3(r, g, b) != Min3(r, g, b)
    requires Max3(r, g, b) == g != r
    ensures var max, min := Max3(r, g, b), Min3(r, g, b);
            var h := HueSixths(r, g, b) / 6.0;
            Hue2Rgb(min, max, h + 1.0 / 3.0) == r &&
            Hue2Rgb(min, max, h) == g &&
            Hue2Rgb(min, max, h - 1.0 / 3.0) == b
  {
    var min := Min3(r, g, b);
    var d := g - min;
    var x := (b - r) / d;
    Ratio(b - r, d);
    assert HueSixths(r, g, b) == x + 2.0;
    if b <= r {
      assert min == b;
      assert (g - b) * x == b - r;
      GreenMaxRedAboveBlue(r, g, b, x);
    } else {
      assert min == r;
      assert (g - r) * x == b - r;
      GreenMaxBlueAboveRed(r, g, b, x);
    }
  }

  lemma BlueMaxChannels(r: real, g: real, b: real)
    requires InUnit(r) && InUnit(g) && InUnit(b)
    requires Max3(r, g, b) != Min3(r, g, b)
    requires Max3(r, g, b) == b != r && b != g
    ensures var max, min := Max3(r, g, b), Min3(r, g, b);
            var h := HueSixths(r, g, b) / 6.0;
            Hue2Rgb(min, max, h + 1.0 / 3.0) == r &&
            Hue2Rgb(min, max, h) == g &&
            Hue2Rgb(min, max, h - 1.0 / 3.0) == b
  {
    var min := Min3(r, g, b);
    var d := b - min;
    var x := (r - g) / d;
    Ratio(r - g, d);
    assert HueSixths(r, g, b) == x + 4.0;
    if r <= g {
      assert min == r;
      assert (b - r) * x == r - g;
      BlueMaxGreenAboveRed(r, g, b, x);
    } else {
      assert min == g;
      assert (b - g) * x == r - g;
      BlueMaxRedAboveGreen(r, g, b, x);
    }
  }

  /** Channel by channel, hue2rgb recovers red, green and blue from the hue in sixths
      of a turn and the extreme channels of a chromatic colour. */
  lemma SectorChannels(r: real, g: real, b: real)
    requires InUnit(r) && InUnit(g) && InUnit(b)
    requires Max3(r, g, b) != Min3(r, g, b)
    ensures var max, min := Max3(r, g, b), Min3(r, g, b);
            var h := HueSixths(r, g, b) / 6.0;
            Hue2Rgb(min, max, h + 1.0 / 3.0) == r &&
            Hue2Rgb(min, max, h) == g &&
            Hue2Rgb(min, max, h - 1.0 / 3.0) == b
  {
    var max := Max3(r, g, b);
    if max == r {
      RedMaxChannels(r, g, b);
    } else if max == g {
      GreenMaxChannels(r, g, b);
    } else {
      BlueMaxChannels(r, g, b);
    }
  }

  /** hslToHex's channel computation inverts hexToHSL's, exactly: converting channels
      in [0, 1] to HSL and back gives the same channels. */
  lemma RgbRoundTrip(r: real, g: real, b: real)
    requires InUnit(r) && InUnit(g) && InUnit(b)
    ensures var c := RgbToHsl(r, g, b); HslToRgb(c.h, c.s, c.l) == Rgb(r, g, b)
  {
    var max, min := Max3(r, g, b), Min3(r, g, b);
    var c := RgbToHsl(r, g, b);
    if max != min {
      var h := HueSixths(r, g, b) / 6.0;
      var s, l := Saturation(max, min), (max + min) / 2.0;
      assert c.h / 360.0 == h && c.s / 100.0 == s && c.l / 100.0 == l;
      UpperChannelOfSaturation(max, min);
      assert 2.0 * l - UpperChannel(l, s) == min;
      SectorChannels(r, g, b);
    }
  }

  // ---------------------------------------------------------------------------
  // The shape of hslToHex's output

  /** `#` and exactly six lower-case hexadecimal digits. */
  predicate IsCanonicalHex(x: string) {
    |x| == 7 && x[0] == '#' && forall k :: 1 <= k < 7 ==> IsLowerHexDigit(x[k])
  }

  /** Every canonical colour is an input hexToHSL reads in full. */
  lemma CanonicalIsWellFormed(x: string)
    requires IsCanonicalHex(x)
    ensures WellFormedHex(x) && StripHash(x) == x[1..]
  {
  }

  /** A channel value 0..255 as two lower-case hexadecimal digits, most significant
      first: the reference meaning of toHex. */
  function ByteHex(n: nat): (t: string)
    requires n < 256
    ensures |t| == 2 && IsLowerHexDigit(t[0]) && IsLowerHexDigit(t[1])
    ensures 16 * HexDigitValue(t[0]) + HexDigitValue(t[1]) == n
  {
    [DigitChar(n / 16), DigitChar(n % 16)]
  }

  /** toHex writes a rounded channel value 0..255 as exactly two digits: `toString(16)`
      gives one or two, and one is padded with '0'. */
  lemma ToHexByte(x: real)
    requires 0.0 <= x * 255.0 < 255.5
    ensures 0 <= Round(x * 255.0) <= 255
    ensures ToHex(x) == ByteHex(Round(x * 255.0))
  {
    var n := Round(x * 255.0);
    if n >= 16 {
      assert NatToString(n, 16) == NatToString(n / 16, 16) + [DigitChar(n % 16)];
    }
  }

  /** The bounds `p` and `q` of hslToHex satisfy 0 <= p <= q <= 1. */
  lemma ChannelRange(l: real, s: real)
    requires InUnit(l) && InUnit(s)
    ensures var q := UpperChannel(l, s); 0.0 <= 2.0 * l - q <= q <= 1.0
  {
    if l < 0.5 {
      ProductBounds(l, s);
    } else {
      ProductBounds(1.0 - l, s);
      PositiveFactor2(1.0 - l, 1.0 - s);
      assert (1.0 - l) * (1.0 - s) == 1.0 - l - s + l * s;
    }
  }

  /** The rising edge of hue2rgb, on [0, 1/6), stays within [p, q]. */
  lemma RisingEdgeBounds(p: real, q: real, t: real)
    requires p <= q && 0.0 <= t < 1.0 / 6.0
    ensures p <= p + (q - p) * 6.0 * t <= q
  {
    ProductBounds(q - p, 6.0 * t);
    assert (q - p) * 6.0 * t == (q - p) * (6.0 * t);
  }

  /** The falling edge of hue2rgb, on [1/2, 2/3), stays within [p, q]. */
  lemma FallingEdgeBounds(p: real, q: real, t: real)
    requires p <= q && 1.0 / 2.0 <= t < 2.0 / 3.0
    ensures p <= p + (q - p) * (2.0 / 3.0 - t) * 6.0 <= q
  {
    ProductBounds(q - p, (2.0 / 3.0 - t) * 6.0);
    assert (q - p) * (2.0 / 3.0 - t) * 6.0 == (q - p) * ((2.0 / 3.0 - t) * 6.0);
  }

  /** hue2rgb stays within [p, q] once the adjusted position is in [0, 1]. */
  lemma Hue2RgbRange(p: real, q: real, t: real)
    requires 0.0 <= p <= q && -1.0 <= t < 2.0
    ensures p <= Hue2Rgb(p, q, t) <= q
  {
    var t1 := if t < 0.0 then t + 1.0 else t;
    var t2 := if t1 > 1.0 then t1 - 1.0 else t1;
    if t2 < 1.0 / 6.0 {
      RisingEdgeBounds(p, q, t2);
      assert Hue2Rgb(p, q, t) == p + (q - p) * 6.0 * t2;
    } else if t2 < 1.0 / 2.0 {
      assert Hue2Rgb(p, q, t) == q;
    } else if t2 < 2.0 / 3.0 {
      FallingEdgeBounds(p, q, t2);
      assert Hue2Rgb(p, q, t) == p + (q - p) * (2.0 / 3.0 - t2) * 6.0;
    } else {
      assert Hue2Rgb(p, q, t) == p;
    }
  }

  /** For a hue in [0, 360) and saturation and lightness in [0, 100], every channel
      hslToHex computes lies in [0, 1]. */
  lemma HslToRgbInUnit(h: real, s: real, l: real)
    requires InHslRange(h, s, l)
    ensures var c := HslToRgb(h, s, l); InUnit(c.r) && InUnit(c.g) && InUnit(c.b)
  {
    var h', s', l' := h / 360.0, s / 100.0, l / 100.0;
    if s' != 0.0 {
      var q := UpperChannel(l', s');
      ChannelRange(l', s');
      Hue2RgbRange(2.0 * l' - q, q, h' + 1.0 / 3.0);
      Hue2RgbRange(2.0 * l' - q, q, h');
      Hue2RgbRange(2.0 * l' - q, q, h' - 1.0 / 3.0);
    }
  }

  /** Channels in [0, 1] are written as their three rounded values, each as two digits,
      which makes `#` and six lower-case hexadecimal digits. */
  lemma RgbToHexChannels(c: Rgb)
    requires InUnit(c.r) && InUnit(c.g) && InUnit(c.b)
    ensures var r, g, b := Round(c.r * 255.0), Round(c.g * 255.0), Round(c.b * 255.0);
            0 <= r <= 255 && 0 <= g <= 255 && 0 <= b <= 255 &&
            RgbToHex(c) == "#" + ByteHex(r) + ByteHex(g) + ByteHex(b)
    ensures IsCanonicalHex(RgbToHex(c))
  {
    ToHexByte(c.r);
    ToHexByte(c.g);
    ToHexByte(c.b);
    CanonicalOfBytes(RgbToHex(c), Round(c.r * 255.0), Round(c.g * 255.0), Round(c.b * 255.0));
  }

  /** hslToHex of an in-range colour is `#` and six lower-case hexadecimal digits. */
  lemma HslToHexShape(h: real, s: real, l: real)
    requires InHslRange(h, s, l)
    ensures IsCanonicalHex(HslToHex(h, s, l))
  {
    HslToRgbInUnit(h, s, l);
    RgbToHexChannels(HslToRgb(h, s, l));
  }

  /** Three channel values written as two digits each, after '#', form a canonical colour. */
  lemma CanonicalOfBytes(x: string, r: int, g: int, b: int)
    requires 0 <= r <= 255 && 0 <= g <= 255 && 0 <= b <= 255
    requires x == "#" + ByteHex(r) + ByteHex(g) + ByteHex(b)
    ensures IsCanonicalHex(x)
  {
    assert x[1..3] == ByteHex(r) && x[3..5] == ByteHex(g) && x[5..7] == ByteHex(b);
  }

  /** With zero saturation, hslToHex writes the same rounded lightness in all three channels. */
  lemma AchromaticHex(h: real, l: real)
    requires 0.0 <= l <= 100.0
    ensures var n := Round(l / 100.0 * 255.0);
            0 <= n <= 255 && HslToHex(h, 0.0, l) == "#" + ByteHex(n) + ByteHex(n) + ByteHex(n)
  {
    ToHexByte(l / 100.0);
  }

  // ---------------------------------------------------------------------------
  // hexToHSL facts and the round trip on strings

  /** A leading '#' is optional: hexToHSL reads `#RRGGBB` and `RRGGBB` alike. */
  lemma HashOptional(t: string)
    requires |t| == 0 || t[0] != '#'
    ensures WellFormedHex("#" + t) <==> WellFormedHex(t)
    ensures WellFormedHex(t) ==> HexToHsl("#" + t) == HexToHsl(t)
  {
    assert StripHash("#" + t) == t;
  }

  /** Equal channels make an achromatic colour: hue and saturation 0, lightness the channel in percent. */
  lemma AchromaticHsl(hex: string)
    requires WellFormedHex(hex) && Channel(hex, 0) == Channel(hex, 1) == Channel(hex, 2)
    ensures HexToHsl(hex) == Hsl(0.0, 0.0, Channel(hex, 0) as real / 255.0 * 100.0)
  {
  }

  /** The first six digits of a hex colour, in lower case. */
  function LowerSix(t: string): (u: string)
    requires 6 <= |t| && forall k :: 0 <= k < 6 ==> IsHexDigit(t[k])
    ensures |u| == 6 && forall k :: 0 <= k < 6 ==> u[k] == LowerHexDigit(t[k])
  {
    [LowerHexDigit(t[0]), LowerHexDigit(t[1]), LowerHexDigit(t[2]),
     LowerHexDigit(t[3]), LowerHexDigit(t[4]), LowerHexDigit(t[5])]
  }

  /** A parsed channel scaled back by 255 is written by toHex as the channel's two digits. */
  lemma RoundedByte(v: nat, x: real)
    requires v < 256 && x == v as real / 255.0
    ensures ToHex(x) == ByteHex(v)
  {
    assert x * 255.0 == v as real;
    ToHexByte(x);
  }

  /** Each parsed channel is written back as the lower-case spelling of its two digits. */
  lemma ChannelHex(hex: string, k: nat)
    requires WellFormedHex(hex) && k < 3
    ensures var t := StripHash(hex);
            ByteHex(Channel(hex, k)) == [LowerHexDigit(t[2 * k]), LowerHexDigit(t[2 * k + 1])]
  {
    var t := StripHash(hex);
    ByteHexOfDigits(t[2 * k], t[2 * k + 1]);
  }

  /** Two hexadecimal digits read as a byte and written back with toHex's digits are
      the same two digits in lower case. */
  lemma ByteHexOfDigits(a: char, b: char)
    requires IsHexDigit(a) && IsHexDigit(b)
    ensures ByteHex(16 * HexDigitValue(a) + HexDigitValue(b)) == [LowerHexDigit(a), LowerHexDigit(b)]
  {
    var v := 16 * HexDigitValue(a) + HexDigitValue(b);
    assert v / 16 == HexDigitValue(a) && v % 16 == HexDigitValue(b);
    DigitCharOfValue(LowerHexDigit(a));
    DigitCharOfValue(LowerHexDigit(b));
  }

  /** hexToHSL followed by hslToHex's channel computation gives back the parsed channels. */
  lemma HexChannelsRoundTrip(hex: string)
    requires WellFormedHex(hex)
    ensures var c := HexToHsl(hex);
            HslToRgb(c.h, c.s, c.l) == Rgb(Channel(hex, 0) as real / 255.0, Channel(hex, 1) as real / 255.0, Channel(hex, 2) as real / 255.0)
  {
    RgbRoundTrip(Channel(hex, 0) as real / 255.0, Channel(hex, 1) as real / 255.0, Channel(hex, 2) as real / 255.0);
  }

  /** The same, as a slice of the lower-cased digits. */
  lemma ChannelSlice(hex: string, k: nat)
    requires WellFormedHex(hex) && k < 3
    ensures var u := LowerSix(StripHash(hex)); ByteHex(Channel(hex, k)) == [u[2 * k], u[2 * k + 1]]
  {
    ChannelHex(hex, k);
  }

  /** The exact round trip: hslToHex of hexToHSL(`#RRGGBB`) is `#rrggbb`, the same six
      digits in lower case (anything after them is dropped). */
  lemma RoundTrip(hex: string)
    requires WellFormedHex(hex)
    ensures var c := HexToHsl(hex); HslToHex(c.h, c.s, c.l) == "#" + LowerSix(StripHash(hex))
  {
    var c := HexToHsl(hex);
    var rgb := Rgb(Channel(hex, 0) as real / 255.0, Channel(hex, 1) as real / 255.0, Channel(hex, 2) as real / 255.0);
    HexChannelsRoundTrip(hex);
    HexOfChannels(hex);
  }

  /** Writing back the parsed channels gives the six digits in lower case. */
  lemma HexOfChannels(hex: string)
    requires WellFormedHex(hex)
    ensures RgbToHex(Rgb(Channel(hex, 0) as real / 255.0, Channel(hex, 1) as real / 255.0, Channel(hex, 2) as real / 255.0))
            == "#" + LowerSix(StripHash(hex))
  {
    ChannelSlice(hex, 0);
    ChannelSlice(hex, 1);
    ChannelSlice(hex, 2);
    HexOfBytes(Rgb(Channel(hex, 0) as real / 255.0, Channel(hex, 1) as real / 255.0, Channel(hex, 2) as real / 255.0),
               Channel(hex, 0), Channel(hex, 1), Channel(hex, 2), LowerSix(StripHash(hex)));
  }

  /** Channels that are bytes scaled by 1/255 are written as those bytes' digits. */
  lemma HexOfBytes(c: Rgb, v0: nat, v1: nat, v2: nat, u: string)
    requires v0 < 256 && v1 < 256 && v2 < 256
    requires c.r == v0 as real / 255.0 && c.g == v1 as real / 255.0 && c.b == v2 as real / 255.0
    requires |u| == 6 && ByteHex(v0) == [u[0], u[1]] && ByteHex(v1) == [u[2], u[3]] && ByteHex(v2) == [u[4], u[5]]
    ensures RgbToHex(c) == "#" + u
  {
    RoundedByte(v0, c.r);
    RoundedByte(v1, c.g);
    RoundedByte(v2, c.b);
    assert RgbToHex(c) == "#" + ByteHex(v0) + ByteHex(v1) + ByteHex(v2);
    DigitsConcat(ByteHex(v0), ByteHex(v1), ByteHex(v2), u);
  }

  lemma DigitsConcat(x0: string, x1: string, x2: string, u: string)
    requires |u| == 6 && x0 == [u[0], u[1]] && x1 == [u[2], u[3]] && x2 == [u[4], u[5]]
    ensures "#" + x0 + x1 + x2 == "#" + u
  {
  }

  /** On the colours hslToHex itself writes, the round trip is the identity. */
  lemma CanonicalRoundTrip(x: string)
    requires IsCanonicalHex(x)
    ensures WellFormedHex(x)
    ensures var c := HexToHsl(x); HslToHex(c.h, c.s, c.l) == x
  {
    CanonicalIsWellFormed(x);
    RoundTrip(x);
    CanonicalLowerSix(x);
  }

  /** A canonical colour is already in lower case. */
  lemma CanonicalLowerSix(x: string)
    requires IsCanonicalHex(x)
    ensures WellFormedHex(x) && "#" + LowerSix(StripHash(x)) == x
  {
    CanonicalIsWellFormed(x);
    var t := x[1..];
    forall k | 0 <= k < 6
      ensures LowerSix(t)[k] == t[k]
    {
    }
    assert LowerSix(t) == t;
    assert "#" + t == x;
  }

  // ---------------------------------------------------------------------------
  // getContrastColor

  /** `getContrastColor(hex)`: black text on backgrounds lighter than 60%, white otherwise. */
  function ContrastColor(hex: string): (c: string)
    requires WellFormedHex(hex)
    ensures c == "#000000" || c == "#ffffff"
  {
    if HexToHsl(hex).l > 60.0 then "#000000" else "#ffffff"
  }

  /** In terms of the channels 0..255: black exactly when the largest and smallest
      channel add up to more than 306 (a lightness above 60%). */
  lemma ContrastByChannels(hex: string)
    requires WellFormedHex(hex)
    ensures var r, g, b := Channel(hex, 0) as real, Channel(hex, 1) as real, Channel(hex, 2) as real;
            ContrastColor(hex) == "#000000" <==> Max3(r, g, b) + Min3(r, g, b) > 306.0
  {
    var r, g, b := Channel(hex, 0) as real, Channel(hex, 1) as real, Channel(hex, 2) as real;
    LightnessOfBytes(r, g, b, r / 255.0, g / 255.0, b / 255.0);
  }

  /** The lightness hexToHSL computes from three channels 0..255 exceeds 60% exactly
      when the largest and the smallest channel add up to more than 306. */
  lemma LightnessOfBytes(r: real, g: real, b: real, x: real, y: real, z: real)
    requires 0.0 <= r <= 255.0 && 0.0 <= g <= 255.0 && 0.0 <= b <= 255.0
    requires x == r / 255.0 && y == g / 255.0 && z == b / 255.0
    ensures RgbToHsl(x, y, z).l > 60.0 <==> Max3(r, g, b) + Min3(r, g, b) > 306.0
  {
    assert Max3(x, y, z) == Max3(r, g, b) / 255.0;
    assert Min3(x, y, z) == Min3(r, g, b) / 255.0;
  }

  // ---------------------------------------------------------------------------
  // generateMonochromaticPalette

  /** The lightness of colour `i` of a monochromatic palette: `l - 30 + i * step` with
      `step = 60 / (count - 1)`, clamped to [0, 100]. */
  function MonochromaticLightness(l: real, count: nat, i: nat): (v: real)
    requires count != 1
    ensures 0.0 <= v <= 100.0
  {
    ClampedLightness(l, 60.0 / (count - 1) as real, i)
  }

  /** `l - 30 + step * i`, clamped to [0, 100]. */
  function ClampedLightness(l: real, step: real, i: nat): real
  {
    Max(0.0, Min(100.0, l - 30.0 + step * i as real))
  }

  /** Appending the next element to a prefix gives the next prefix. */
  lemma PrefixExtend<T>(spec: seq<T>, i: nat, prefix: seq<T>, x: T)
    requires i < |spec| && prefix == spec[..i] && x == spec[i]
    ensures prefix + [x] == spec[..i + 1]
  {
    assert spec[..i + 1] == spec[..i] + [spec[i]];
  }

  /** The monochromatic palette of an HSL colour: `count` colours of its hue and
      saturation at evenly spaced lightnesses. */
  function MonochromaticColors(h: real, s: real, l: real, count: nat): (colors: seq<string>)
    requires count != 1
    ensures |colors| == count
  {
    seq(count, i requires 0 <= i < count => HslToHex(h, s, MonochromaticLightness(l, count, i)))
  }

  /** A proof step, not a property: MonochromaticColors unfolded at one index. */
  lemma MonochromaticAt(h: real, s: real, l: real, count: nat, i: nat)
    requires count != 1 && i < count
    ensures MonochromaticColors(h, s, l, count)[i] == HslToHex(h, s, MonochromaticLightness(l, count, i))
  {
  }

  /** `generateMonochromaticPalette(baseColor, count)`: decode the base colour, then run
      the loop over its hue, saturation and lightness. */
  method GenerateMonochromaticPalette(baseColor: string, count: nat) returns (colors: seq<string>)
    requires WellFormedHex(baseColor) && count != 1
    ensures var c := HexToHsl(baseColor); colors == MonochromaticColors(c.h, c.s, c.l, count)
  {
    var c := HexToHsl(baseColor);
    colors := MonochromaticLoop(c.h, c.s, c.l, count);
  }

  /** The loop of generateMonochromaticPalette: colour `i` at lightness `l - 30 + step * i`,
      clamped to [0, 100]. */
  method MonochromaticLoop(h: real, s: real, l: real, count: nat) returns (colors: seq<string>)
    requires count != 1
    ensures colors == MonochromaticColors(h, s, l, count)
  {
    ghost var spec := MonochromaticColors(h, s, l, count);
    colors := [];
    var i: nat := 0;
    while i < count
      invariant 0 <= i <= count
      invariant colors == spec[..i]
    {
      // the step 60 / (count - 1) is written out where it is used
      var newLightness := Max(0.0, Min(100.0, l - 30.0 + 60.0 / (count - 1) as real * i as real));
      assert newLightness == MonochromaticLightness(l, count, i);
      var hex := HslToHex(h, s, newLightness);
      MonochromaticAt(h, s, l, count, i);
      PrefixExtend(spec, i, colors, hex);
      colors := colors + [hex];
      i := i + 1;
    }
    assert spec[..count] == spec;
  }

  /** `i / (count - 1)` of a total `t`: between 0 and `t` for `i` in 0..count-1. */
  lemma StepBounds(t: real, count: nat, i: nat)
    requires 0.0 <= t && 2 <= count && i < count
    ensures 0.0 <= t / (count - 1) as real * i as real <= t
    ensures i == 0 ==> t / (count - 1) as real * i as real == 0.0
    ensures i == count - 1 ==> t / (count - 1) as real * i as real == t
  {
    var d := (count - 1) as real;
    var step := t / d;
    assert step * d == t;
    QuotientSign(t, d);
    PositiveFactor2(step, i as real);
    PositiveFactor2(step, d - i as real);
    assert step * (d - i as real) == step * d - step * i as real;
    assert step * i as real == t / (count - 1) as real * i as real;
  }

  /** Every monochromatic colour is a canonical hex colour, for an in-range base. */
  lemma MonochromaticShape(h: real, s: real, l: real, count: nat)
    requires count != 1 && 0.0 <= h < 360.0 && 0.0 <= s <= 100.0
    ensures forall i :: 0 <= i < count ==> IsCanonicalHex(MonochromaticColors(h, s, l, count)[i])
  {
    forall i | 0 <= i < count
      ensures IsCanonicalHex(MonochromaticColors(h, s, l, count)[i])
    {
      HslToHexShape(h, s, MonochromaticLightness(l, count, i));
    }
  }

  /** The lightness never decreases along the palette. */
  lemma MonochromaticOrdered(l: real, count: nat, i: nat, j: nat)
    requires 2 <= count && i <= j < count
    ensures MonochromaticLightness(l, count, i) <= MonochromaticLightness(l, count, j)
  {
    QuotientSign(60.0, (count - 1) as real);
    ClampedOrdered(l, 60.0 / (count - 1) as real, i, j);
  }

  /** With a non-negative step the clamped lightness never decreases. */
  lemma ClampedOrdered(l: real, step: real, i: nat, j: nat)
    requires 0.0 <= step && i <= j
    ensures ClampedLightness(l, step, i) <= ClampedLightness(l, step, j)
  {
    PositiveFactor2(step, (j - i) as real);
    assert step * j as real == step * i as real + step * (j - i) as real;
    assert l - 30.0 + step * i as real <= l - 30.0 + step * j as real;
    assert ClampedLightness(l, step, i) == Max(0.0, Min(100.0, l - 30.0 + step * i as real));
  }

  /** A proof step, not a property: MonochromaticLightness unfolded, with the step written out. */
  lemma LightnessAt(l: real, count: nat, i: nat)
    requires count != 1
    ensures MonochromaticLightness(l, count, i) == Max(0.0, Min(100.0, l - 30.0 + 60.0 / (count - 1) as real * i as real))
  {
  }

  /** For a base lightness in [30, 70] nothing is clamped: the palette runs from `l - 30`
      to `l + 30` in equal steps. */
  lemma MonochromaticSpan(l: real, count: nat, i: nat)
    requires 2 <= count && i < count && 30.0 <= l <= 70.0
    ensures MonochromaticLightness(l, count, i) == l - 30.0 + 60.0 / (count - 1) as real * i as real
    ensures i == 0 ==> MonochromaticLightness(l, count, i) == l - 30.0
    ensures i == count - 1 ==> MonochromaticLightness(l, count, i) == l + 30.0
  {
    StepBounds(60.0, count, i);
  }
}
