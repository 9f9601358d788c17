/** What the five palette generators of hooks/useColorScheme.ts compute, stated as
    functions of the base colour `(h, s, l)` and the colour count: the reference the
    generator methods are proved against, and the facts the palettes satisfy. */
module Palettes {
  import opened JsMath
  import opened ColorUtils

  /** The five harmonies the user can choose. */
  datatype HarmonyType = Analogous | Monochromatic | Triadic | Complementary | SplitComplementary

  /** A generated scheme: its display name and its colours in order. */
  datatype ColorScheme = ColorScheme(name: string, colors: seq<string>)

  /** `i / (count - 1)`: the position of colour `i` along the palette, from 0 to 1. */
  lemma Fraction(count: nat, i: nat)
    requires 2 <= count && i < count
    ensures 0.0 <= i as real / (count - 1) as real <= 1.0
    ensures i == 0 ==> i as real / (count - 1) as real == 0.0
    ensures i == count - 1 ==> i as real / (count - 1) as real == 1.0
  {
    Ratio(i as real, (count - 1) as real);
    QuotientSign(i as real, (count - 1) as real);
  }

  // ---------------------------------------------------------------------------
  // Analogous

  /** The hue of colour `i` of an analogous palette: `h - 15 + i * step` with
      `step = 30 / (count - 1)`, reduced with JavaScript's `% 360` and lifted by 360
      when negative. */
  function AnalogousHue(h: real, count: nat, i: nat): (hue: real)
    requires count != 1
    ensures 0.0 <= hue < 360.0
  {
    var newHue := JsRem(h + 30.0 / (count - 1) as real * i as real - 30.0 / 2.0, 360.0);
    JsRemThenLift(h + 30.0 / (count - 1) as real * i as real - 30.0 / 2.0);
    if newHue < 0.0 then newHue + 360.0 else newHue
  }

  /** The analogous hue is the point `h - 15 + 30 * i / (count - 1)` of the colour wheel. */
  lemma AnalogousHueWrap(h: real, count: nat, i: nat)
    requires count != 1
    ensures AnalogousHue(h, count, i) == Wrap360(h - 15.0 + 30.0 / (count - 1) as real * i as real)
  {
    JsRemThenLift(h + 30.0 / (count - 1) as real * i as real - 30.0 / 2.0);
  }

  /** The analogous palette spans 30 degrees centred on the base hue. */
  lemma AnalogousEnds(h: real, count: nat)
    requires 2 <= count
    ensures AnalogousHue(h, count, 0) == Wrap360(h - 15.0)
    ensures AnalogousHue(h, count, count - 1) == Wrap360(h + 15.0)
  {
    StepBounds(30.0, count, 0);
    AnalogousHuePoint(h, count, 0, h - 15.0);
    var last: nat := count - 1;
    StepBounds(30.0, count, last);
    AnalogousHuePoint(h, count, last, h + 15.0);
  }

  /** The analogous hue, for a point `x` known to be `h - 15 + 30 * i / (count - 1)`. */
  lemma AnalogousHuePoint(h: real, count: nat, i: nat, x: real)
    requires count != 1 && x == h - 15.0 + 30.0 / (count - 1) as real * i as real
    ensures AnalogousHue(h, count, i) == Wrap360(x)
  {
    AnalogousHueWrap(h, count, i);
  }

  /** `generateAnalogousColors(h, s, l, count)`. */
  function AnalogousColors(h: real, s: real, l: real, count: nat): (colors: seq<string>)
    requires count != 1
    ensures |colors| == count
  {
    seq(count, i requires 0 <= i < count => HslToHex(AnalogousHue(h, count, i), s, l))
  }

  // ---------------------------------------------------------------------------
  // Complementary

  /** `(h + 180) % 360`: the opposite hue. */
  function ComplementHue(h: real): real
  {
    JsRem(h + 180.0, 360.0)
  }

  /** For a hue on the wheel the complement is half a turn away. */
  lemma ComplementOnWheel(h: real)
    requires 0.0 <= h < 360.0
    ensures ComplementHue(h) == Wrap360(h + 180.0)
    ensures 0.0 <= ComplementHue(h) < 360.0
  {
    JsRemNonNegative(h + 180.0);
  }

  /** The hue of colour `i` of a complementary palette of more than two colours:
      `h + 180 * i / (count - 1)`, less 360 once when it reaches 360. */
  function ComplementaryHue(h: real, count: nat, i: nat): real
    requires count != 1
  {
    var newHue := h + i as real / (count - 1) as real * 180.0;
    if newHue >= 360.0 then newHue - 360.0 else newHue
  }

  /** On the wheel, the interpolated hue is `h + 180 * i / (count - 1)` wrapped into
      [0, 360): the palette runs from the base hue to its complement. */
  lemma ComplementaryHueWrap(h: real, count: nat, i: nat)
    requires 0.0 <= h < 360.0 && 2 <= count && i < count
    ensures ComplementaryHue(h, count, i) == Wrap360(h + i as real / (count - 1) as real * 180.0)
    ensures 0.0 <= ComplementaryHue(h, count, i) < 360.0
    ensures i == 0 ==> ComplementaryHue(h, count, i) == h
    ensures i == count - 1 ==> ComplementaryHue(h, count, i) == ComplementHue(h)
  {
    var x := h + i as real / (count - 1) as real * 180.0;
    Fraction(count, i);
    if x >= 360.0 {
      Wrap360Unique(x, -1);
    } else {
      Wrap360Unique(x, 0);
    }
    ComplementOnWheel(h);
  }

  /** `generateComplementaryColors(h, s, l, count)`. */
  function ComplementaryColors(h: real, s: real, l: real, count: nat): (colors: seq<string>)
  {
    if count < 2 then [HslToHex(h, s, l)]
    else if count == 2 then [HslToHex(h, s, l), HslToHex(ComplementHue(h), s, l)]
    else seq(count, i requires 0 <= i < count => HslToHex(ComplementaryHue(h, count, i), s, l))
  }

  /** The complementary palette: the base alone below two colours, the base and its
      complement for two, and otherwise `count` colours from the base to the complement. */
  lemma ComplementaryShape(h: real, s: real, l: real, count: nat)
    requires 0.0 <= h < 360.0
    ensures var colors := ComplementaryColors(h, s, l, count);
            |colors| == (if count < 2 then 1 else count) &&
            colors[0] == HslToHex(h, s, l) &&
            (count >= 2 ==> colors[|colors| - 1] == HslToHex(ComplementHue(h), s, l))
  {
    if count > 2 {
      ComplementaryHueWrap(h, count, 0);
      ComplementaryHueWrap(h, count, count - 1);
    }
  }

  // ---------------------------------------------------------------------------
  // Split-complementary

  /** `splitHue1 = (complementaryHue - 30 + 360) % 360`. */
  function SplitHue1(h: real): real
  {
    JsRem(ComplementHue(h) - 30.0 + 360.0, 360.0)
  }

  /** `splitHue2 = (complementaryHue + 30) % 360`. */
  function SplitHue2(h: real): real
  {
    JsRem(ComplementHue(h) + 30.0, 360.0)
  }

  /** The two split complements lie 150 and 210 degrees from the base hue. */
  lemma SplitHues(h: real)
    requires 0.0 <= h < 360.0
    ensures SplitHue1(h) == Wrap360(h + 150.0) && SplitHue2(h) == Wrap360(h + 210.0)
    ensures 0.0 <= SplitHue1(h) < 360.0 && 0.0 <= SplitHue2(h) < 360.0
  {
    ComplementOnWheel(h);
    var c := ComplementHue(h);
    var k := Wrap360Turns(h + 180.0);
    JsRemNonNegative(c - 30.0 + 360.0);
    Wrap360Shift(c - 30.0 + 360.0, h + 150.0, k + 1);
    JsRemNonNegative(c + 30.0);
    Wrap360Shift(c + 30.0, h + 210.0, k);
  }

  /** The arcs the split-complementary palette walks: 150 degrees from the base to the
      first split complement, then 60 degrees to the second. */
  lemma SplitArcs(h: real)
    requires 0.0 <= h < 360.0
    ensures JsRem(SplitHue1(h) - h + 360.0, 360.0) == 150.0
    ensures JsRem(SplitHue2(h) - SplitHue1(h) + 360.0, 360.0) == 60.0
  {
    SplitHues(h);
    var s1, s2 := SplitHue1(h), SplitHue2(h);
    var k1 := Wrap360Turns(h + 150.0);
    var k2 := Wrap360Turns(h + 210.0);
    JsRemNonNegative(s1 - h + 360.0);
    Wrap360Unique(s1 - h + 360.0, -k1 - 1);
    JsRemNonNegative(s2 - s1 + 360.0);
    Wrap360Unique(s2 - s1 + 360.0, k1 - k2 - 1);
  }

  /** `progress = i * step` with `step = 1 / (count - 1)`. */
  function SplitProgress(count: nat, i: nat): real
    requires count != 1
  {
    i as real * (1.0 / (count - 1) as real)
  }

  /** The hue of colour `i` of a split-complementary palette of more than three colours:
      the first half of the palette walks from the base to the first split complement,
      the second half from there to the second, each less 360 once when it reaches 360. */
  function SplitHue(h: real, count: nat, i: nat): real
    requires count != 1
  {
    var progress := SplitProgress(count, i);
    if progress <= 0.5 then
      var p := progress * 2.0;
      var newHue := h + p * JsRem(SplitHue1(h) - h + 360.0, 360.0);
      if newHue >= 360.0 then newHue - 360.0 else newHue
    else
      var p := (progress - 0.5) * 2.0;
      var newHue := SplitHue1(h) + p * JsRem(SplitHue2(h) - SplitHue1(h) + 360.0, 360.0);
      if newHue >= 360.0 then newHue - 360.0 else newHue
  }

  /** The split-complementary hue in closed form: the first branch is taken exactly when
      `i / (count - 1) <= 1/2`, it walks 300 degrees per unit of progress from the base,
      the second walks 120 degrees per unit from the first split complement, and the
      result stays on the wheel. */
  lemma SplitHueWrap(h: real, count: nat, i: nat)
    requires 0.0 <= h < 360.0 && 2 <= count && i < count
    ensures var t := i as real / (count - 1) as real;
            SplitHue(h, count, i) ==
              if t <= 0.5 then Wrap360(h + 300.0 * t) else Wrap360(h + 150.0 + 120.0 * (t - 0.5))
    ensures 0.0 <= SplitHue(h, count, i) < 360.0
    ensures i == 0 ==> SplitHue(h, count, i) == h
    ensures i == count - 1 ==> SplitHue(h, count, i) == SplitHue2(h)
  {
    var t := i as real / (count - 1) as real;
    assert SplitProgress(count, i) == t;
    Fraction(count, i);
    SplitArcs(h);
    SplitHues(h);
    var s1 := SplitHue1(h);
    if t <= 0.5 {
      var x := h + 300.0 * t;
      assert SplitHue(h, count, i) == if x >= 360.0 then x - 360.0 else x;
      if x >= 360.0 { Wrap360Unique(x, -1); } else { Wrap360Unique(x, 0); }
    } else {
      var k := Wrap360Turns(h + 150.0);
      var x := s1 + 120.0 * (t - 0.5);
      assert SplitHue(h, count, i) == if x >= 360.0 then x - 360.0 else x;
      if x >= 360.0 { Wrap360Unique(x, -1); } else { Wrap360Unique(x, 0); }
      Wrap360Shift(x, h + 150.0 + 120.0 * (t - 0.5), k);
    }
  }

  /** `generateSplitComplementaryColors(h, s, l, count)`. */
  function SplitComplementaryColors(h: real, s: real, l: real, count: nat): (colors: seq<string>)
  {
    if count < 3 then ComplementaryColors(h, s, l, count)
    else if count == 3 then [HslToHex(h, s, l), HslToHex(SplitHue1(h), s, l), HslToHex(SplitHue2(h), s, l)]
    else seq(count, i requires 0 <= i < count => HslToHex(SplitHue(h, count, i), s, l))
  }

  /** The split-complementary palette: the complementary one below three colours, and
      otherwise `count` colours from the base to the second split complement. */
  lemma SplitComplementaryShape(h: real, s: real, l: real, count: nat)
    requires 0.0 <= h < 360.0
    ensures var colors := SplitComplementaryColors(h, s, l, count);
            (count < 3 ==> colors == ComplementaryColors(h, s, l, count)) &&
            (count >= 3 ==> |colors| == count && colors[0] == HslToHex(h, s, l) &&
                            colors[count - 1] == HslToHex(SplitHue2(h), s, l))
  {
    if count > 3 {
      SplitHueWrap(h, count, 0);
      SplitHueWrap(h, count, count - 1);
    }
  }

  // ---------------------------------------------------------------------------
  // Triadic

  /** The three triadic anchors: the base colour and the hues 120 and 240 degrees on. */
  function TriadicAnchors(h: real, s: real, l: real): (anchors: seq<string>)
    ensures |anchors| == 3
  {
    [HslToHex(h, s, l), HslToHex(JsRem(h + 120.0, 360.0), s, l), HslToHex(JsRem(h + 240.0, 360.0), s, l)]
  }

  /** For a hue on the wheel the anchors sit a third and two thirds of a turn on. */
  lemma AnchorHues(h: real)
    requires 0.0 <= h < 360.0
    ensures JsRem(h + 120.0, 360.0) == Wrap360(h + 120.0)
    ensures JsRem(h + 240.0, 360.0) == Wrap360(h + 240.0)
  {
    JsRemNonNegative(h + 120.0);
    JsRemNonNegative(h + 240.0);
  }

  /** For an in-range base every anchor is a canonical hex colour. */
  lemma AnchorsCanonical(h: real, s: real, l: real)
    requires InHslRange(h, s, l)
    ensures CanonicalTriad(TriadicAnchors(h, s, l))
  {
    AnchorHues(h);
    HslToHexShape(h, s, l);
    HslToHexShape(JsRem(h + 120.0, 360.0), s, l);
    HslToHexShape(JsRem(h + 240.0, 360.0), s, l);
  }

  /** `triadIndex = Math.min(2, Math.floor(i / segmentsPerTriad))`: the anchor whose
      third of the palette colour `i` lies in; always a valid index into the anchors. */
  function TriadIndex(segmentsPerTriad: real, i: nat): (k: nat)
    requires 0.0 < segmentsPerTriad
    ensures k <= 2
  {
    QuotientSign(i as real, segmentsPerTriad);
    MinInt(2, (i as real / segmentsPerTriad).Floor)
  }

  /** `progress = (i % segmentsPerTriad) / segmentsPerTriad`: how far colour `i` lies
      into its third, the fractional part of `i / segmentsPerTriad`. */
  function Progress(segmentsPerTriad: real, i: nat): (p: real)
    requires 0.0 < segmentsPerTriad
    ensures 0.0 <= p < 1.0
    ensures p == i as real / segmentsPerTriad - (i as real / segmentsPerTriad).Floor as real
  {
    RemainderFraction(i as real, segmentsPerTriad);
    JsRem(i as real, segmentsPerTriad) / segmentsPerTriad
  }

  /** `(to - from + 540) % 360 - 180`: the signed turn from hue `from` to hue `to`. */
  function HueDelta(from: real, to: real): real
  {
    JsRem(to - from + 540.0, 360.0) - 180.0
  }

  /** Between hues on the wheel the signed turn is the shorter way round: it lies in
      [-180, 180) and lands on `to`. */
  lemma HueDeltaShortest(from: real, to: real)
    requires 0.0 <= from < 360.0 && 0.0 <= to < 360.0
    ensures -180.0 <= HueDelta(from, to) < 180.0
    ensures HueDelta(from, to) == Wrap360(to - from + 180.0) - 180.0
    ensures Wrap360(from + HueDelta(from, to)) == to
  {
    var x := to - from + 540.0;
    JsRemNonNegative(x);
    var d := HueDelta(from, to);
    assert d == Wrap360(x) - 180.0;
    Wrap360Shift(x, to - from + 180.0, 1);
    var k := Wrap360Turns(x);
    assert from + d == to + 360.0 * (k + 1) as real;
    Wrap360Unique(from + d, -(k + 1));
  }

  /** `a + (b - a) * t` for `t` in [0, 1] lies between `a` and `b`. */
  lemma LerpBetween(a: real, b: real, t: real)
    requires 0.0 <= t <= 1.0
    ensures Min(a, b) <= a + (b - a) * t <= Max(a, b)
  {
    if a <= b {
      ScaleGap(a, b, t);
    } else {
      ScaleGap(b, a, t);
    }
  }

  /** Scaling by `t` in [0, 1] shrinks the gap between two numbers. */
  lemma ScaleGap(x: real, y: real, t: real)
    requires x <= y && 0.0 <= t <= 1.0
    ensures 0.0 <= y * t - x * t <= y - x
  {
    var d, u := y - x, 1.0 - t;
    PositiveFactor2(d, t);
    PositiveFactor2(d, u);
    assert d * t == y * t - x * t;
    assert d * u == d - d * t;
  }

  /** `if (h < 0) h += 360; if (h >= 360) h -= 360;`: one lift and then one drop. */
  function BackOnWheel(x: real): real
  {
    var h := if x < 0.0 then x + 360.0 else x;
    if h >= 360.0 then h - 360.0 else h
  }

  /** Within a turn either side of the wheel, one lift and one drop wrap the hue. */
  lemma BackOnWheelWrap(x: real)
    requires -360.0 <= x < 720.0
    ensures BackOnWheel(x) == Wrap360(x)
  {
    if x < 0.0 {
      Wrap360Unique(x, 1);
    } else if x >= 360.0 {
      Wrap360Unique(x, -1);
    } else {
      Wrap360Unique(x, 0);
    }
  }

  /** The colour a triadic palette puts between two anchors at `progress`: the hue moves
      by the signed turn and is brought back onto the wheel, saturation and lightness
      move linearly. */
  function Blend(c1: Hsl, c2: Hsl, progress: real): Hsl
  {
    Hsl(BackOnWheel(c1.h + HueDelta(c1.h, c2.h) * progress),
        c1.s + (c2.s - c1.s) * progress, c1.l + (c2.l - c1.l) * progress)
  }

  /** `x * t`, named so that bounds on a product carry over to where it is used. */
  function Scaled(x: real, t: real): real
  {
    x * t
  }

  /** The product of the signed turn and a progress in [0, 1] stays within half a turn. */
  lemma TurnBounds(d: real, progress: real)
    requires -180.0 <= d < 180.0 && 0.0 <= progress <= 1.0
    ensures -180.0 <= Scaled(d, progress) < 180.0
  {
    if d >= 0.0 {
      ProductBounds(d, progress);
    } else {
      NegativeScale(d, progress);
    }
  }

  /** A negative number scaled by `t` in [0, 1] lies between the number and 0. */
  lemma NegativeScale(d: real, t: real)
    requires d < 0.0 && 0.0 <= t <= 1.0
    ensures d <= d * t <= 0.0
  {
    var e, u := -d, 1.0 - t;
    PositiveFactor2(e, t);
    PositiveFactor2(e, u);
    assert e * t == -(d * t);
    assert e * u == e - e * t;
  }

  /** The blended hue is on the shorter arc from the first hue to the second. */
  lemma BlendHue(c1: Hsl, c2: Hsl, progress: real)
    requires 0.0 <= c1.h < 360.0 && 0.0 <= c2.h < 360.0 && 0.0 <= progress <= 1.0
    ensures Blend(c1, c2, progress).h == Wrap360(c1.h + HueDelta(c1.h, c2.h) * progress)
  {
    HueDeltaShortest(c1.h, c2.h);
    TurnBounds(HueDelta(c1.h, c2.h), progress);
    BackOnWheelWrap(c1.h + HueDelta(c1.h, c2.h) * progress);
  }

  /** The blended saturation and lightness lie between the two colours' own. */
  lemma BlendBetween(c1: Hsl, c2: Hsl, progress: real)
    requires 0.0 <= progress <= 1.0
    ensures var c := Blend(c1, c2, progress);
            Min(c1.s, c2.s) <= c.s <= Max(c1.s, c2.s) && Min(c1.l, c2.l) <= c.l <= Max(c1.l, c2.l)
  {
    var s1, s2, l1, l2 := c1.s, c2.s, c1.l, c2.l;
    LerpBetween(s1, s2, progress);
    assert (s2 - s1) * progress == (c2.s - c1.s) * progress;
    LerpBetween(l1, l2, progress);
    assert (l2 - l1) * progress == (c2.l - c1.l) * progress;
  }

  /** Blending two in-range colours gives an in-range colour. */
  lemma BlendInRange(c1: Hsl, c2: Hsl, progress: real)
    requires InHslRange(c1.h, c1.s, c1.l) && InHslRange(c2.h, c2.s, c2.l) && 0.0 <= progress <= 1.0
    ensures var c := Blend(c1, c2, progress); InHslRange(c.h, c.s, c.l)
  {
    BlendHue(c1, c2, progress);
    BlendBetween(c1, c2, progress);
  }

  /** Blending an in-range colour with itself changes nothing. */
  lemma BlendSelf(c: Hsl, progress: real)
    requires InHslRange(c.h, c.s, c.l)
    ensures Blend(c, c, progress) == c
  {
    assert c.h - c.h + 540.0 == 540.0;
    assert Trunc(540.0 / 360.0) == 1;
    assert HueDelta(c.h, c.h) == 0.0;
  }

  /** Three canonical hex colours, as the triadic anchors are. */
  predicate CanonicalTriad(anchors: seq<string>)
  {
    |anchors| == 3 && forall k :: 0 <= k < 3 ==> IsCanonicalHex(anchors[k])
  }

  /** Where colour `i` of a triadic palette falls: on anchor `k`, or `progress` of the
      way from anchor `k` towards the next one. */
  datatype TriadicPlace = OnAnchor(k: nat) | Between(k: nat, progress: real)

  /** The place of colour `i` in a palette of more than three colours: on its anchor at
      the start of a third and at the end of the palette, between anchors otherwise. */
  function PlaceOf(count: nat, i: nat): (place: TriadicPlace)
    requires 3 < count
    ensures place.k <= 2
    ensures place.Between? ==> 0.0 < place.progress < 1.0
  {
    var segmentsPerTriad := (count - 1) as real / 3.0;
    var k := TriadIndex(segmentsPerTriad, i);
    var progress := Progress(segmentsPerTriad, i);
    if progress == 0.0 || i == count - 1 then OnAnchor(k) else Between(k, progress)
  }

  /** The colour at a place: the anchor itself, or the blend of the anchor with the next
      one (the last anchor counting as its own next), read back with hexToHSL and written
      again with hslToHex. */
  function PlaceColor(anchors: seq<string>, place: TriadicPlace): string
    requires CanonicalTriad(anchors) && place.k <= 2
  {
    match place
    case OnAnchor(k) => anchors[k]
    case Between(k, progress) => BlendColor(anchors[k], anchors[MinInt(2, k + 1)], progress)
  }

  /** Colour `i` of a triadic palette of more than three colours over the given anchors. */
  function TriadicColor(anchors: seq<string>, count: nat, i: nat): string
    requires 3 < count && CanonicalTriad(anchors)
  {
    PlaceColor(anchors, PlaceOf(count, i))
  }

  /** Two anchors read back with hexToHSL, blended and written again with hslToHex. */
  function BlendColor(a1: string, a2: string, progress: real): string
    requires IsCanonicalHex(a1) && IsCanonicalHex(a2)
  {
    CanonicalIsWellFormed(a1);
    CanonicalIsWellFormed(a2);
    var c := Blend(HexToHsl(a1), HexToHsl(a2), progress);
    HslToHex(c.h, c.s, c.l)
  }

  /** Blending an anchor with itself gives the anchor back. */
  lemma BlendColorSelf(a: string, progress: real)
    requires IsCanonicalHex(a)
    ensures BlendColor(a, a, progress) == a
  {
    CanonicalIsWellFormed(a);
    BlendSelf(HexToHsl(a), progress);
    CanonicalRoundTrip(a);
  }

  /** `generateTriadicColors(h, s, l, count)`. */
  function TriadicColors(h: real, s: real, l: real, count: nat): (colors: seq<string>)
    requires count != 1 && (3 < count ==> InHslRange(h, s, l))
    ensures |colors| == count
  {
    if count < 3 then AnalogousColors(h, s, l, count)
    else if count == 3 then TriadicAnchors(h, s, l)
    else
      AnchorsCanonical(h, s, l);
      Interpolated(TriadicAnchors(h, s, l), count)
  }

  /** The loop of generateTriadicColors over the anchors, for more than three colours. */
  function Interpolated(anchors: seq<string>, count: nat): (colors: seq<string>)
    requires 3 < count && CanonicalTriad(anchors)
    ensures |colors| == count
  {
    seq(count, i requires 0 <= i < count => TriadicColor(anchors, count, i))
  }

  /** `a / d >= n` when `n * d <= a`. */
  lemma QuotientAtLeast(a: real, d: real, n: real)
    requires 0.0 < d && n * d <= a
    ensures n <= a / d
  {
    assert d * (a / d - n) == a - n * d;
    PositiveFactor(d, a / d - n);
  }

  /** From two thirds of the way on, every colour of a triadic palette is the third
      anchor: the next-anchor index is clamped at 2, so the blend there is between the
      third anchor and itself. */
  lemma TriadicTail(anchors: seq<string>, count: nat, i: nat)
    requires 3 < count && CanonicalTriad(anchors) && 2.0 * ((count - 1) as real / 3.0) <= i as real
    ensures TriadicColor(anchors, count, i) == anchors[2]
  {
    var segmentsPerTriad := (count - 1) as real / 3.0;
    assert TriadIndex(segmentsPerTriad, i) == 2 by {
      QuotientAtLeast(i as real, segmentsPerTriad, 2.0);
    }
    PlaceAt(count, segmentsPerTriad, i, 2, Progress(segmentsPerTriad, i));
    BlendColorSelf(anchors[2], Progress(segmentsPerTriad, i));
  }

  /** A triadic palette of more than three colours starts at the first anchor and ends
      at the third. */
  lemma TriadicEnds(anchors: seq<string>, count: nat)
    requires 3 < count && CanonicalTriad(anchors)
    ensures TriadicColor(anchors, count, 0) == anchors[0]
    ensures TriadicColor(anchors, count, count - 1) == anchors[2]
  {
    var segmentsPerTriad := (count - 1) as real / 3.0;
    assert Progress(segmentsPerTriad, 0) == 0.0 && TriadIndex(segmentsPerTriad, 0) == 0 by {
      assert JsRem(0.0, segmentsPerTriad) == 0.0;
    }
    PlaceAt(count, segmentsPerTriad, 0, 0, 0.0);
    var last: nat := count - 1;
    assert TriadIndex(segmentsPerTriad, last) == 2 by {
      QuotientAtLeast(last as real, segmentsPerTriad, 2.0);
    }
    PlaceAt(count, segmentsPerTriad, last, 2, Progress(segmentsPerTriad, last));
  }

  /** The triadic palette of a base colour, more than three colours long, starts at the
      base colour and ends at the anchor two thirds of a turn on. */
  lemma TriadicPaletteEnds(h: real, s: real, l: real, count: nat)
    requires 3 < count && InHslRange(h, s, l)
    ensures TriadicColors(h, s, l, count)[0] == HslToHex(h, s, l)
    ensures TriadicColors(h, s, l, count)[count - 1] == HslToHex(Wrap360(h + 240.0), s, l)
  {
    var anchors := TriadicAnchors(h, s, l);
    AnchorsCanonical(h, s, l);
    AnchorHues(h);
    TriadicEnds(anchors, count);
  }

  // ---------------------------------------------------------------------------
  // Every generated colour is a canonical hex colour

  /** Analogous colours of an in-range saturation and lightness are canonical. */
  lemma AnalogousCanonical(h: real, s: real, l: real, count: nat)
    requires count != 1 && InHslRange(0.0, s, l)
    ensures forall i :: 0 <= i < count ==> IsCanonicalHex(AnalogousColors(h, s, l, count)[i])
  {
    forall i | 0 <= i < count
      ensures IsCanonicalHex(AnalogousColors(h, s, l, count)[i])
    {
      HslToHexShape(AnalogousHue(h, count, i), s, l);
    }
  }

  /** Complementary colours of an in-range base are canonical. */
  lemma ComplementaryCanonical(h: real, s: real, l: real, count: nat)
    requires InHslRange(h, s, l)
    ensures forall i :: 0 <= i < |ComplementaryColors(h, s, l, count)| ==> IsCanonicalHex(ComplementaryColors(h, s, l, count)[i])
  {
    HslToHexShape(h, s, l);
    ComplementOnWheel(h);
    HslToHexShape(ComplementHue(h), s, l);
    if count > 2 {
      forall i | 0 <= i < count
        ensures IsCanonicalHex(ComplementaryColors(h, s, l, count)[i])
      {
        ComplementaryHueWrap(h, count, i);
        HslToHexShape(ComplementaryHue(h, count, i), s, l);
      }
    }
  }

  /** Split-complementary colours of an in-range base are canonical. */
  lemma SplitComplementaryCanonical(h: real, s: real, l: real, count: nat)
    requires InHslRange(h, s, l)
    ensures forall i :: 0 <= i < |SplitComplementaryColors(h, s, l, count)| ==> IsCanonicalHex(SplitComplementaryColors(h, s, l, count)[i])
  {
    if count < 3 {
      ComplementaryCanonical(h, s, l, count);
    } else if count == 3 {
      SplitHues(h);
      HslToHexShape(h, s, l);
      HslToHexShape(SplitHue1(h), s, l);
      HslToHexShape(SplitHue2(h), s, l);
    } else {
      forall i | 0 <= i < count
        ensures IsCanonicalHex(SplitComplementaryColors(h, s, l, count)[i])
      {
        SplitHueWrap(h, count, i);
        HslToHexShape(SplitHue(h, count, i), s, l);
      }
    }
  }

  /** A blend of two canonical colours is canonical. */
  lemma BlendColorCanonical(a1: string, a2: string, progress: real)
    requires IsCanonicalHex(a1) && IsCanonicalHex(a2) && 0.0 <= progress <= 1.0
    ensures IsCanonicalHex(BlendColor(a1, a2, progress))
  {
    CanonicalIsWellFormed(a1);
    CanonicalIsWellFormed(a2);
    var c := Blend(HexToHsl(a1), HexToHsl(a2), progress);
    BlendInRange(HexToHsl(a1), HexToHsl(a2), progress);
    HslToHexShape(c.h, c.s, c.l);
  }

  /** A proof step, not a property: PlaceOf unfolded for a given anchor index and
      progress, so that a caller holding those values need not unfold it itself. */
  lemma PlaceAt(count: nat, segmentsPerTriad: real, i: nat, k: nat, progress: real)
    requires 3 < count && segmentsPerTriad == (count - 1) as real / 3.0
    requires k == TriadIndex(segmentsPerTriad, i) && progress == Progress(segmentsPerTriad, i)
    ensures PlaceOf(count, i) == if progress == 0.0 || i == count - 1 then OnAnchor(k) else Between(k, progress)
  {
  }

  /** A proof step, not a property: TriadicColor unfolded at a place between anchors. */
  lemma TriadicAtBlend(anchors: seq<string>, count: nat, i: nat, k: nat, progress: real)
    requires 3 < count && CanonicalTriad(anchors) && PlaceOf(count, i) == Between(k, progress)
    ensures TriadicColor(anchors, count, i) == BlendColor(anchors[k], anchors[MinInt(2, k + 1)], progress)
  {
  }

  /** One triadic colour over canonical anchors is canonical. */
  lemma TriadicColorCanonical(anchors: seq<string>, count: nat, i: nat)
    requires 3 < count && CanonicalTriad(anchors)
    ensures IsCanonicalHex(TriadicColor(anchors, count, i))
  {
    match PlaceOf(count, i)
    case OnAnchor(k) =>
    case Between(k, progress) =>
      BlendColorCanonical(anchors[k], anchors[MinInt(2, k + 1)], progress);
  }

  /** Triadic colours of an in-range base are canonical. */
  lemma TriadicCanonical(h: real, s: real, l: real, count: nat)
    requires count != 1 && InHslRange(h, s, l)
    ensures forall i :: 0 <= i < count ==> IsCanonicalHex(TriadicColors(h, s, l, count)[i])
  {
    AnchorsCanonical(h, s, l);
    if count < 3 {
      AnalogousCanonical(h, s, l, count);
    } else if count > 3 {
      forall i | 0 <= i < count
        ensures IsCanonicalHex(TriadicColors(h, s, l, count)[i])
      {
        TriadicColorCanonical(TriadicAnchors(h, s, l), count, i);
      }
    }
  }

  // ---------------------------------------------------------------------------
  // generateColorScheme

  /** The display name generateColorScheme gives each harmony. */
  function SchemeName(t: HarmonyType): string
  {
    match t
    case Analogous => "Analogous"
    case Monochromatic => "Monochromatic"
    case Triadic => "Triadic"
    case Complementary => "Complementary"
    case SplitComplementary => "Split Complementary"
  }

  /** Different harmonies have different names. */
  lemma SchemeNamesDistinct(t1: HarmonyType, t2: HarmonyType)
    ensures SchemeName(t1) == SchemeName(t2) <==> t1 == t2
  {
  }

  /** The counts a harmony's generator can be called with: every generator but the
      complementary ones divides by `count - 1`. */
  predicate CanGenerate(t: HarmonyType, count: nat) {
    count != 1 || t == Complementary || t == SplitComplementary
  }

  /** The colours of harmony `t` for the base colour `(h, s, l)`. */
  function HarmonyColors(t: HarmonyType, h: real, s: real, l: real, count: nat): seq<string>
    requires CanGenerate(t, count) && InHslRange(h, s, l)
  {
    match t
    case Analogous => AnalogousColors(h, s, l, count)
    case Monochromatic => MonochromaticColors(h, s, l, count)
    case Triadic => TriadicColors(h, s, l, count)
    case Complementary => ComplementaryColors(h, s, l, count)
    case SplitComplementary => SplitComplementaryColors(h, s, l, count)
  }

  /** The scheme generateColorScheme builds for a base colour, a harmony and a count. */
  function Scheme(baseColor: string, t: HarmonyType, count: nat): ColorScheme
    requires WellFormedHex(baseColor) && CanGenerate(t, count)
  {
    var c := HexToHsl(baseColor);
    ColorScheme(SchemeName(t), HarmonyColors(t, c.h, c.s, c.l, count))
  }

  /** Every scheme has `count` colours for the counts the slider offers (2 to 9, and any
      larger count too), each a canonical hex colour. */
  lemma SchemeShape(baseColor: string, t: HarmonyType, count: nat)
    requires WellFormedHex(baseColor) && 2 <= count
    ensures var colors := Scheme(baseColor, t, count).colors;
            |colors| == count && forall i :: 0 <= i < count ==> IsCanonicalHex(colors[i])
  {
    var c := HexToHsl(baseColor);
    match t
    case Analogous => AnalogousCanonical(c.h, c.s, c.l, count);
    case Monochromatic => MonochromaticShape(c.h, c.s, c.l, count);
    case Triadic => TriadicCanonical(c.h, c.s, c.l, count);
    case Complementary =>
      ComplementaryShape(c.h, c.s, c.l, count);
      ComplementaryCanonical(c.h, c.s, c.l, count);
    case SplitComplementary =>
      SplitComplementaryShape(c.h, c.s, c.l, count);
      SplitComplementaryCanonical(c.h, c.s, c.l, count);
  }

  /** With fewer colours than it needs, a harmony falls back: triadic to analogous,
      split-complementary to complementary, and complementary to the base colour alone,
      written back in canonical form. */
  lemma SchemeFallbacks(baseColor: string, count: nat)
    requires WellFormedHex(baseColor)
    ensures count < 3 && count != 1 ==> Scheme(baseColor, Triadic, count).colors == Scheme(baseColor, Analogous, count).colors
    ensures count < 3 ==> Scheme(baseColor, SplitComplementary, count).colors == Scheme(baseColor, Complementary, count).colors
    ensures count < 2 ==> Scheme(baseColor, Complementary, count).colors == ["#" + LowerSix(StripHash(baseColor))]
  {
    var c := HexToHsl(baseColor);
    HarmonyFallbacks(c.h, c.s, c.l, count);
    if count < 2 {
      RoundTrip(baseColor);
    }
  }

  /** A proof step for SchemeFallbacks: the generators' first branches, unfolded over a
      decoded base colour so that the proof does not see hexToHSL's arithmetic. */
  lemma HarmonyFallbacks(h: real, s: real, l: real, count: nat)
    requires InHslRange(h, s, l)
    ensures count < 3 && count != 1 ==> HarmonyColors(Triadic, h, s, l, count) == HarmonyColors(Analogous, h, s, l, count)
    ensures count < 3 ==> HarmonyColors(SplitComplementary, h, s, l, count) == HarmonyColors(Complementary, h, s, l, count)
    ensures count < 2 ==> HarmonyColors(Complementary, h, s, l, count) == [HslToHex(h, s, l)]
  {
  }
}
