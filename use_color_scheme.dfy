/** The generator functions of hooks/useColorScheme.ts as the loops they are, each proved
    to build exactly the palette its reference function in `Palettes` describes, and the
    dispatcher that picks one by harmony and names the scheme. */
module UseColorScheme {
  import opened JsMath
  import opened ColorUtils
  import opened Palettes

  // ---------------------------------------------------------------------------
  // Colour `i` of each reference palette, written out as the loops compute it

  /** A proof step, not a property: AnalogousColors unfolded at one index, as the loop computes it. */
  lemma AnalogousAt(h: real, s: real, l: real, count: nat, i: nat)
    requires count != 1 && i < count
    ensures AnalogousColors(h, s, l, count)[i] == HslToHex(AnalogousHue(h, count, i), s, l)
  {
  }

  /** A proof step, not a property: AnalogousHue unfolded, as the loop computes the hue. */
  lemma AnalogousHueAt(h: real, count: nat, i: nat, newHue: real)
    requires count != 1 && newHue == JsRem(h + 30.0 / (count - 1) as real * i as real - 30.0 / 2.0, 360.0)
    ensures (if newHue < 0.0 then newHue + 360.0 else newHue) == AnalogousHue(h, count, i)
  {
  }

  /** A proof step, not a property: ComplementaryColors unfolded at one index, as the loop computes it. */
  lemma ComplementaryAt(h: real, s: real, l: real, count: nat, i: nat)
    requires 2 < count && i < count
    ensures ComplementaryColors(h, s, l, count)[i] == HslToHex(ComplementaryHue(h, count, i), s, l)
  {
  }

  /** A proof step, not a property: SplitComplementaryColors unfolded at one index, as the loop computes it. */
  lemma SplitAt(h: real, s: real, l: real, count: nat, i: nat)
    requires 3 < count && i < count
    ensures SplitComplementaryColors(h, s, l, count)[i] == HslToHex(SplitHue(h, count, i), s, l)
  {
  }

  /** A proof step, not a property: Interpolated unfolded at one index, as the loop computes it. */
  lemma InterpolatedAt(anchors: seq<string>, count: nat, i: nat)
    requires 3 < count && CanonicalTriad(anchors) && i < count
    ensures Interpolated(anchors, count)[i] == TriadicColor(anchors, count, i)
  {
  }

  /** A proof step, not a property: BlendColor unfolded, as the loop computes the blend. */
  lemma BlendColorAt(a1: string, a2: string, progress: real)
    requires IsCanonicalHex(a1) && IsCanonicalHex(a2)
    ensures WellFormedHex(a1) && WellFormedHex(a2)
    ensures var c := Blend(HexToHsl(a1), HexToHsl(a2), progress);
            BlendColor(a1, a2, progress) == HslToHex(c.h, c.s, c.l)
  {
    CanonicalIsWellFormed(a1);
    CanonicalIsWellFormed(a2);
  }

  /** A proof step, not a property: the first half of a split-complementary loop, as the
      loop computes it, is SplitHue. */
  lemma SplitFirstLeg(h: real, count: nat, i: nat, splitHue1: real, step: real, progress: real, p: real, newHue: real)
    requires count != 1 && splitHue1 == SplitHue1(h) && step == 1.0 / (count - 1) as real
    requires progress == i as real * step && progress <= 0.5 && p == progress * 2.0
    requires newHue == h + p * JsRem(splitHue1 - h + 360.0, 360.0)
    ensures (if newHue >= 360.0 then newHue - 360.0 else newHue) == SplitHue(h, count, i)
  {
    assert progress == SplitProgress(count, i);
  }

  /** A proof step, not a property: the second half of a split-complementary loop, as
      the loop computes it, is SplitHue. */
  lemma SplitSecondLeg(h: real, count: nat, i: nat, splitHue1: real, splitHue2: real, step: real,
                       progress: real, p: real, newHue: real)
    requires count != 1 && splitHue1 == SplitHue1(h) && splitHue2 == SplitHue2(h) && step == 1.0 / (count - 1) as real
    requires progress == i as real * step && !(progress <= 0.5) && p == (progress - 0.5) * 2.0
    requires newHue == splitHue1 + p * JsRem(splitHue2 - splitHue1 + 360.0, 360.0)
    ensures (if newHue >= 360.0 then newHue - 360.0 else newHue) == SplitHue(h, count, i)
  {
    assert progress == SplitProgress(count, i);
  }

  // ---------------------------------------------------------------------------
  // The generators

  /** `generateAnalogousColors(h, s, l, count)`. */
  method GenerateAnalogousColors(h: real, s: real, l: real, count: nat) returns (colors: seq<string>)
    requires count != 1
    ensures colors == AnalogousColors(h, s, l, count)
  {
    ghost var spec := AnalogousColors(h, s, l, count);
    colors := [];
    var i: nat := 0;
    while i < count
      invariant 0 <= i <= count
      invariant colors == spec[..i]
    {
      // the step 30 / (count - 1) is written out where it is used
      var newHue := JsRem(h + 30.0 / (count - 1) as real * i as real - 30.0 / 2.0, 360.0);
      var hue := if newHue < 0.0 then newHue + 360.0 else newHue;
      AnalogousHueAt(h, count, i, newHue);
      var hex := HslToHex(hue, s, l);
      AnalogousAt(h, s, l, count, i);
      PrefixExtend(spec, i, colors, hex);
      colors := colors + [hex];
      i := i + 1;
    }
    assert spec[..count] == spec;
  }

  /** `generateMonochromaticColors(h, s, l, count)`: the same loop, word for word, as
      the one generateMonochromaticPalette runs after decoding its base colour. */
  method GenerateMonochromaticColors(h: real, s: real, l: real, count: nat) returns (colors: seq<string>)
    requires count != 1
    ensures colors == MonochromaticColors(h, s, l, count)
  {
    colors := MonochromaticLoop(h, s, l, count);
  }

  /** `generateTriadicColors(h, s, l, count)`: below three colours the analogous palette,
      for three the anchors, and otherwise the anchors and the blends between them. */
  method GenerateTriadicColors(h: real, s: real, l: real, count: nat) returns (colors: seq<string>)
    requires count != 1 && (3 < count ==> InHslRange(h, s, l))
    ensures colors == TriadicColors(h, s, l, count)
  {
    if count < 3 {
      colors := GenerateAnalogousColors(h, s, l, count);
      return;
    }
    var triadicColors := [HslToHex(h, s, l), HslToHex(JsRem(h + 120.0, 360.0), s, l), HslToHex(JsRem(h + 240.0, 360.0), s, l)];
    if count == 3 {
      colors := triadicColors;
      return;
    }
    AnchorsCanonical(h, s, l);
    colors := InterpolateAll(triadicColors, count);
  }

  /** The loop of generateTriadicColors: each colour is the anchor of its third where
      the progress is zero and at the end, and otherwise the blend of that anchor with
      the next, read back with hexToHSL. */
  method InterpolateAll(triadicColors: seq<string>, count: nat) returns (colors: seq<string>)
    requires 3 < count && CanonicalTriad(triadicColors)
    ensures colors == Interpolated(triadicColors, count)
  {
    ghost var spec := Interpolated(triadicColors, count);
    colors := [];
    // segments = count - 1
    var segmentsPerTriad := (count - 1) as real / 3.0;
    var i: nat := 0;
    while i < count
      invariant 0 <= i <= count
      invariant colors == spec[..i]
    {
      var triadIndex := TriadIndex(segmentsPerTriad, i);
      var nextTriadIndex := MinInt(2, triadIndex + 1);
      var progress := Progress(segmentsPerTriad, i);
      InterpolatedAt(triadicColors, count, i);
      PlaceAt(count, segmentsPerTriad, i, triadIndex, progress);
      var hex;
      if progress == 0.0 || i == count - 1 {
        hex := triadicColors[triadIndex];
      } else {
        TriadicAtBlend(triadicColors, count, i, triadIndex, progress);
        hex := BlendAnchors(triadicColors[triadIndex], triadicColors[nextTriadIndex], progress);
      }
      PrefixExtend(spec, i, colors, hex);
      colors := colors + [hex];
      i := i + 1;
    }
    assert spec[..count] == spec;
  }

  /** One blended colour of the triadic loop: both anchors read back with hexToHSL,
      interpolated, and written with hslToHex. */
  method BlendAnchors(anchor1: string, anchor2: string, progress: real) returns (hex: string)
    requires IsCanonicalHex(anchor1) && IsCanonicalHex(anchor2)
    ensures hex == BlendColor(anchor1, anchor2, progress)
  {
    BlendColorAt(anchor1, anchor2, progress);
    var color1 := HexToHsl(anchor1);
    var color2 := HexToHsl(anchor2);
    var blendHue, blendSat, blendLight := Interpolate(color1, color2, progress);
    hex := HslToHex(blendHue, blendSat, blendLight);
  }

  /** The interpolation between two colours read back from the anchors: the hue turns
      the shorter way and is brought back onto the wheel, saturation and lightness move
      linearly. */
  method Interpolate(color1: Hsl, color2: Hsl, progress: real) returns (h: real, s: real, l: real)
    ensures Hsl(h, s, l) == Blend(color1, color2, progress)
  {
    h := color1.h + HueDelta(color1.h, color2.h) * progress;
    if h < 0.0 { h := h + 360.0; }
    if h >= 360.0 { h := h - 360.0; }
    s := color1.s + (color2.s - color1.s) * progress;
    l := color1.l + (color2.l - color1.l) * progress;
  }

  /** `generateComplementaryColors(h, s, l, count)`: the base alone below two colours,
      the base and its complement for two, and otherwise the walk from one to the other. */
  method GenerateComplementaryColors(h: real, s: real, l: real, count: nat) returns (colors: seq<string>)
    ensures colors == ComplementaryColors(h, s, l, count)
  {
    if count < 2 {
      colors := [HslToHex(h, s, l)];
      return;
    }
    var complementaryHue := JsRem(h + 180.0, 360.0);
    if count == 2 {
      colors := [HslToHex(h, s, l), HslToHex(complementaryHue, s, l)];
      return;
    }
    ghost var spec := ComplementaryColors(h, s, l, count);
    colors := [];
    var i: nat := 0;
    while i < count
      invariant 0 <= i <= count
      invariant colors == spec[..i]
    {
      var progress := i as real / (count - 1) as real;
      var newHue := h + progress * 180.0;
      if newHue >= 360.0 { newHue := newHue - 360.0; }
      assert progress * 180.0 == i as real / (count - 1) as real * 180.0;
      assert newHue == ComplementaryHue(h, count, i);
      var hex := HslToHex(newHue, s, l);
      ComplementaryAt(h, s, l, count, i);
      PrefixExtend(spec, i, colors, hex);
      colors := colors + [hex];
      i := i + 1;
    }
    assert spec[..count] == spec;
  }

  /** `generateSplitComplementaryColors(h, s, l, count)`: the complementary palette below
      three colours, the base and both split complements for three, and otherwise the
      walk from the base through the first split complement to the second. */
  method GenerateSplitComplementaryColors(h: real, s: real, l: real, count: nat) returns (colors: seq<string>)
    ensures colors == SplitComplementaryColors(h, s, l, count)
  {
    if count < 3 {
      colors := GenerateComplementaryColors(h, s, l, count);
      return;
    }
    var complementaryHue := JsRem(h + 180.0, 360.0);
    var splitHue1 := JsRem(complementaryHue - 30.0 + 360.0, 360.0);
    var splitHue2 := JsRem(complementaryHue + 30.0, 360.0);
    assert splitHue1 == SplitHue1(h) && splitHue2 == SplitHue2(h);
    if count == 3 {
      colors := [HslToHex(h, s, l), HslToHex(splitHue1, s, l), HslToHex(splitHue2, s, l)];
      return;
    }
    ghost var spec := SplitComplementaryColors(h, s, l, count);
    colors := [];
    var step := 1.0 / (count - 1) as real;
    var i: nat := 0;
    while i < count
      invariant 0 <= i <= count
      invariant colors == spec[..i]
    {
      var progress := i as real * step;
      var newHue;
      if progress <= 0.5 {
        var p := progress * 2.0;
        newHue := h + p * JsRem(splitHue1 - h + 360.0, 360.0);
        SplitFirstLeg(h, count, i, splitHue1, step, progress, p, newHue);
        if newHue >= 360.0 { newHue := newHue - 360.0; }
      } else {
        var p := (progress - 0.5) * 2.0;
        newHue := splitHue1 + p * JsRem(splitHue2 - splitHue1 + 360.0, 360.0);
        SplitSecondLeg(h, count, i, splitHue1, splitHue2, step, progress, p, newHue);
        if newHue >= 360.0 { newHue := newHue - 360.0; }
      }
      var hex := HslToHex(newHue, s, l);
      SplitAt(h, s, l, count, i);
      PrefixExtend(spec, i, colors, hex);
      colors := colors + [hex];
      i := i + 1;
    }
    assert spec[..count] == spec;
  }

  // ---------------------------------------------------------------------------
  // generateColorScheme

  /** `generateColorScheme()`: decode the base colour, run the generator of the chosen
      harmony and name the scheme after it. */
  method GenerateColorScheme(baseColor: string, harmonyType: HarmonyType, colorCount: nat) returns (scheme: ColorScheme)
    requires WellFormedHex(baseColor) && CanGenerate(harmonyType, colorCount)
    ensures scheme == Scheme(baseColor, harmonyType, colorCount)
  {
    var c := HexToHsl(baseColor);
    var h, s, l := c.h, c.s, c.l;
    var colors: seq<string>;
    var schemeName: string;
    match harmonyType {
      case Analogous =>
        schemeName := "Analogous";
        colors := GenerateAnalogousColors(h, s, l, colorCount);
      case Monochromatic =>
        schemeName := "Monochromatic";
        colors := GenerateMonochromaticColors(h, s, l, colorCount);
      case Triadic =>
        schemeName := "Triadic";
        colors := GenerateTriadicColors(h, s, l, colorCount);
      case Complementary =>
        schemeName := "Complementary";
        colors := GenerateComplementaryColors(h, s, l, colorCount);
      case SplitComplementary =>
        schemeName := "Split Complementary";
        colors := GenerateSplitComplementaryColors(h, s, l, colorCount);
    }
    scheme := ColorScheme(schemeName, colors);
  }
}
