# HarmonyHue colour harmonies in Dafny

HarmonyHue is a colour-scheme generator. The user picks a base colour as `#RRGGBB`, a
harmony (analogous, monochromatic, triadic, complementary or split-complementary) and a
number of colours. The page then shows the palette and can copy it in two forms: as a
comma-separated list, or as CSS custom properties. This project models the colour
arithmetic behind that, and proves what it computes:

- `js_math.dfy` (`JsMath`): the JavaScript number operations the code relies on.
  - `Math.round` is `floor(x + 0.5)`.
  - `%` is the truncated remainder, whose sign follows the dividend.
  - The Euclidean wrap `Wrap360` is the reference meaning of "a hue on the colour wheel".
- `text.dfy` (`Text`): the string operations the code uses.
  - hexadecimal digits as `parseInt(…, 16)` reads them;
  - `toString(radix)`, which writes lower-case digits;
  - `join`, with a splitting function as its partner, to read a joined text back.
- `color_utils.dfy` (`ColorUtils`): from `utils/colorUtils.ts`.
  - `hexToHSL`, and `hslToHex` with its `hue2rgb` and `toHex` helpers;
  - `getContrastColor`;
  - `generateMonochromaticPalette`, a method with its loop.
- `color_validation.dfy` (`ColorValidation`): `isValidColor`. Its five regular
  expressions are written as predicates and scanners over the string.
- `palettes.dfy` (`Palettes`): the five palettes and the named scheme, as functions of
  the decoded base colour and the count. The lemmas about the palettes are here, and the
  generator methods are proved against these functions.
- `use_color_scheme.dfy` (`UseColorScheme`): from `hooks/useColorScheme.ts`.
  - the five generators, as the loops they are;
  - `generateColorScheme`, the dispatcher that names the scheme and picks the generator.
- `page.dfy` (`HomePage`): what `app/page.tsx` adds.
  - the text "copy all" writes;
  - the CSS variables "copy as CSS variables" writes.

`app/page.tsx` carries its own copies of several functions:

- `hexToHSL`, `hslToHex` and `getContrastColor`: the same text as in `utils/colorUtils.ts`
  (app/page.tsx:31-93 and 317-320).
- the five generators and the dispatcher: the same text as in `hooks/useColorScheme.ts`
  (app/page.tsx:96-270).

Each function is therefore modelled once. Every property proved of the hook's generators
holds, word for word, for the page's copies. In the same way, the hook's
`generateMonochromaticColors` is the loop of `generateMonochromaticPalette`, applied to an
already decoded colour. Both therefore run the same method, `ColorUtils.MonochromaticLoop`.

Numbers are exact reals. Under this model, converting to HSL and back reproduces the
colour exactly: `hslToHex` of `hexToHSL("#RRGGBB")` is `#rrggbb`, the same six digits in
lower case. With floating-point doubles a channel can come back one unit off; that drift
is not modelled.

Two behaviours of the code are easy to miss, and the model follows the code in both:

- Triadic spacing. The palette is not spread evenly over the three arcs between the
  anchors. The next-anchor index is clamped at 2, so only two arcs are interpolated. From two thirds of the way on, every colour is the third anchor;
  with four colours, for example, the palette is the three anchors and the third one again.
  `Palettes.TriadicTail` states this.
- The rgba and hsla alpha field. Its pattern `(\d?\.\d+|\d+)` accepts `0.5` and `.5` but
  not `12.5`. `ColorValidation.RgbaFractionAlpha` states which fractional alphas pass.

## Model

| member | source | states |
|---|---|---|
| `JsMath.Round` | utils/colorUtils.ts:71 | `Math.round` gives the integer within one half of `x`, halves rounding up |
| `JsMath.JsRem` | hooks/useColorScheme.ts:64 | JavaScript's `%` on numbers, whose result takes the dividend's sign; its meaning against the Euclidean wrap is in `JsRemThenLift`, `JsRemNonNegative` and `JsRemSmallNegative` |
| `JsMath.JsRemThenLift` | hooks/useColorScheme.ts:64-65 | `% 360` followed by "add 360 if negative" is exactly the Euclidean wrap into [0, 360), for every real |
| `JsMath.JsRemNonNegative` | hooks/useColorScheme.ts:142 | for a non-negative dividend, JavaScript's `% 360` is the Euclidean wrap |
| `JsMath.JsRemSmallNegative` | hooks/useColorScheme.ts:64 | a dividend in (-360, 0) is its own remainder, so `%` alone leaves negative hues negative |
| `Text.NatToString` | utils/colorUtils.ts:71 | `toString(radix)` writes at least one digit, every digit lower case and below the radix |
| `Text.NatToStringValue` | utils/colorUtils.ts:71 | the digits `toString(radix)` writes denote the number and have no leading zero |
| `Text.IntToString` | utils/colorUtils.ts:71 | `toString(radix)` of any integer: at least one character, with a leading `-` exactly when the number is negative |
| `Text.HexDigitValue` | utils/colorUtils.ts:13-15 | `parseInt(…, 16)` gives each digit of either case a value below 16 |
| `Text.LowerHexDigit` | utils/colorUtils.ts:71 | each digit has a lower-case spelling of the same value, which is the digit itself when it is already lower case |
| `Text.Join` | app/page.tsx:287 | `join(sep)`; read back by `SplitJoin`, and its layout on colours in `HomePage.CopyAllLayout` |
| `Text.SplitJoin` | app/page.tsx:301-303 | the page's `join`, read back by splitting at the separator, gives the joined pieces again when none contains the separator |
| `ColorUtils.StripHash` | utils/colorUtils.ts:10 | the result is the input less exactly one leading `#`, or the input itself exactly when it does not start with `#` |
| `ColorUtils.Channel` | utils/colorUtils.ts:13-15 | channel `k` is the value 0..255 of hexadecimal digits `2k` and `2k + 1` after the `#` |
| `ColorUtils.HueSixths` | utils/colorUtils.ts:25-29 | the hue of a chromatic colour, as the switch computes it, lies in [0, 6) sixths of a turn |
| `ColorUtils.Saturation` | utils/colorUtils.ts:22-23 | the saturation of a chromatic colour lies in (0, 1] |
| `ColorUtils.RgbToHsl` | utils/colorUtils.ts:17-33 | hue in [0, 360), saturation and lightness in [0, 100], for channels in [0, 1] |
| `ColorUtils.HexToHsl` | utils/colorUtils.ts:6-34 | hexToHSL of six hexadecimal digits gives the ranges its comment promises: hue in [0, 360), saturation and lightness in [0, 100] |
| `ColorUtils.HashOptional` | utils/colorUtils.ts:10 | `#RRGGBB` and `RRGGBB` are read alike: one is well formed exactly when the other is, and both give the same HSL |
| `ColorUtils.AchromaticHsl` | utils/colorUtils.ts:19-33 | equal channels give hue 0, saturation 0 and lightness channel/255 * 100 |
| `ColorUtils.UpperChannelOfSaturation` | utils/colorUtils.ts:62 | the `q` hslToHex derives from a computed lightness and saturation is the colour's largest channel |
| `ColorUtils.SectorChannels` | utils/colorUtils.ts:53-67 | hue2rgb at the hue and a third of a turn either side recovers red, green and blue, in every sector of the wheel |
| `ColorUtils.RgbRoundTrip` | utils/colorUtils.ts:17-68 | the channels hslToHex computes from hexToHSL's HSL are exactly the channels hexToHSL started from |
| `ColorUtils.Hue2RgbRange` | utils/colorUtils.ts:53-60 | hue2rgb stays between `p` and `q` |
| `ColorUtils.ChannelRange` | utils/colorUtils.ts:62-63 | for lightness and saturation in [0, 1], 0 <= p <= q <= 1 |
| `ColorUtils.Hue2Rgb` | utils/colorUtils.ts:53-60 | `hue2rgb`: one lift and one drop of `t`, then the four-branch sector formula; its range is `Hue2RgbRange`, its values in each sector `SectorChannels` |
| `ColorUtils.HslToRgb` | utils/colorUtils.ts:44-68 | the channels `hslToHex` computes before writing them: grey for saturation 0, else hue2rgb at the hue and a third of a turn either side; unit range in `HslToRgbInUnit`, inverse of hexToHSL's channels in `RgbRoundTrip` |
| `ColorUtils.HslToRgbInUnit` | utils/colorUtils.ts:43-68 | for an in-range colour every computed channel lies in [0, 1] |
| `ColorUtils.ToHex` | utils/colorUtils.ts:70-73 | `toHex`: the rounded channel in base 16, padded with one `0` when it has one digit; two lower-case digits denoting the byte in `ToHexByte` |
| `ColorUtils.HslToHex` | utils/colorUtils.ts:43-76 | `hslToHex`: `#` and the three channels' toHex; its shape is `HslToHexShape`, its inverse on canonical colours `RoundTrip` and `CanonicalRoundTrip` |
| `ColorUtils.ByteHex` | utils/colorUtils.ts:70-73 | a value 0..255 is written as two lower-case digits that denote it |
| `ColorUtils.ToHexByte` | utils/colorUtils.ts:70-73 | toHex of a channel in range writes its rounded value as exactly two digits, padding with `0` |
| `ColorUtils.RgbToHexChannels` | utils/colorUtils.ts:70-75 | channels in [0, 1] are written as `#` and their three rounded values, two digits each |
| `ColorUtils.HslToHexShape` | utils/colorUtils.ts:43-76 | hslToHex of an in-range colour is `#` followed by exactly six lower-case hexadecimal digits |
| `ColorUtils.AchromaticHex` | utils/colorUtils.ts:50-51 | with saturation 0, every channel is `round(l / 100 * 255)`, whatever the hue |
| `ColorUtils.CanonicalIsWellFormed` | utils/colorUtils.ts:8-15 | every colour hslToHex writes is an input hexToHSL reads in full |
| `ColorUtils.ChannelHex` | utils/colorUtils.ts:13-15 | each parsed channel is written back as the lower-case spelling of its own two digits |
| `ColorUtils.HexChannelsRoundTrip` | utils/colorUtils.ts:8-68 | decoding a hex colour and computing hslToHex's channels gives the parsed channels divided by 255 |
| `ColorUtils.RoundTrip` | utils/colorUtils.ts:8-76 | hslToHex of hexToHSL(`#RRGGBB`) is `#rrggbb`, the same six digits in lower case |
| `ColorUtils.CanonicalRoundTrip` | utils/colorUtils.ts:8-76 | on the colours hslToHex writes, decoding and re-encoding is the identity |
| `ColorUtils.ContrastColor` | utils/colorUtils.ts:83-86 | the contrast colour is black or white |
| `ColorUtils.ContrastByChannels` | utils/colorUtils.ts:83-86 | black exactly when the largest and smallest channel add up to more than 306, i.e. when the lightness is above 60% |
| `ColorUtils.LightnessOfBytes` | utils/colorUtils.ts:17-19 | the lightness of three channels 0..255 is above 60% exactly when max + min > 306 |
| `ColorUtils.MonochromaticLightness` | utils/colorUtils.ts:97-100 | each lightness of a monochromatic palette lies in [0, 100] |
| `ColorUtils.MonochromaticColors` | utils/colorUtils.ts:94-105 | a monochromatic palette has `count` colours |
| `ColorUtils.GenerateMonochromaticPalette` | utils/colorUtils.ts:94-105 | the palette is colour `i` = hslToHex of the base hue and saturation at the clamped lightness `l - 30 + 60 * i / (count - 1)` |
| `ColorUtils.MonochromaticLoop` | utils/colorUtils.ts:96-104 | the loop pushes exactly the colours of the monochromatic palette, in order |
| `ColorUtils.MonochromaticShape` | utils/colorUtils.ts:99-102 | for an in-range hue and saturation, every colour is `#` and six lower-case digits |
| `ColorUtils.MonochromaticOrdered` | utils/colorUtils.ts:97-100 | the lightness never decreases along the palette |
| `ColorUtils.ClampedOrdered` | utils/colorUtils.ts:100 | with a non-negative step, the clamped lightness is monotone in `i` |
| `ColorUtils.MonochromaticSpan` | utils/colorUtils.ts:97-100 | for a base lightness in [30, 70] nothing is clamped, and the palette runs from `l - 30` to `l + 30` |
| `ColorValidation.HexDigitCount` | utils/colorUtils.ts:114-128 | `#` and hexadecimal digits is a valid colour exactly when there are 3, 4, 6 or 8 of them |
| `ColorValidation.RgbAccepted` | utils/colorUtils.ts:117 | `rgb(a,b,c)` with unsigned integers is a valid colour |
| `ColorValidation.HslAccepted` | utils/colorUtils.ts:121 | `hsl(a,b%,c%)` is a valid colour |
| `ColorValidation.HslWithoutPercentRejected` | utils/colorUtils.ts:121-128 | `hsl(a,b,c)` without the `%` signs matches none of the five patterns |
| `ColorValidation.RgbaDigitsAccepted` | utils/colorUtils.ts:118 | `rgba(a,b,c,x)` with an integer alpha is a valid colour |
| `ColorValidation.RgbaFractionAlpha` | utils/colorUtils.ts:118-128 | `rgba(a,b,c,p.f)` is valid exactly when at most one digit precedes the point |
| `ColorValidation.HslaDigitsAccepted` | utils/colorUtils.ts:122 | `hsla(a,b%,c%,x)` with an integer alpha is a valid colour |
| `ColorValidation.AlphaFraction` | utils/colorUtils.ts:118 | the alpha alternative `\d?\.\d+` takes a fraction exactly when at most one digit precedes the point |
| `ColorValidation.IsHexPattern` | utils/colorUtils.ts:114 | the hex pattern; which digit counts it accepts is `HexDigitCount` |
| `ColorValidation.IsRgbPattern` | utils/colorUtils.ts:117 | the rgb pattern; accepted inputs in `RgbAccepted` |
| `ColorValidation.IsRgbaPattern` | utils/colorUtils.ts:118 | the rgba pattern; integer alphas in `RgbaDigitsAccepted`, fractional alphas in `RgbaFractionAlpha` |
| `ColorValidation.IsHslPattern` | utils/colorUtils.ts:121 | the hsl pattern; accepted inputs in `HslAccepted`, the `%` signs required by `HslWithoutPercentRejected` |
| `ColorValidation.IsHslaPattern` | utils/colorUtils.ts:122 | the hsla pattern; integer alphas in `HslaDigitsAccepted` |
| `ColorValidation.IsValidColor` | utils/colorUtils.ts:112-129 | `isValidColor`: any of the five patterns matches; the lemmas above say what each accepts and rejects |
| `Palettes.Fraction` | hooks/useColorScheme.ts:150 | `i / (count - 1)` runs from 0 at the first colour to 1 at the last |
| `Palettes.AnalogousHue` | hooks/useColorScheme.ts:64-65 | every analogous hue lies in [0, 360) |
| `Palettes.AnalogousHueWrap` | hooks/useColorScheme.ts:61-65 | colour `i` has hue `h - 15 + 30 * i / (count - 1)` wrapped onto the wheel |
| `Palettes.AnalogousEnds` | hooks/useColorScheme.ts:59-69 | the analogous palette runs from `h - 15` to `h + 15`, wrapped |
| `Palettes.AnalogousColors` | hooks/useColorScheme.ts:59-69 | an analogous palette has `count` colours |
| `Palettes.ComplementOnWheel` | hooks/useColorScheme.ts:142 | `(h + 180) % 360` is the hue half a turn away, on the wheel |
| `Palettes.ComplementaryHueWrap` | app/page.tsx:218-224 | an interpolated hue, after one subtraction of 360, is `h + 180 * i / (count - 1)` wrapped into [0, 360); it starts at `h` and ends at the complement |
| `Palettes.ComplementaryColors` | hooks/useColorScheme.ts:135-158 | the complementary palette of a decoded colour; length and ends in `ComplementaryShape`, hues in `ComplementaryHueWrap`, canonical colours in `ComplementaryCanonical`, the loop in `UseColorScheme.GenerateComplementaryColors` |
| `Palettes.ComplementaryShape` | hooks/useColorScheme.ts:135-158 | the base alone below two colours; otherwise `count` colours, starting with the base and ending with its complement |
| `Palettes.SplitHues` | hooks/useColorScheme.ts:169-171 | the split complements are the hues 150 and 210 degrees from the base, on the wheel |
| `Palettes.SplitArcs` | hooks/useColorScheme.ts:186-193 | the walk covers 150 degrees from the base to the first split complement, then 60 degrees to the second |
| `Palettes.SplitComplementaryColors` | hooks/useColorScheme.ts:161-201 | the split-complementary palette of a decoded colour; length and ends in `SplitComplementaryShape`, hues in `SplitHueWrap`, canonical colours in `SplitComplementaryCanonical`, the loop in `UseColorScheme.GenerateSplitComplementaryColors` |
| `Palettes.SplitHueWrap` | app/page.tsx:249-266 | the base-to-split1 branch is taken exactly when `i / (count - 1) <= 1/2`; each branch's hue, closed form, stays in [0, 360); it starts at `h` and ends at split 2 |
| `Palettes.SplitComplementaryShape` | hooks/useColorScheme.ts:161-201 | the complementary palette below three colours; otherwise `count` colours from the base to the second split complement |
| `Palettes.TriadicAnchors` | hooks/useColorScheme.ts:94-98 | there are three anchors |
| `Palettes.AnchorHues` | hooks/useColorScheme.ts:96-97 | the anchors sit at the base hue plus 120 and 240 degrees, wrapped |
| `Palettes.AnchorsCanonical` | hooks/useColorScheme.ts:94-98 | for an in-range base, every anchor is `#` and six lower-case digits |
| `Palettes.TriadIndex` | hooks/useColorScheme.ts:109-110 | `triadIndex` is always 0, 1 or 2, so both anchor reads are in bounds |
| `Palettes.Progress` | hooks/useColorScheme.ts:111 | `progress` is the fractional part of `i / segmentsPerTriad`, in [0, 1) |
| `Palettes.HueDeltaShortest` | hooks/useColorScheme.ts:120 | the signed turn lies in [-180, 180), is the shorter way round, and lands on the target hue |
| `Palettes.BackOnWheelWrap` | hooks/useColorScheme.ts:121-122 | within a turn either side of the wheel, one lift and one drop wrap the hue |
| `Palettes.TurnBounds` | hooks/useColorScheme.ts:120 | a fraction of the signed turn stays within half a turn |
| `Palettes.BlendHue` | hooks/useColorScheme.ts:120-122 | the blended hue is the first hue moved by a fraction of the shorter turn, wrapped |
| `Palettes.BlendBetween` | hooks/useColorScheme.ts:124-125 | the blended saturation and lightness lie between the two colours' own |
| `Palettes.BlendInRange` | hooks/useColorScheme.ts:116-125 | blending two in-range colours gives an in-range colour |
| `Palettes.BlendSelf` | hooks/useColorScheme.ts:120-125 | blending a colour with itself changes nothing |
| `Palettes.BlendColorSelf` | hooks/useColorScheme.ts:116-127 | blending an anchor with itself, through hexToHSL and hslToHex, gives the anchor back |
| `Palettes.PlaceOf` | hooks/useColorScheme.ts:109-114 | each colour lies on anchor 0, 1 or 2, or strictly between an anchor and the next |
| `Palettes.TriadicColors` | hooks/useColorScheme.ts:85-132 | a triadic palette has `count` colours |
| `Palettes.Interpolated` | hooks/useColorScheme.ts:105-131 | the interpolated triadic palette has `count` colours |
| `Palettes.TriadicTail` | hooks/useColorScheme.ts:109-114 | from two thirds of the way on, every colour is the third anchor |
| `Palettes.TriadicEnds` | hooks/useColorScheme.ts:108-114 | the interpolated palette starts at the first anchor and ends at the third |
| `Palettes.TriadicPaletteEnds` | hooks/useColorScheme.ts:94-129 | a triadic palette of more than three colours starts at the base colour and ends at the hue 240 degrees on |
| `Palettes.AnalogousCanonical` | hooks/useColorScheme.ts:63-66 | every analogous colour is `#` and six lower-case digits |
| `Palettes.ComplementaryCanonical` | hooks/useColorScheme.ts:138-155 | every complementary colour is `#` and six lower-case digits |
| `Palettes.SplitComplementaryCanonical` | hooks/useColorScheme.ts:164-200 | every split-complementary colour is `#` and six lower-case digits |
| `Palettes.BlendColorCanonical` | hooks/useColorScheme.ts:116-127 | a blend of two canonical colours is canonical |
| `Palettes.TriadicColorCanonical` | hooks/useColorScheme.ts:113-127 | every interpolated triadic colour is canonical |
| `Palettes.TriadicCanonical` | hooks/useColorScheme.ts:85-132 | every triadic colour is `#` and six lower-case digits |
| `Palettes.SchemeNamesDistinct` | hooks/useColorScheme.ts:32-53 | different harmonies get different display names |
| `Palettes.SchemeName` | hooks/useColorScheme.ts:32-53 | the display name of each harmony; all five differ, by `SchemeNamesDistinct` |
| `Palettes.HarmonyColors` | hooks/useColorScheme.ts:32-53 | the palette of the chosen harmony; its length and colours in `SchemeShape`, its small-count cases in `SchemeFallbacks` |
| `Palettes.Scheme` | hooks/useColorScheme.ts:27-56 | the named scheme of a base colour; `UseColorScheme.GenerateColorScheme` is proved to compute it |
| `Palettes.SchemeShape` | components/ColorSchemeControls.tsx:75-76 | for every count the slider offers (2 to 9) and beyond, every scheme has `count` colours, each `#` and six lower-case digits |
| `Palettes.SchemeFallbacks` | hooks/useColorScheme.ts:88-91 | triadic below three colours is analogous, split-complementary below three is complementary, and complementary below two is the base colour alone, in lower case |
| `UseColorScheme.GenerateAnalogousColors` | hooks/useColorScheme.ts:59-69 | the loop pushes exactly the analogous palette: colour `i` at hue `h - 15 + 30 * i / (count - 1)`, wrapped |
| `UseColorScheme.GenerateMonochromaticColors` | hooks/useColorScheme.ts:72-82 | the loop pushes exactly the monochromatic palette |
| `UseColorScheme.GenerateTriadicColors` | hooks/useColorScheme.ts:85-132 | the analogous palette below three colours, the three anchors for three, and the interpolated palette above three |
| `UseColorScheme.InterpolateAll` | hooks/useColorScheme.ts:105-131 | the loop pushes exactly the interpolated triadic palette over the anchors |
| `UseColorScheme.BlendAnchors` | hooks/useColorScheme.ts:116-127 | one blended colour is hslToHex of the blend of both decoded anchors |
| `UseColorScheme.Interpolate` | hooks/useColorScheme.ts:120-125 | the interpolated hue, saturation and lightness are the blend of the two colours |
| `UseColorScheme.GenerateComplementaryColors` | hooks/useColorScheme.ts:135-158 | the base alone, the base and its complement, or the palette from the base to the complement |
| `UseColorScheme.GenerateSplitComplementaryColors` | hooks/useColorScheme.ts:161-201 | the complementary palette, the base and both split complements, or the two-leg walk through them |
| `UseColorScheme.GenerateColorScheme` | hooks/useColorScheme.ts:27-56 | the scheme is named after the chosen harmony and holds that harmony's palette of the decoded base colour |
| `HomePage.CopyAllLayout` | app/page.tsx:287 | the "copy all" text of canonical colours: colour `k` occupies the seven characters from `9k`, with `, ` between colours |
| `HomePage.CopyAllText` | app/page.tsx:287 | the "copy all" text; its layout is `CopyAllLayout` |
| `HomePage.CssLine` | app/page.tsx:302 | one CSS declaration; its number and layout are `CssLineNumber` |
| `HomePage.CssLines` | app/page.tsx:301-303 | there is one declaration per colour |
| `HomePage.CssLineNumber` | app/page.tsx:302 | declaration `i` is `--color-N: color;`, where `N` is `i + 1` in decimal without leading zeros |
| `HomePage.CssVariablesLines` | app/page.tsx:301-305 | read line by line, the CSS text is `:root {`, one declaration per colour in order, then `}` |
| `HomePage.CssVariables` | app/page.tsx:301-305 | the "copy as CSS variables" text; its lines are `CssVariablesLines` |

## Left out

- `toHexColor` (utils/colorUtils.ts:136-157): it depends on the DOM and on the browser's colour parser.
- The clipboard writes and toast notifications in `copyAllToClipboard` and `copyAsCSSVariables`, and copying a single colour: browser I/O. Only the strings written are modelled.
- React state and effects (`useState`, `useEffect`, `setColorScheme`), and the default parameter values. "Recompute on change" is the dispatcher `UseColorScheme.GenerateColorScheme`, called on the current inputs.
- The components, the theme toggle, the layout and the build configuration: presentation only. The slider range 2 to 9 is kept as the count `Palettes.SchemeShape` covers.
- IEEE-754 doubles: numbers are exact reals, so rounding drift, `NaN` and `Infinity` do not arise.
- ColorUtils.HexToHsl: requires an optional `#` and six hexadecimal digits. The source's result on shorter or malformed input is `NaN` from `parseInt`, which is not modelled.
- ColorUtils.GenerateMonochromaticPalette: requires `count != 1`. JavaScript divides by zero there: the lightness is `NaN`, and the one colour pushed is the string `#NaNNaNNaN`, which is not modelled.
- UseColorScheme.GenerateMonochromaticColors: requires `count != 1`. As in `generateMonochromaticPalette`, the step is `60 / 0`, the lightness becomes `NaN` and the single colour written is `#NaNNaNNaN`.
- UseColorScheme.GenerateAnalogousColors: requires `count != 1`. There the step is `30 / 0`, so the one hue is `NaN`, every comparison in `hue2rgb` is false, and all three channels are `p`: the source returns one colour, the grey at the base's smallest channel (`#000000` for `#ff0000`), or the base's grey when its saturation is 0. That `NaN` path is not modelled.
- UseColorScheme.GenerateTriadicColors: requires `count != 1`, because below three colours it is the analogous generator and returns that same single grey at count 1.
- UseColorScheme.GenerateTriadicColors: above three colours, requires the base colour in the ranges hexToHSL produces. The dispatcher always provides that, and the proof that the decoded anchors are well formed needs it.
- UseColorScheme.GenerateColorScheme: requires a well-formed base colour, and a count other than 1 for the analogous, monochromatic and triadic harmonies. At count 1 the source gives `#NaNNaNNaN` for monochromatic and the single grey described above for analogous and triadic; complementary and split-complementary are modelled at every count.
- `parseInt`'s leniency on a two-character pair: leading whitespace is skipped, a `+` or `-` sign is accepted (`parseInt("-f", 16)` is -15), and a hexadecimal digit followed by a non-digit still parses as that digit. The model reads only pairs of two hexadecimal digits.
- The regular expressions: written out as hand-made scanners for the five fixed patterns, not through a general regex engine.
- The page's copies of `hexToHSL`, `hslToHex`, `getContrastColor`, the generators and the dispatcher: textually identical to the utility and hook versions, so each is modelled once.
- Some helper methods and functions stand for inline expressions of the source and have no counterpart of their own there:
  - `UseColorScheme.InterpolateAll`, `UseColorScheme.BlendAnchors`, `UseColorScheme.Interpolate` and `ColorUtils.MonochromaticLoop`: the loop and the blend step;
  - `Palettes.HueDelta`, `Palettes.TriadIndex`, `Palettes.Progress`, `Palettes.PlaceOf`, `Palettes.PlaceColor`: the inline triadic expressions;
  - `ColorUtils.RgbToHex` and `ColorUtils.ClampedLightness`: the return line of `hslToHex` and the monochromatic lightness expression.
