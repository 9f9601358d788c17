/** Exact-real models of the JavaScript number operations the colour code relies on:
    `Math.round`, `Math.min`/`Math.max`, `Math.floor` (Dafny's `.Floor`) and the
    remainder operator `%`, whose result takes the sign of the dividend. */
module JsMath {

  /** `Math.round(x)`: the nearest integer, halves rounded up, i.e. `floor(x + 0.5)`. */
  function Round(x: real): (n: int)
    ensures n as real - 0.5 <= x < n as real + 0.5
  {
    (x + 0.5).Floor
  }

  /** The integer part of `x`, truncated toward zero. */
  function Trunc(x: real): (n: int)
    ensures 0.0 <= x ==> 0 <= n && n as real <= x < n as real + 1.0
    ensures x < 0.0 ==> n <= 0 && n as real - 1.0 < x <= n as real
  {
    if x >= 0.0 then x.Floor else -((-x).Floor)
  }

  /** `Math.min(a, b)` on numbers. */
  function Min(a: real, b: real): (m: real)
    ensures m <= a && m <= b && (m == a || m == b)
  {
    if a <= b then a else b
  }

  /** `Math.max(a, b)` on numbers. */
  function Max(a: real, b: real): (m: real)
    ensures a <= m && b <= m && (m == a || m == b)
  {
    if a >= b then a else b
  }

  /** `Math.min(a, b)` where both are integers: Min on `int`, for the anchor indices of
      the triadic palette, which are `Math.floor` results and index a sequence. */
  function MinInt(a: int, b: int): (m: int)
    ensures m <= a && m <= b && (m == a || m == b)
  {
    if a <= b then a else b
  }

  /** JavaScript's `x % y`: `x - y * trunc(x / y)`. Unlike the Euclidean remainder, a
      negative dividend gives a non-positive result. */
  function JsRem(x: real, y: real): real
    requires y != 0.0
  {
    x - y * Trunc(x / y) as real
  }

  /** Dividing a remainder by its divisor: the fractional part of the quotient. */
  lemma RemainderFraction(x: real, y: real)
    requires 0.0 < y && 0.0 <= x
    ensures 0.0 <= JsRem(x, y) / y < 1.0
    ensures JsRem(x, y) / y == x / y - (x / y).Floor as real
  {
    var t := Trunc(x / y) as real;
    assert 0.0 <= x / y;
    assert (x - y * t) / y == x / y - t;
  }

  /** The Euclidean representative of `x` modulo 360, in [0, 360): the reference
      meaning of "a hue normalised onto the colour wheel". */
  function Wrap360(x: real): (r: real)
    ensures 0.0 <= r < 360.0
    ensures (x - r) / 360.0 == (x / 360.0).Floor as real
  {
    x - 360.0 * (x / 360.0).Floor as real
  }

  /** Wrap360 is the only value in [0, 360) that differs from `x` by a whole number of turns. */
  lemma Wrap360Unique(x: real, k: int)
    requires 0.0 <= x + 360.0 * k as real < 360.0
    ensures Wrap360(x) == x + 360.0 * k as real
  {
    var f := (x / 360.0).Floor;
    assert f as real <= x / 360.0 < f as real + 1.0;
    assert -k as real <= x / 360.0 < -k as real + 1.0;
    assert f == -k;
  }

  /** For a non-negative dividend, JavaScript's `% 360` agrees with the Euclidean wrap. */
  lemma JsRemNonNegative(x: real)
    requires 0.0 <= x
    ensures JsRem(x, 360.0) == Wrap360(x)
  {
    var t := Trunc(x / 360.0);
    Wrap360Unique(x, -t);
  }

  /** A dividend in (-360, 0) is its own remainder. */
  lemma JsRemSmallNegative(x: real)
    requires -360.0 < x < 0.0
    ensures JsRem(x, 360.0) == x
  {
  }

  /** `% 360` followed by "add 360 if negative" (the analogous generator's idiom) is
      exactly the Euclidean wrap, for every real `x`. */
  lemma JsRemThenLift(x: real)
    ensures var r := JsRem(x, 360.0); (if r < 0.0 then r + 360.0 else r) == Wrap360(x)
  {
    var t := Trunc(x / 360.0);
    var r := JsRem(x, 360.0);
    if r < 0.0 {
      Wrap360Unique(x, 1 - t);
    } else {
      Wrap360Unique(x, -t);
    }
  }

  /** Values a whole number of turns apart wrap to the same hue. */
  lemma Wrap360Shift(x: real, y: real, k: int)
    requires x == y + 360.0 * k as real
    ensures Wrap360(x) == Wrap360(y)
  {
    var f := (y / 360.0).Floor;
    assert y - Wrap360(y) == 360.0 * f as real;
    Wrap360Unique(x, -(k + f));
  }

  /** `Wrap360(x)` differs from `x` by a whole number of turns. */
  lemma Wrap360Turns(x: real) returns (k: int)
    ensures Wrap360(x) == x + 360.0 * k as real
  {
    k := -(x / 360.0).Floor;
  }
}
