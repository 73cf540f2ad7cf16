/** Conversion between RGB (channels in [0, 255]) and HSV (components in [0, 1]). */
module ColorSpace {
  import opened JsNumber

  datatype Rgb = Rgb(r: real, g: real, b: real) {
    /** The channel at array position `n` of [r, g, b]. */
    function Channel(n: int): real
      requires 0 <= n < 3
    {
      if n == 0 then r else if n == 1 then g else b
    }
  }
  datatype Hsv = Hsv(h: real, s: real, v: real)

  /** `Math.max(a, b, c)`. */
  function Max3(a: real, b: real, c: real): (m: real)
    ensures a <= m && b <= m && c <= m
    ensures m == a || m == b || m == c
  {
    if a >= b && a >= c then a else if b >= c then b else c
  }

  /** `Math.min(a, b, c)`. */
  function Min3(a: real, b: real, c: real): (m: real)
    ensures m <= a && m <= b && m <= c
    ensures m == a || m == b || m == c
  {
    if a <= b && a <= c then a else if b <= c then b else c
  }

  /** The hue sector before the final division by 6, for a chromatic colour
      (`max != min`); `switch(max)` tries r, then g, then b. Whichever case
      it picks, the sector value lies in [0, 6). */
  function HueSixths(r: real, g: real, b: real, max: real, d: real): (k: real)
    requires d != 0.0
    ensures max == Max3(r, g, b) && d == max - Min3(r, g, b) ==> 0.0 <= k < 6.0
  {
    if max == r then
      RatioWithin(g - b, d);
      (g - b) / d + (if g < b then 6.0 else 0.0)
    else if max == g then
      RatioWithin(b - r, d);
      (b - r) / d + 2.0
    else
      RatioWithin(r - g, d);
      (r - g) / d + 4.0
  }

  /** RGB to HSV: v is the largest channel, s the spread relative to it (0 when
      it is 0), h the 6-sector hue, 0 for a grey. */
  function RgbToHsv(r: real, g: real, b: real): (hsv: Hsv)
    ensures 0.0 <= hsv.h < 1.0
    ensures Max3(r, g, b) == Min3(r, g, b) ==> hsv.h == 0.0 && hsv.s == 0.0
    ensures hsv.v == Max3(r, g, b) / 255.0
    ensures 0.0 <= r <= 255.0 && 0.0 <= g <= 255.0 && 0.0 <= b <= 255.0 ==>
              0.0 <= hsv.s <= 1.0 && 0.0 <= hsv.v <= 1.0
  {
    var r, g, b := r / 255.0, g / 255.0, b / 255.0;
    var max := Max3(r, g, b);
    var min := Min3(r, g, b);
    var v := max;
    var d := max - min;
    var s := if max == 0.0 then 0.0 else d / max;
    var h := if max == min then 0.0
             else HueSixths(r, g, b, max, d) / 6.0;
    assert 0.0 <= min && max != 0.0 ==> 0.0 <= s <= 1.0 by {
      if 0.0 <= min && max != 0.0 { SpreadRatioRange(max, min); }
    }
    Hsv(h, s, v)
  }

  /** A quotient whose numerator lies within the (positive) divisor lies in
      [-1, 1], and is negative with a negative numerator. */
  lemma RatioWithin(n: real, d: real)
    ensures d > 0.0 && -d <= n <= d ==> -1.0 <= n / d <= 1.0 && (n < 0.0 ==> n / d < 0.0)
  {
  }

  lemma NegativeRatio(n: real, d: real)
    requires d > 0.0 && n < 0.0
    ensures n / d < 0.0
  {
  }

  lemma SpreadRatioRange(max: real, min: real)
    requires 0.0 <= min <= max && max != 0.0
    ensures 0.0 <= (max - min) / max <= 1.0
  {
  }

  /** HSV to RGB through the 6-sector p/q/t formulas, scaled by 255. The sector
      is `floor(h * 6) % 6` with JavaScript's remainder; a negative remainder
      matches no case of the source's `switch`, so it is excluded. */
  function HsvToRgb(h: real, s: real, v: real): (rgb: Rgb)
    requires 0 <= JsRem((h * 6.0).Floor, 6)
    ensures s == 0.0 ==> rgb == Rgb(v * 255.0, v * 255.0, v * 255.0)
  {
    var i := (h * 6.0).Floor;
    var f := h * 6.0 - i as real;
    var p := v * (1.0 - s);
    var q := v * (1.0 - f * s);
    var t := v * (1.0 - (1.0 - f) * s);
    var c := Sector(JsRem(i, 6), v, p, q, t);
    Rgb(c.r * 255.0, c.g * 255.0, c.b * 255.0)
  }

  /** The `switch(i % 6)` of the source. */
  function Sector(k: int, v: real, p: real, q: real, t: real): Rgb
    requires 0 <= k < 6
  {
    if k == 0 then Rgb(v, t, p)
    else if k == 1 then Rgb(q, v, p)
    else if k == 2 then Rgb(p, v, t)
    else if k == 3 then Rgb(p, q, v)
    else if k == 4 then Rgb(t, p, v)
    else Rgb(v, p, q)
  }

  /** Every sector puts the value `v` in channel `(k + 1) / 2 % 3` (r, g, g, b,
      b, r for k = 0 .. 5), the floor `p` in channel `(k / 2 + 2) % 3` (b, b, r,
      r, g, g), and the remaining channel gets the rising `t` in even sectors
      and the falling `q` in odd ones. */
  lemma SectorChannels(k: int, v: real, p: real, q: real, t: real)
    requires 0 <= k < 6
    ensures var c := Sector(k, v, p, q, t);
            var vc, pc := (k + 1) / 2 % 3, (k / 2 + 2) % 3;
            vc != pc &&
            c.Channel(vc) == v && c.Channel(pc) == p &&
            c.Channel(3 - vc - pc) == if k % 2 == 0 then t else q
  {
  }

  predicate InByteRange(x: real) { 0.0 <= x <= 255.0 }

  /** A sector built from values in [0, 1] has its channels in [0, 1]. */
  lemma SectorWithinUnit(k: int, v: real, p: real, q: real, t: real)
    requires 0 <= k < 6
    requires 0.0 <= v <= 1.0 && 0.0 <= p <= 1.0 && 0.0 <= q <= 1.0 && 0.0 <= t <= 1.0
    ensures var c := Sector(k, v, p, q, t); 0.0 <= c.r <= 1.0 && 0.0 <= c.g <= 1.0 && 0.0 <= c.b <= 1.0
  {
  }

  /** For saturation and value in [0, 1] (and any hue the source accepts), every
      output channel lies in [0, 255]. */
  lemma HsvToRgbInRange(h: real, s: real, v: real)
    requires 0 <= JsRem((h * 6.0).Floor, 6)
    requires 0.0 <= s <= 1.0 && 0.0 <= v <= 1.0
    ensures var rgb := HsvToRgb(h, s, v); InByteRange(rgb.r) && InByteRange(rgb.g) && InByteRange(rgb.b)
  {
    var i := (h * 6.0).Floor;
    var f := h * 6.0 - i as real;
    assert 0.0 <= f < 1.0;
    var p := v * (1.0 - s);
    var q := v * (1.0 - f * s);
    var t := v * (1.0 - (1.0 - f) * s);
    assert 0.0 <= p <= 1.0 by { FactorWithin(1.0, s, v); }
    assert 0.0 <= q <= 1.0 by { FactorWithin(f, s, v); }
    assert 0.0 <= t <= 1.0 by { FactorWithin(1.0 - f, s, v); }
    SectorWithinUnit(JsRem(i, 6), v, p, q, t);
    HsvToRgbBySector(h, s, v, JsRem(i, 6), f, p, q, t);
  }

  /** `HsvToRgb` once its intermediate values are named. */
  lemma HsvToRgbBySector(h: real, s: real, v: real, k: int, f: real, p: real, q: real, t: real)
    requires 0 <= JsRem((h * 6.0).Floor, 6) == k
    requires f == h * 6.0 - (h * 6.0).Floor as real
    requires p == v * (1.0 - s) && q == v * (1.0 - f * s) && t == v * (1.0 - (1.0 - f) * s)
    ensures var c := Sector(k, v, p, q, t); HsvToRgb(h, s, v) == Rgb(c.r * 255.0, c.g * 255.0, c.b * 255.0)
  {
  }

  /** `v * (1 - a * s)` stays in [0, v] when a, s and v lie in [0, 1]. */
  lemma FactorWithin(a: real, s: real, v: real)
    requires 0.0 <= a <= 1.0 && 0.0 <= s <= 1.0 && 0.0 <= v <= 1.0
    ensures 0.0 <= v * (1.0 - a * s) <= v <= 1.0
  {
    assert 0.0 <= a * s <= 1.0 by {
      assert a * s <= 1.0 * s;
    }
    var k := 1.0 - a * s;
    assert 0.0 <= v * k <= v by {
      assert v * k <= v * 1.0;
    }
  }

  /** Converting a colour with channels >= 0 to HSV and back gives the colour
      exactly (in exact arithmetic; the source works in floating point). */
  lemma RgbHsvRoundTrip(r: real, g: real, b: real)
    requires 0.0 <= r && 0.0 <= g && 0.0 <= b
    ensures var hsv := RgbToHsv(r, g, b);
            0 <= JsRem((hsv.h * 6.0).Floor, 6) && HsvToRgb(hsv.h, hsv.s, hsv.v) == Rgb(r, g, b)
  {
    var hsv := RgbToHsv(r, g, b);
    var r', g', b' := r / 255.0, g / 255.0, b / 255.0;
    var max := Max3(r', g', b');
    var min := Min3(r', g', b');
    var d := max - min;
    assert hsv.v == max;
    if max == min {
      assert hsv.h == 0.0 && hsv.s == 0.0;
      assert r' == g' == b' == max;
    } else {
      ChromaticRoundTrip(r', g', b', hsv.h, hsv.s, hsv.v);
    }
  }

  /** The round trip for a chromatic colour whose channels are already divided by 255. */
  lemma ChromaticRoundTrip(r: real, g: real, b: real, h: real, s: real, v: real)
    requires 0.0 <= r && 0.0 <= g && 0.0 <= b && Max3(r, g, b) != Min3(r, g, b)
    requires v == Max3(r, g, b) && s == (Max3(r, g, b) - Min3(r, g, b)) / Max3(r, g, b)
    requires h == HueSixths(r, g, b, Max3(r, g, b), Max3(r, g, b) - Min3(r, g, b)) / 6.0
    ensures 0 <= JsRem((h * 6.0).Floor, 6)
    ensures HsvToRgb(h, s, v) == Rgb(r * 255.0, g * 255.0, b * 255.0)
  {
    var max, min := Max3(r, g, b), Min3(r, g, b);
    var d := max - min;
    var six := HueSixths(r, g, b, max, d);
    assert h * 6.0 == six;
    SectorRecovers(r, g, b, max, min, six);
    assert max > 0.0;
    RoundTripBySector(h, s, v, Rgb(r, g, b), max, min, six);
  }

  /** `HsvToRgb` gives `c` scaled by 255 once the sector of `h` is known to rebuild `c`. */
  lemma RoundTripBySector(h: real, s: real, v: real, c: Rgb, max: real, min: real, six: real)
    requires max != 0.0 && v == max && s == (max - min) / max && h * 6.0 == six
    requires 0 <= six.Floor < 6
    requires var f := six - six.Floor as real;
             Sector(six.Floor, max, min, max - f * (max - min), min + f * (max - min)) == c
    ensures 0 <= JsRem((h * 6.0).Floor, 6)
    ensures HsvToRgb(h, s, v) == Rgb(c.r * 255.0, c.g * 255.0, c.b * 255.0)
  {
    var i := six.Floor;
    var f := six - i as real;
    var p, q, t := min, max - f * (max - min), min + f * (max - min);
    assert Sector(i, v, p, q, t) == c;
    assert p == v * (1.0 - s) && q == v * (1.0 - f * s) && t == v * (1.0 - (1.0 - f) * s) by {
      SectorFormulas(max, min, s, f);
    }
    assert (h * 6.0).Floor == i && JsRem(i, 6) == i;
    HsvToRgbBySector(h, s, v, i, f, p, q, t);
  }

  /** For a chromatic colour (channels already divided by 255), the sector and
      fraction recovered from its hue give back the colour, with p = min,
      q = max - f * d and t = min + f * d. */
  lemma SectorRecovers(r: real, g: real, b: real, max: real, min: real, six: real)
    requires 0.0 <= r && 0.0 <= g && 0.0 <= b
    requires max == Max3(r, g, b) && min == Min3(r, g, b) && max != min
    requires six == HueSixths(r, g, b, max, max - min)
    ensures 0 <= six.Floor < 6
    ensures var i := six.Floor;
            var f := six - i as real;
            Sector(i, max, min, max - f * (max - min), min + f * (max - min)) == Rgb(r, g, b)
  {
    if max == r {
      SectorRecoversRed(r, g, b, max, min, six);
    } else if max == g {
      SectorRecoversGreen(r, g, b, max, min, six);
    } else {
      SectorRecoversBlue(r, g, b, max, min, six);
    }
  }

  lemma SectorRecoversRed(r: real, g: real, b: real, max: real, min: real, six: real)
    requires max == Max3(r, g, b) && min == Min3(r, g, b) && max != min && max == r
    requires six == HueSixths(r, g, b, max, max - min)
    ensures 0 <= six.Floor < 6
    ensures var i := six.Floor;
            var f := six - i as real;
            Sector(i, max, min, max - f * (max - min), min + f * (max - min)) == Rgb(r, g, b)
  {
    var d := max - min;
    var u := (g - b) / d;
    RatioWithin(g - b, d);
    RatioTimes(g - b, d);
    if g < b {
      NegativeRatio(g - b, d);
      assert six == u + 6.0 && six.Floor == 5;
      assert (six - 5.0) * d == d + (g - b);
    } else {
      NonNegativeRatio(g - b, d);
      if u == 1.0 {
        assert six.Floor == 1 && six - 1.0 == 0.0;
      } else {
        assert six.Floor == 0;
      }
    }
  }

  lemma SectorRecoversGreen(r: real, g: real, b: real, max: real, min: real, six: real)
    requires max == Max3(r, g, b) && min == Min3(r, g, b) && max != min && max != r && max == g
    requires six == HueSixths(r, g, b, max, max - min)
    ensures 0 <= six.Floor < 6
    ensures var i := six.Floor;
            var f := six - i as real;
            Sector(i, max, min, max - f * (max - min), min + f * (max - min)) == Rgb(r, g, b)
  {
    var d := max - min;
    var u := (b - r) / d;
    RatioWithin(b - r, d);
    RatioTimes(b - r, d);
    assert six == u + 2.0;
    if b < r {
      NegativeRatio(b - r, d);
      assert six.Floor == 1;
      assert (six - 1.0) * d == d + (b - r);
    } else {
      NonNegativeRatio(b - r, d);
      if u == 1.0 {
        assert six.Floor == 3 && six - 3.0 == 0.0;
      } else {
        assert six.Floor == 2;
        assert (six - 2.0) * d == b - r;
      }
    }
  }

  lemma SectorRecoversBlue(r: real, g: real, b: real, max: real, min: real, six: real)
    requires max == Max3(r, g, b) && min == Min3(r, g, b) && max != min && max != r && max != g
    requires six == HueSixths(r, g, b, max, max - min)
    ensures 0 <= six.Floor < 6
    ensures var i := six.Floor;
            var f := six - i as real;
            Sector(i, max, min, max - f * (max - min), min + f * (max - min)) == Rgb(r, g, b)
  {
    var d := max - min;
    var u := (r - g) / d;
    RatioWithin(r - g, d);
    RatioTimes(r - g, d);
    assert six == u + 4.0;
    if r < g {
      NegativeRatio(r - g, d);
      assert u != -1.0;
      assert six.Floor == 3;
      assert (six - 3.0) * d == d + (r - g);
    } else {
      NonNegativeRatio(r - g, d);
      assert u != 1.0;
      assert six.Floor == 4;
      assert (six - 4.0) * d == r - g;
    }
  }

  lemma NonNegativeRatio(n: real, d: real)
    requires d > 0.0 && n >= 0.0
    ensures n / d >= 0.0
  {
  }

  lemma RatioTimes(n: real, d: real)
    requires d != 0.0
    ensures (n / d) * d == n
  {
  }

  /** With v = max and s = d / max, the source's p, q and t are min, max - f * d and min + f * d. */
  lemma SectorFormulas(max: real, min: real, s: real, f: real)
    requires max != 0.0 && s == (max - min) / max
    ensures max * (1.0 - s) == min
    ensures max * (1.0 - f * s) == max - f * (max - min)
    ensures max * (1.0 - (1.0 - f) * s) == min + f * (max - min)
  {
    var d := max - min;
    ScaledSpread(max, d, 1.0);
    ScaledSpread(max, d, f);
    ScaledSpread(max, d, 1.0 - f);
  }

  /** `max * (1 - a * (d / max)) == max - a * d`. */
  lemma ScaledSpread(max: real, d: real, a: real)
    requires max != 0.0
    ensures max * (1.0 - a * (d / max)) == max - a * d
  {
    assert max * (d / max) == d;
    assert max * (a * (d / max)) == a * (max * (d / max));
  }
}
