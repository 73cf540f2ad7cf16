/** The stateless numeric helpers of the filter engine: clamping, linear and
    bilinear interpolation, colour mixing and the luminosity weight. */
module Interpolation {

  /** An RGBA colour as the engine passes it around: four channel values,
      held by the source as a 4-element array [r, g, b, a]. */
  datatype Rgba = Rgba(r: real, g: real, b: real, a: real) {
    /** The channel at array position `c` of [r, g, b, a]. */
    function Channel(c: nat): real
      requires c < 4
    {
      if c == 0 then r else if c == 1 then g else if c == 2 then b else a
    }
  }

  function Min(a: real, b: real): real { if a <= b then a else b }
  function Max(a: real, b: real): real { if a <= b then b else a }

  function Abs(n: int): nat { if n < 0 then -n else n }

  /** Saturation of `val` to `[lo, hi]`. */
  function Clamp(val: int, lo: int, hi: int): (r: int)
    ensures lo <= hi ==> lo <= r <= hi
    ensures lo <= hi ==> (r == val <==> lo <= val <= hi)
  {
    if val < lo then lo else if val > hi then hi else val
  }

  /** The clamped value is the point of `[lo, hi]` nearest to `val`. */
  lemma ClampIsNearest(val: int, lo: int, hi: int, z: int)
    requires lo <= z <= hi
    ensures Abs(Clamp(val, lo, hi) - val) <= Abs(z - val)
  {
  }

  /** Clamping twice is clamping once. */
  lemma ClampIdempotent(val: int, lo: int, hi: int)
    requires lo <= hi
    ensures Clamp(Clamp(val, lo, hi), lo, hi) == Clamp(val, lo, hi)
  {
  }

  /** `a + t * (b - a)`: no bound on `t`, so it also extrapolates. */
  function LinearInterpolate(t: real, a: real, b: real): (r: real)
    ensures t == 0.0 ==> r == a
    ensures t == 1.0 ==> r == b
    ensures r == (1.0 - t) * a + t * b
  {
    a + t * (b - a)
  }

  /** For `t` in [0, 1] the interpolated value lies between its end points. */
  lemma LinearInterpolateBetween(t: real, a: real, b: real)
    requires 0.0 <= t <= 1.0
    ensures Min(a, b) <= LinearInterpolate(t, a, b) <= Max(a, b)
  {
    var d := b - a;
    assert LinearInterpolate(t, a, b) == a + t * d;
    if d >= 0.0 {
      ProductNonNegative(t, d);
      ProductNonNegative(1.0 - t, d);
      assert t * d + (1.0 - t) * d == d;
    } else {
      ProductNonNegative(t, -d);
      ProductNonNegative(1.0 - t, -d);
      assert t * (-d) + (1.0 - t) * (-d) == -d;
    }
  }

  lemma ProductNonNegative(p: real, q: real)
    requires 0.0 <= p && 0.0 <= q
    ensures 0.0 <= p * q
  {
  }

  /** The source's form of one bilinear channel: `cy * (cx * c0 + x * c1) + y * (cx * c2 + x * c3)`. */
  function BilinearChannel(x: real, y: real, c0: real, c1: real, c2: real, c3: real): (r: real)
    ensures x == 0.0 && y == 0.0 ==> r == c0
    ensures x == 1.0 && y == 0.0 ==> r == c1
    ensures x == 0.0 && y == 1.0 ==> r == c2
    ensures x == 1.0 && y == 1.0 ==> r == c3
  {
    var cx := 1.0 - x;
    var cy := 1.0 - y;
    var m0 := cx * c0 + x * c1;
    var m1 := cx * c2 + x * c3;
    cy * m0 + y * m1
  }

  /** The source's weights are two linear interpolations along x followed by one along y. */
  lemma BilinearChannelIsLinear(x: real, y: real, c0: real, c1: real, c2: real, c3: real)
    ensures BilinearChannel(x, y, c0, c1, c2, c3)
         == LinearInterpolate(y, LinearInterpolate(x, c0, c1), LinearInterpolate(x, c2, c3))
  {
    var m0 := LinearInterpolate(x, c0, c1);
    var m1 := LinearInterpolate(x, c2, c3);
    assert m0 == (1.0 - x) * c0 + x * c1;
    assert m1 == (1.0 - x) * c2 + x * c3;
    assert LinearInterpolate(y, m0, m1) == (1.0 - y) * m0 + y * m1;
  }

  /** Bilinear interpolation of four neighbouring colours at fractional
      offset (x, y); every channel, alpha included, uses the same weights:
      two linear interpolations along x, then one along y. */
  function BilinearInterpolate(x: real, y: real, nw: Rgba, ne: Rgba, sw: Rgba, se: Rgba): (c: Rgba)
    ensures forall ch :: 0 <= ch < 4 ==>
      c.Channel(ch) == LinearInterpolate(y, LinearInterpolate(x, nw.Channel(ch), ne.Channel(ch)),
                                            LinearInterpolate(x, sw.Channel(ch), se.Channel(ch)))
    ensures x == 0.0 && y == 0.0 ==> c == nw
    ensures x == 1.0 && y == 0.0 ==> c == ne
    ensures x == 0.0 && y == 1.0 ==> c == sw
    ensures x == 1.0 && y == 1.0 ==> c == se
  {
    BilinearChannelIsLinear(x, y, nw.r, ne.r, sw.r, se.r);
    BilinearChannelIsLinear(x, y, nw.g, ne.g, sw.g, se.g);
    BilinearChannelIsLinear(x, y, nw.b, ne.b, sw.b, se.b);
    BilinearChannelIsLinear(x, y, nw.a, ne.a, sw.a, se.a);
    var a := BilinearChannel(x, y, nw.a, ne.a, sw.a, se.a);
    var r := BilinearChannel(x, y, nw.r, ne.r, sw.r, se.r);
    var g := BilinearChannel(x, y, nw.g, ne.g, sw.g, se.g);
    var b := BilinearChannel(x, y, nw.b, ne.b, sw.b, se.b);
    Rgba(r, g, b, a)
  }

  /** Per-channel interpolation between two colours, alpha included. */
  function MixColors(t: real, c1: Rgba, c2: Rgba): (c: Rgba)
    ensures forall ch :: 0 <= ch < 4 ==> c.Channel(ch) == (1.0 - t) * c1.Channel(ch) + t * c2.Channel(ch)
    ensures t == 0.0 ==> c == c1
    ensures t == 1.0 ==> c == c2
  {
    var r := LinearInterpolate(t, c1.r, c2.r);
    var g := LinearInterpolate(t, c1.g, c2.g);
    var b := LinearInterpolate(t, c1.b, c2.b);
    var a := LinearInterpolate(t, c1.a, c2.a);
    Rgba(r, g, b, a)
  }

  /** Bilinear interpolation is a mix along y of two mixes along x. */
  lemma BilinearIsMixOfMixes(x: real, y: real, nw: Rgba, ne: Rgba, sw: Rgba, se: Rgba)
    ensures BilinearInterpolate(x, y, nw, ne, sw, se) == MixColors(y, MixColors(x, nw, ne), MixColors(x, sw, se))
  {
    var c := BilinearInterpolate(x, y, nw, ne, sw, se);
    var m := MixColors(y, MixColors(x, nw, ne), MixColors(x, sw, se));
    assert c.r == m.r by { assert c.Channel(0) == m.Channel(0); }
    assert c.g == m.g by { assert c.Channel(1) == m.Channel(1); }
    assert c.b == m.b by { assert c.Channel(2) == m.Channel(2); }
    assert c.a == m.a by { assert c.Channel(3) == m.Channel(3); }
  }

  /** At the centre, each channel is the plain average of the four corners. */
  lemma BilinearCentreIsAverage(nw: Rgba, ne: Rgba, sw: Rgba, se: Rgba, ch: nat)
    requires ch < 4
    ensures BilinearInterpolate(0.5, 0.5, nw, ne, sw, se).Channel(ch)
         == (nw.Channel(ch) + ne.Channel(ch) + sw.Channel(ch) + se.Channel(ch)) / 4.0
  {
  }

  /** For offsets in the unit square, each channel stays between the smallest
      and the largest of the four corner values. */
  lemma BilinearBetween(x: real, y: real, nw: Rgba, ne: Rgba, sw: Rgba, se: Rgba, ch: nat)
    requires 0.0 <= x <= 1.0 && 0.0 <= y <= 1.0 && ch < 4
    ensures Min(Min(nw.Channel(ch), ne.Channel(ch)), Min(sw.Channel(ch), se.Channel(ch)))
         <= BilinearInterpolate(x, y, nw, ne, sw, se).Channel(ch)
         <= Max(Max(nw.Channel(ch), ne.Channel(ch)), Max(sw.Channel(ch), se.Channel(ch)))
  {
    var top := LinearInterpolate(x, nw.Channel(ch), ne.Channel(ch));
    var bottom := LinearInterpolate(x, sw.Channel(ch), se.Channel(ch));
    LinearInterpolateBetween(x, nw.Channel(ch), ne.Channel(ch));
    LinearInterpolateBetween(x, sw.Channel(ch), se.Channel(ch));
    LinearInterpolateBetween(y, top, bottom);
  }

  /** All four channels of `c` lie in [0, 255]. */
  predicate InBytes(c: Rgba)
  {
    forall ch | 0 <= ch < 4 :: 0.0 <= c.Channel(ch) <= 255.0
  }

  /** Interpolating four colours whose channels lie in [0, 255], at offsets in
      the unit square, gives a colour whose channels lie in [0, 255]. */
  lemma BilinearKeepsBytes(x: real, y: real, nw: Rgba, ne: Rgba, sw: Rgba, se: Rgba)
    requires 0.0 <= x <= 1.0 && 0.0 <= y <= 1.0
    requires InBytes(nw) && InBytes(ne) && InBytes(sw) && InBytes(se)
    ensures InBytes(BilinearInterpolate(x, y, nw, ne, sw, se))
  {
    forall ch | 0 <= ch < 4
      ensures 0.0 <= BilinearInterpolate(x, y, nw, ne, sw, se).Channel(ch) <= 255.0
    {
      BilinearBetween(x, y, nw, ne, sw, se, ch);
    }
  }

  /** The perceptual luma weight 0.21 r + 0.72 g + 0.07 b. */
  function Luminocity(r: real, g: real, b: real): (l: real)
    ensures r == g == b ==> l == r
    ensures 0.0 <= r <= 255.0 && 0.0 <= g <= 255.0 && 0.0 <= b <= 255.0 ==> 0.0 <= l <= 255.0
  {
    (r * 0.21) + (g * 0.72) + (b * 0.07)
  }
}
