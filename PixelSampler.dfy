/** The pixel buffer layout (row-major RGBA, 4 entries per pixel) and the
    edge-clamped pixel fetch `getPixel`. */
module PixelSampler {
  import opened Interpolation

  /** A buffer holds exactly `w * h` pixels of 4 entries each. */
  predicate Fits(s: seq<real>, w: int, h: int)
  {
    0 <= w && 0 <= h && |s| == w * h * 4
  }

  /** Every entry of the buffer lies in [0, 255], as image data does. */
  predicate Bytes(s: seq<real>)
  {
    forall q | 0 <= q < |s| :: 0.0 <= s[q] <= 255.0
  }

  predicate InImage(w: int, h: int, x: int, y: int)
  {
    0 <= x < w && 0 <= y < h
  }

  /** The position of channel `c` of pixel (x, y): `(y * w + x) * 4 + c`. */
  function Index(w: int, x: int, y: int, c: int): int
  {
    (y * w + x) * 4 + c
  }

  /** The column, row and channel of buffer position `i`. */
  function XOf(w: int, i: int): int requires w > 0 { (i / 4) % w }
  function YOf(w: int, i: int): int requires w > 0 { (i / 4) / w }
  function ChanOf(i: int): int { i % 4 }

  /** Every channel of every pixel of the image lies inside the buffer. */
  lemma IndexInBounds(w: int, h: int, x: int, y: int, c: int)
    requires InImage(w, h, x, y) && 0 <= c < 4
    ensures 0 <= Index(w, x, y, c) < w * h * 4
  {
    var q := y * w + x;
    MulMonotone(y + 1, h, w);
    assert 0 <= y * w;
    assert q < (y + 1) * w;
    assert (y + 1) * w <= h * w;
    assert q + 1 <= w * h;
  }

  /** `a <= b` and `0 <= k` give `a * k <= b * k`. */
  lemma MulMonotone(a: int, b: int, k: int)
    requires a <= b && 0 <= k
    ensures a * k <= b * k
  {
    assert b * k - a * k == (b - a) * k;
  }

  /** Decoding a position gives back the pixel and channel it was encoded from. */
  lemma DecodeIndex(w: int, x: int, y: int, c: int)
    requires 0 <= x < w && 0 <= y && 0 <= c < 4
    ensures XOf(w, Index(w, x, y, c)) == x
    ensures YOf(w, Index(w, x, y, c)) == y
    ensures ChanOf(Index(w, x, y, c)) == c
  {
    var q := y * w + x;
    assert Index(w, x, y, c) / 4 == q;
    DivModUnique(q, w, y, x);
  }

  /** Every position of a buffer is the encoding of a pixel of the image and a channel. */
  lemma EncodeIndex(w: int, h: int, i: int)
    requires 0 <= w && 0 <= h && 0 <= i < w * h * 4
    ensures w > 0
    ensures InImage(w, h, XOf(w, i), YOf(w, i)) && 0 <= ChanOf(i) < 4
    ensures Index(w, XOf(w, i), YOf(w, i), ChanOf(i)) == i
  {
    var q := i / 4;
    assert q < w * h;
    assert w > 0;
    var y, x := q / w, q % w;
    assert q == y * w + x;
    assert y * w <= q;
    assert y < h by {
      assert y * w < h * w;
      MulStrict(y, h, w);
    }
  }

  /** `a * k < b * k` with `0 < k` gives `a < b`. */
  lemma MulStrict(a: int, b: int, k: int)
    requires 0 < k && a * k < b * k
    ensures a < b
  {
    assert (b - a) * k > 0;
  }

  /** Dafny's `/` and `%` are determined by the quotient-remainder equation. */
  lemma DivModUnique(q: int, w: int, y: int, x: int)
    requires 0 <= x < w && q == y * w + x
    ensures q / w == y && q % w == x
  {
    var y', x' := q / w, q % w;
    assert q == y' * w + x';
    assert (y - y') * w == x' - x;
    assert -w < (y - y') * w < w;
    SmallMultiple(y - y', w);
  }

  /** The only multiple of `w` strictly between `-w` and `w` is 0. */
  lemma SmallMultiple(k: int, w: int)
    requires 0 < w && -w < k * w < w
    ensures k == 0
  {
    MulStrict(k, 1, w);
    MulStrict(-1, k, w);
  }

  /** The four entries of pixel (x, y), read directly. */
  function PixelAt(s: seq<real>, w: int, h: int, x: int, y: int): Rgba
    requires Fits(s, w, h) && InImage(w, h, x, y)
  {
    IndexInBounds(w, h, x, y, 3);
    var i := Index(w, x, y, 0);
    Rgba(s[i], s[i + 1], s[i + 2], s[i + 3])
  }

  /** `getPixel`: the pixel at (x, y), with an out-of-range `x` clamped to
      [0, w - 1] and an out-of-range `y` to [0, h - 1] independently. */
  function GetPixel(data: seq<real>, x: int, y: int, w: int, h: int): (px: Rgba)
    requires Fits(data, w, h) && 1 <= w && 1 <= h
    ensures px == PixelAt(data, w, h, Clamp(x, 0, w - 1), Clamp(y, 0, h - 1))
    ensures Bytes(data) ==> InBytes(px)
  {
    var p := (y * w + x) * 4;
    if x < 0 || x >= w || y < 0 || y >= h then
      var cx, cy := Clamp(x, 0, w - 1), Clamp(y, 0, h - 1);
      IndexInBounds(w, h, cx, cy, 3);
      Rgba(data[((cy * w) + cx) * 4 + 0],
           data[((cy * w) + cx) * 4 + 1],
           data[((cy * w) + cx) * 4 + 2],
           data[((cy * w) + cx) * 4 + 3])
    else
      IndexInBounds(w, h, x, y, 3);
      Rgba(data[p + 0], data[p + 1], data[p + 2], data[p + 3])
  }

  /** Inside the image, `getPixel` is the stored pixel. */
  lemma GetPixelInside(data: seq<real>, x: int, y: int, w: int, h: int)
    requires Fits(data, w, h) && InImage(w, h, x, y)
    ensures GetPixel(data, x, y, w, h) == PixelAt(data, w, h, x, y)
  {
  }

  /** Sampling at a coordinate and at its clamped coordinate agree: the
      border pixel is repeated outward, without wrapping or mirroring. */
  lemma GetPixelClamps(data: seq<real>, x: int, y: int, w: int, h: int)
    requires Fits(data, w, h) && 1 <= w && 1 <= h
    ensures GetPixel(data, x, y, w, h) == GetPixel(data, Clamp(x, 0, w - 1), Clamp(y, 0, h - 1), w, h)
  {
    ClampIdempotent(x, 0, w - 1);
    ClampIdempotent(y, 0, h - 1);
  }

  /** On a 10 x 10 buffer, (-1, 5) and (0, 5) give the same colour. */
  lemma GetPixelLeftEdge(data: seq<real>)
    requires Fits(data, 10, 10)
    ensures GetPixel(data, -1, 5, 10, 10) == GetPixel(data, 0, 5, 10, 10)
  {
  }

  /** The element-by-element copy loop the filters use to fill and to write
      back their scratch buffer. */
  method CopyInto(src: array<real>, dst: array<real>)
    requires src != dst && src.Length == dst.Length
    modifies dst
    ensures dst[..] == src[..]
  {
    for k := 0 to src.Length
      invariant forall i | 0 <= i < k :: dst[i] == src[i]
    {
      dst[k] := src[k];
    }
  }
}
