/** `filterTransform`: geometric resampling. A caller-supplied map gives a
    fractional source coordinate for every destination pixel; the four
    pixels around it are combined by bilinear interpolation. Every read is
    from the buffer as it was before the call. */
module TransformFilter {
  import opened Interpolation
  import opened PixelSampler

  /** The resampled colour at source coordinate (sx, sy): the pixels at the
      floor of the coordinate and one to the right and below, each fetched
      with edge clamping, weighted by the fractional parts. The weights lie
      in [0, 1), so the sample stays within the range of the image data. */
  function Sample(s: seq<real>, w: int, h: int, sx: real, sy: real): (c: Rgba)
    requires Fits(s, w, h) && 1 <= w && 1 <= h
    ensures Bytes(s) ==> InBytes(c)
  {
    var x0, y0 := sx.Floor, sy.Floor;
    assert Bytes(s) ==> InBytes(BilinearInterpolate(sx - x0 as real, sy - y0 as real,
                        GetPixel(s, x0, y0, w, h), GetPixel(s, x0 + 1, y0, w, h),
                        GetPixel(s, x0, y0 + 1, w, h), GetPixel(s, x0 + 1, y0 + 1, w, h))) by {
      if Bytes(s) {
        BilinearKeepsBytes(sx - x0 as real, sy - y0 as real,
                           GetPixel(s, x0, y0, w, h), GetPixel(s, x0 + 1, y0, w, h),
                           GetPixel(s, x0, y0 + 1, w, h), GetPixel(s, x0 + 1, y0 + 1, w, h));
      }
    }
    BilinearInterpolate(sx - x0 as real, sy - y0 as real,
                        GetPixel(s, x0, y0, w, h), GetPixel(s, x0 + 1, y0, w, h),
                        GetPixel(s, x0, y0 + 1, w, h), GetPixel(s, x0 + 1, y0 + 1, w, h))
  }

  /** The value the filter stores at position `i`: channel `ChanOf(i)` of the
      sample at the point the map gives for the pixel at `i`. */
  function TransformedAt(s: seq<real>, f: (int, int) -> (real, real), w: int, h: int, i: int): (r: real)
    requires Fits(s, w, h) && 0 <= i < |s|
    ensures Bytes(s) ==> 0.0 <= r <= 255.0
  {
    EncodeIndex(w, h, i);
    var src := f(XOf(w, i), YOf(w, i));
    Sample(s, w, h, src.0, src.1).Channel(ChanOf(i))
  }

  /** The whole buffer after the filter; every entry depends on `s` alone.
      Resampling image data whose entries lie in [0, 255] keeps them there. */
  function Transformed(s: seq<real>, f: (int, int) -> (real, real), w: int, h: int): (r: seq<real>)
    requires Fits(s, w, h)
    ensures |r| == |s|
    ensures Bytes(s) ==> Bytes(r)
  {
    seq(|s|, i requires 0 <= i < |s| => TransformedAt(s, f, w, h, i))
  }

  /** The four entries at position `i` as a colour. */
  function ColourAt(s: seq<real>, i: int): Rgba
    requires 0 <= i && i + 3 < |s|
  {
    Rgba(s[i + 0], s[i + 1], s[i + 2], s[i + 3])
  }

  /** The source's fast path: when (sx, sy) is at least one pixel away from
      the right and bottom edges, the direct reads at `i`, `i + 4`,
      `i + 4 * w` and `i + 4 * (w + 1)`, with `i = (w * sy + sx) * 4`, are
      `getPixel` at (sx, sy), (sx + 1, sy), (sx, sy + 1) and (sx + 1, sy + 1). */
  lemma FastPathAgrees(s: seq<real>, w: int, h: int, sx: int, sy: int)
    requires Fits(s, w, h) && 0 <= sx < w - 1 && 0 <= sy < h - 1
    ensures 0 <= (w * sy + sx) * 4 && (w * sy + sx) * 4 + (w + 1) * 4 + 3 < |s|
    ensures ColourAt(s, (w * sy + sx) * 4) == GetPixel(s, sx, sy, w, h)
    ensures ColourAt(s, (w * sy + sx) * 4 + 4) == GetPixel(s, sx + 1, sy, w, h)
    ensures ColourAt(s, (w * sy + sx) * 4 + w * 4) == GetPixel(s, sx, sy + 1, w, h)
    ensures ColourAt(s, (w * sy + sx) * 4 + (w + 1) * 4) == GetPixel(s, sx + 1, sy + 1, w, h)
  {
    var i := (w * sy + sx) * 4;
    assert i == Index(w, sx, sy, 0);
    assert i + 4 == Index(w, sx + 1, sy, 0);
    assert i + w * 4 == Index(w, sx, sy + 1, 0);
    assert i + (w + 1) * 4 == Index(w, sx + 1, sy + 1, 0);
    IndexInBounds(w, h, sx, sy, 0);
    IndexInBounds(w, h, sx + 1, sy + 1, 3);
  }

  /** The source's choice between the fast path and `getPixel` for pixel
      (x, y): the result is the sample at the point the map gives. */
  method SamplePixel(data: array<real>, transform: (int, int) -> (real, real), w: nat, h: nat, x: int, y: int)
    returns (rgba: Rgba)
    requires Fits(data[..], w, h) && InImage(w, h, x, y)
    ensures rgba == Sample(data[..], w, h, transform(x, y).0, transform(x, y).1)
  {
    var xfrm := transform(x, y);
    var srcx := xfrm.0.Floor;
    var srcy := xfrm.1.Floor;
    var xwht := xfrm.0 - srcx as real;
    var ywht := xfrm.1 - srcy as real;
    var nw, ne, sw, se;
    if srcx >= 0 && srcx < w - 1 && srcy >= 0 && srcy < h - 1 {
      FastPathAgrees(data[..], w, h, srcx, srcy);
      var i := (w * srcy + srcx) * 4;
      nw := Rgba(data[i + 0], data[i + 1], data[i + 2], data[i + 3]);
      ne := Rgba(data[i + 4], data[i + 5], data[i + 6], data[i + 7]);
      sw := Rgba(data[i + w * 4], data[i + w * 4 + 1], data[i + w * 4 + 2], data[i + w * 4 + 3]);
      se := Rgba(data[i + (w + 1) * 4], data[i + (w + 1) * 4 + 1], data[i + (w + 1) * 4 + 2], data[i + (w + 1) * 4 + 3]);
    } else {
      nw := GetPixel(data[..], srcx + 0, srcy + 0, w, h);
      ne := GetPixel(data[..], srcx + 1, srcy + 0, w, h);
      sw := GetPixel(data[..], srcx + 0, srcy + 1, w, h);
      se := GetPixel(data[..], srcx + 1, srcy + 1, w, h);
    }
    rgba := BilinearInterpolate(xwht, ywht, nw, ne, sw, se);
  }

  /** The first `n` entries of `b` hold the filter's results for `s`. */
  predicate TransformedUpTo(b: seq<real>, s: seq<real>, f: (int, int) -> (real, real), w: int, h: int, n: int)
    requires Fits(s, w, h)
  {
    0 <= n <= |s| == |b| && forall i | 0 <= i < n :: b[i] == TransformedAt(s, f, w, h, i)
  }

  /** The four entries of pixel (x, y) of the transformed buffer. */
  lemma TransformedAtPixel(s: seq<real>, f: (int, int) -> (real, real), w: int, h: int, x: int, y: int)
    requires Fits(s, w, h) && InImage(w, h, x, y)
    ensures Index(w, x, y, 3) < |s|
    ensures forall c | 0 <= c < 4 ::
      TransformedAt(s, f, w, h, Index(w, x, y, c)) == Sample(s, w, h, f(x, y).0, f(x, y).1).Channel(c)
  {
    IndexInBounds(w, h, x, y, 3);
    forall c | 0 <= c < 4
      ensures 0 <= Index(w, x, y, c) < |s|
      ensures XOf(w, Index(w, x, y, c)) == x && YOf(w, Index(w, x, y, c)) == y && ChanOf(Index(w, x, y, c)) == c
    {
      IndexInBounds(w, h, x, y, c);
      DecodeIndex(w, x, y, c);
    }
  }

  /** Writing the four results of pixel (x, y) after those of every earlier
      pixel extends the finished prefix by one pixel. */
  lemma PixelDone(before: seq<real>, after: seq<real>, s: seq<real>, f: (int, int) -> (real, real),
                  w: int, h: int, x: int, y: int)
    requires Fits(s, w, h) && InImage(w, h, x, y)
    requires TransformedUpTo(before, s, f, w, h, Index(w, x, y, 0))
    requires |after| == |before| && Index(w, x, y, 3) < |after|
    requires forall i | 0 <= i < |after| && !(Index(w, x, y, 0) <= i <= Index(w, x, y, 3)) :: after[i] == before[i]
    requires forall c | 0 <= c < 4 :: after[Index(w, x, y, c)] == TransformedAt(s, f, w, h, Index(w, x, y, c))
    ensures TransformedUpTo(after, s, f, w, h, Index(w, x, y, 0) + 4)
  {
    var p := Index(w, x, y, 0);
    forall i | 0 <= i < p + 4
      ensures after[i] == TransformedAt(s, f, w, h, i)
    {
      if i >= p {
        assert i == Index(w, x, y, i - p);
      }
    }
  }

  /** The body of the source's `x` loop: the sample for pixel (x, y) goes to
      `buff` at `p = (y * w + x) * 4`. */
  method StorePixel(data: array<real>, buff: array<real>, transform: (int, int) -> (real, real),
                    w: nat, h: nat, x: int, y: int)
    requires data != buff && Fits(data[..], w, h) && InImage(w, h, x, y)
    requires TransformedUpTo(buff[..], data[..], transform, w, h, Index(w, x, y, 0))
    modifies buff
    ensures TransformedUpTo(buff[..], data[..], transform, w, h, Index(w, x, y, 0) + 4)
  {
    ghost var s := data[..];
    var p := (y * w + x) * 4;
    var rgba := SamplePixel(data, transform, w, h, x, y);
    IndexInBounds(w, h, x, y, 3);
    ghost var before := buff[..];
    buff[p + 0] := rgba.r;
    buff[p + 1] := rgba.g;
    buff[p + 2] := rgba.b;
    buff[p + 3] := rgba.a;
    TransformedAtPixel(s, transform, w, h, x, y);
    PixelDone(before, buff[..], s, transform, w, h, x, y);
  }

  /** The source's `x` loop for row `y`. */
  method TransformRow(data: array<real>, buff: array<real>, transform: (int, int) -> (real, real),
                      w: nat, h: nat, y: int)
    requires data != buff && Fits(data[..], w, h) && 0 <= y < h
    requires TransformedUpTo(buff[..], data[..], transform, w, h, y * w * 4)
    modifies buff
    ensures TransformedUpTo(buff[..], data[..], transform, w, h, (y + 1) * w * 4)
  {
    ghost var s := data[..];
    for x := 0 to w
      invariant TransformedUpTo(buff[..], s, transform, w, h, (y * w + x) * 4)
    {
      StorePixel(data, buff, transform, w, h, x, y);
    }
    assert (y * w + w) * 4 == (y + 1) * w * 4;
  }

  /** `filterTransform`. The scratch buffer starts as a copy of `data`, every
      pixel of it is then overwritten with its sample, and it is copied back
      at the end. */
  method FilterTransform(data: array<real>, transform: (int, int) -> (real, real), w: nat, h: nat)
    requires data.Length == w * h * 4
    modifies data
    ensures data[..] == Transformed(old(data[..]), transform, w, h)
  {
    ghost var s := data[..];
    var leng := data.Length;
    var buff := new real[leng];
    CopyInto(data, buff);
    for y := 0 to h
      invariant data[..] == s && buff.Length == |s|
      invariant TransformedUpTo(buff[..], s, transform, w, h, y * w * 4)
    {
      TransformRow(data, buff, transform, w, h, y);
    }
    assert h * w * 4 == |s|;
    assert buff[..] == Transformed(s, transform, w, h);
    CopyInto(buff, data);
  }

  /** The identity map. */
  function Identity(x: int, y: int): (real, real)
  {
    (x as real, y as real)
  }

  /** Resampling at a whole pixel coordinate inside the image returns that
      pixel: both fractional weights are 0. */
  lemma SampleAtPixel(s: seq<real>, w: int, h: int, x: int, y: int)
    requires Fits(s, w, h) && InImage(w, h, x, y)
    ensures Sample(s, w, h, x as real, y as real) == PixelAt(s, w, h, x, y)
  {
    assert (x as real).Floor == x && (y as real).Floor == y;
  }

  /** The identity map leaves every buffer unchanged. */
  lemma TransformIdentity(s: seq<real>, w: int, h: int)
    requires Fits(s, w, h)
    ensures Transformed(s, Identity, w, h) == s
  {
    var r := Transformed(s, Identity, w, h);
    forall i | 0 <= i < |s|
      ensures r[i] == s[i]
    {
      EncodeIndex(w, h, i);
      var x, y, c := XOf(w, i), YOf(w, i), ChanOf(i);
      SampleAtPixel(s, w, h, x, y);
      assert i == Index(w, x, y, 0) + c;
    }
  }

  /** A 2 x 2 buffer of red, green, blue and white, all opaque. */
  function Corners(): seq<real>
  {
    [255.0, 0.0, 0.0, 255.0,  0.0, 255.0, 0.0, 255.0,
     0.0, 0.0, 255.0, 255.0,  255.0, 255.0, 255.0, 255.0]
  }

  /** Within the cell whose top-left pixel is (x0, y0), the sample weighs
      that pixel and its right, lower and lower-right neighbours by the
      fractional parts of the coordinate. */
  lemma SampleInCell(s: seq<real>, w: int, h: int, sx: real, sy: real, x0: int, y0: int,
                     nw: Rgba, ne: Rgba, sw: Rgba, se: Rgba)
    requires Fits(s, w, h) && 1 <= w && 1 <= h
    requires x0 as real <= sx < x0 as real + 1.0 && y0 as real <= sy < y0 as real + 1.0
    requires GetPixel(s, x0, y0, w, h) == nw && GetPixel(s, x0 + 1, y0, w, h) == ne
    requires GetPixel(s, x0, y0 + 1, w, h) == sw && GetPixel(s, x0 + 1, y0 + 1, w, h) == se
    ensures Sample(s, w, h, sx, sy) == BilinearInterpolate(sx - x0 as real, sy - y0 as real, nw, ne, sw, se)
  {
    assert sx.Floor == x0 && sy.Floor == y0;
  }

  /** The four pixels of the 2 x 2 buffer. */
  lemma CornerPixels()
    ensures GetPixel(Corners(), 0, 0, 2, 2) == Rgba(255.0, 0.0, 0.0, 255.0)
    ensures GetPixel(Corners(), 1, 0, 2, 2) == Rgba(0.0, 255.0, 0.0, 255.0)
    ensures GetPixel(Corners(), 0, 1, 2, 2) == Rgba(0.0, 0.0, 255.0, 255.0)
    ensures GetPixel(Corners(), 1, 1, 2, 2) == Rgba(255.0, 255.0, 255.0, 255.0)
  {
    var s := Corners();
    assert PixelAt(s, 2, 2, 0, 0) == Rgba(s[0], s[1], s[2], s[3]);
    assert PixelAt(s, 2, 2, 1, 0) == Rgba(s[4], s[5], s[6], s[7]);
    assert PixelAt(s, 2, 2, 0, 1) == Rgba(s[8], s[9], s[10], s[11]);
    assert PixelAt(s, 2, 2, 1, 1) == Rgba(s[12], s[13], s[14], s[15]);
  }

  /** At (0.5, 0.5) every channel of the sample is the plain average of the
      four pixels of the top-left cell. */
  lemma CentreSample(s: seq<real>, w: int, h: int, nw: Rgba, ne: Rgba, sw: Rgba, se: Rgba)
    requires Fits(s, w, h) && 1 <= w && 1 <= h
    requires GetPixel(s, 0, 0, w, h) == nw && GetPixel(s, 1, 0, w, h) == ne
    requires GetPixel(s, 0, 1, w, h) == sw && GetPixel(s, 1, 1, w, h) == se
    ensures Sample(s, w, h, 0.5, 0.5)
         == Rgba((nw.r + ne.r + sw.r + se.r) / 4.0, (nw.g + ne.g + sw.g + se.g) / 4.0,
                 (nw.b + ne.b + sw.b + se.b) / 4.0, (nw.a + ne.a + sw.a + se.a) / 4.0)
  {
    SampleInCell(s, w, h, 0.5, 0.5, 0, 0, nw, ne, sw, se);
    var c := BilinearInterpolate(0.5, 0.5, nw, ne, sw, se);
    assert Sample(s, w, h, 0.5, 0.5) == c;
    BilinearCentreIsAverage(nw, ne, sw, se, 0);
    BilinearCentreIsAverage(nw, ne, sw, se, 1);
    BilinearCentreIsAverage(nw, ne, sw, se, 2);
    BilinearCentreIsAverage(nw, ne, sw, se, 3);
    assert c.r == c.Channel(0) && c.g == c.Channel(1) && c.b == c.Channel(2) && c.a == c.Channel(3);
  }

  /** The sample at the centre (0.5, 0.5) of the 2 x 2 buffer is the plain
      average of its four corners. */
  lemma CornersSample()
    ensures Sample(Corners(), 2, 2, 0.5, 0.5) == Rgba(127.5, 127.5, 127.5, 255.0)
  {
    CornerPixels();
    CentreSample(Corners(), 2, 2, Rgba(255.0, 0.0, 0.0, 255.0), Rgba(0.0, 255.0, 0.0, 255.0),
                 Rgba(0.0, 0.0, 255.0, 255.0), Rgba(255.0, 255.0, 255.0, 255.0));
  }

  /** The first four entries of the result are the sample for pixel (0, 0). */
  lemma FirstPixel(s: seq<real>, f: (int, int) -> (real, real), w: int, h: int)
    requires Fits(s, w, h) && 1 <= w && 1 <= h
    ensures 4 <= |s|
    ensures forall c | 0 <= c < 4 :: Transformed(s, f, w, h)[c] == Sample(s, w, h, f(0, 0).0, f(0, 0).1).Channel(c)
  {
    TransformedAtPixel(s, f, w, h, 0, 0);
    forall c | 0 <= c < 4
      ensures Transformed(s, f, w, h)[c] == Sample(s, w, h, f(0, 0).0, f(0, 0).1).Channel(c)
    {
      assert c == Index(w, 0, 0, c);
    }
  }

  /** A map that sends pixel (0, 0) to (0.5, 0.5) makes it the average of the
      four corners of the 2 x 2 buffer. */
  lemma CornersCentre(f: (int, int) -> (real, real))
    requires f(0, 0) == (0.5, 0.5)
    ensures |Transformed(Corners(), f, 2, 2)| == 16
    ensures Transformed(Corners(), f, 2, 2)[0] == 127.5 && Transformed(Corners(), f, 2, 2)[1] == 127.5
    ensures Transformed(Corners(), f, 2, 2)[2] == 127.5 && Transformed(Corners(), f, 2, 2)[3] == 255.0
  {
    CornersSample();
    FirstPixel(Corners(), f, 2, 2);
    var px := Sample(Corners(), 2, 2, 0.5, 0.5);
    assert px.Channel(0) == 127.5 && px.Channel(1) == 127.5 && px.Channel(2) == 127.5 && px.Channel(3) == 255.0;
  }
}
