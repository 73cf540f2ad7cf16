/** `filterConvolve`: a k x k kernel applied to the R, G and B entries of
    every pixel, read from the unmodified buffer and written to a scratch
    buffer that is copied back at the end; alpha is passed through. */
module ConvolutionFilter {
  import opened JsNumber
  import opened PixelSampler

  /** `Math.sqrt` on a kernel length: the least `k` with `k * k >= n`, which is
      the exact root when `n` is a perfect square. */
  function Side(n: nat): (k: nat)
    ensures n <= k * k && (k == 0 || (k - 1) * (k - 1) < n)
  {
    SideFrom(n, 0)
  }

  function SideFrom(n: nat, k: nat): (r: nat)
    requires k <= n && (k == 0 || (k - 1) * (k - 1) < n)
    ensures n <= r * r && (r == 0 || (r - 1) * (r - 1) < n)
    decreases n - k
  {
    if n <= k * k then k
    else
      assert k <= k * k by { if k > 0 { MulMonotone(1, k, k); } }
      SideFrom(n, k + 1)
  }

  /** The root of a perfect square is recovered exactly. */
  lemma SideOfSquare(k: nat)
    ensures Side(k * k) == k
  {
    var r := Side(k * k);
    SquareStrict(r, k);
    if r > 0 {
      SquareMonotone(k, r - 1);
    }
  }

  lemma SquareMonotone(a: nat, b: nat)
    ensures a <= b ==> a * a <= b * b
  {
    if a <= b {
      MulMonotone(a, b, a);
      MulMonotone(a, b, b);
    }
  }

  lemma SquareStrict(a: nat, b: nat)
    ensures a < b ==> a * a < b * b
  {
    if a < b {
      MulMonotone(a, b - 1, a);
      MulMonotone(a, b - 1, b);
      assert (b - 1) * b < b * b;
    }
  }

  /** The kernel length is the square of an odd side, as the source's loops require. */
  predicate OddSquare(n: nat)
  {
    Side(n) * Side(n) == n && Side(n) % 2 == 1
  }

  /** The row (or column) a tap at offset `off` from `v` reads, in an image
      `n` rows high (or columns wide): the offset position when it is inside
      the image, otherwise the current position `v` itself, not the nearest
      edge. The same policy applies to both axes. */
  function Fallback(v: int, off: int, n: int): (u: int)
    ensures 0 <= v < n ==> 0 <= u < n
  {
    if 0 <= v + off < n then v + off else v
  }

  /** For offsets of at most one (3 x 3 kernels), falling back to the current
      row or column is the same as clamping to the nearest edge. */
  lemma FallbackIsClampForUnitOffset(y: int, off: int, h: int)
    requires 0 <= y < h && -1 <= off <= 1
    ensures Fallback(y, off, h) == Interpolation.Clamp(y + off, 0, h - 1)
  {
  }

  /** For larger offsets it is not: two rows above row 1, the tap reads row 1,
      where clamping would read row 0. */
  lemma FallbackIsNotClamp()
    ensures Fallback(1, -2, 5) == 1
    ensures Interpolation.Clamp(1 - 2, 0, 5 - 1) == 0
  {
  }

  lemma TapInKernel(k: nat, i: nat, j: nat)
    requires i < k && j < k
    ensures 0 <= k * i + j < k * k
  {
    MulMonotone(0, i, k);
    MulMonotone(i + 1, k, k);
    assert k * i + j < k * (i + 1);
  }

  /** Entry `i` of `s`; every read the filter makes is in range (see `TapBounds`),
      so the fallback value is never used. */
  function Entry(s: seq<real>, i: int): real
  {
    if 0 <= i < |s| then s[i] else 0.0
  }

  /** The weighted contribution of tap (i, j) of a k x k kernel to channel `c`
      of pixel (x, y): weight `m[k * i + j]` times the entry at the tap's row
      and column. A zero weight contributes nothing, which is why the source
      may skip it. */
  function Tap(s: seq<real>, m: seq<real>, k: nat, w: int, h: int, x: int, y: int, c: int, i: int, j: int): (t: real)
    ensures Entry(m, k * i + j) == 0.0 ==> t == 0.0
  {
    Entry(m, k * i + j) * Entry(s, Index(w, Fallback(x, j - k / 2, w), Fallback(y, i - k / 2, h), c))
  }

  /** The sum of the first `n` taps of kernel row `i`; 0 for an all-zero kernel. */
  function RowSum(s: seq<real>, m: seq<real>, k: nat, w: int, h: int, x: int, y: int, c: int, i: int, n: nat): (r: real)
    ensures (forall q | 0 <= q < |m| :: m[q] == 0.0) ==> r == 0.0
  {
    if n == 0 then 0.0 else RowSum(s, m, k, w, h, x, y, c, i, n - 1) + Tap(s, m, k, w, h, x, y, c, i, n - 1)
  }

  /** The sum over the first `n` kernel rows; 0 for an all-zero kernel. */
  function KernelSum(s: seq<real>, m: seq<real>, k: nat, w: int, h: int, x: int, y: int, c: int, n: nat): (r: real)
    ensures (forall q | 0 <= q < |m| :: m[q] == 0.0) ==> r == 0.0
  {
    if n == 0 then 0.0 else KernelSum(s, m, k, w, h, x, y, c, n - 1) + RowSum(s, m, k, w, h, x, y, c, n - 1, k)
  }

  /** The value the filter stores at position `i`: the kernel sum rounded by
      `(sum + 0.5) | 0` for R, G and B, which is a whole number in the signed
      32-bit range; the old value for alpha. */
  function ConvolvedAt(s: seq<real>, m: seq<real>, w: int, h: int, i: int): (r: real)
    requires Fits(s, w, h) && OddSquare(|m|) && 0 <= i < |s|
    ensures ChanOf(i) == 3 ==> r == s[i]
    ensures ChanOf(i) != 3 ==> r.Floor as real == r && -TwoTo31 <= r.Floor < TwoTo31
  {
    EncodeIndex(w, h, i);
    if ChanOf(i) == 3 then s[i]
    else BitOrZero(KernelSum(s, m, Side(|m|), w, h, XOf(w, i), YOf(w, i), ChanOf(i), Side(|m|)) + 0.5) as real
  }

  /** The whole buffer after the filter; every entry depends on `s` alone.
      Alpha entries keep their values and colour entries become whole numbers. */
  function Convolved(s: seq<real>, m: seq<real>, w: int, h: int): (r: seq<real>)
    requires Fits(s, w, h) && OddSquare(|m|)
    ensures |r| == |s|
    ensures forall i | 0 <= i < |r| :: if i % 4 == 3 then r[i] == s[i] else r[i].Floor as real == r[i]
  {
    seq(|s|, i requires 0 <= i < |s| => ConvolvedAt(s, m, w, h, i))
  }

  /** Alpha passes through the filter unchanged. */
  lemma ConvolvedKeepsAlpha(s: seq<real>, m: seq<real>, w: int, h: int, q: int)
    requires Fits(s, w, h) && OddSquare(|m|) && 0 <= q < w * h
    ensures 4 * q + 3 < |s| && Convolved(s, m, w, h)[4 * q + 3] == s[4 * q + 3]
  {
    assert (4 * q + 3) % 4 == 3;
  }

  /** One pass of the source's `col` loop: adds the taps of kernel row
      `row + row2` to the three accumulators, skipping zero weights. */
  method AccumulateRow(data: array<real>, matrix: seq<real>, rows: nat, w: nat, h: nat, x: int, y: int,
                       row: int, r0: real, g0: real, b0: real)
    returns (r: real, g: real, b: real)
    requires Fits(data[..], w, h) && |matrix| == rows * rows && rows % 2 == 1 && InImage(w, h, x, y)
    requires -(rows / 2) <= row <= rows / 2
    ensures r == r0 + RowSum(data[..], matrix, rows, w, h, x, y, 0, row + rows / 2, rows)
    ensures g == g0 + RowSum(data[..], matrix, rows, w, h, x, y, 1, row + rows / 2, rows)
    ensures b == b0 + RowSum(data[..], matrix, rows, w, h, x, y, 2, row + rows / 2, rows)
  {
    ghost var s := data[..];
    var cols := rows;
    var row2 := rows / 2;
    var col2 := cols / 2;
    var iy := y + row;
    var ioff;
    if (0 <= iy) && (iy < h) {
      ioff := iy * w;
    } else {
      ioff := y * w;
    }
    var moff := cols * (row + row2) + col2;
    r, g, b := r0, g0, b0;
    for col := -col2 to col2 + 1
      invariant r == r0 + RowSum(s, matrix, rows, w, h, x, y, 0, row + row2, col + col2)
      invariant g == g0 + RowSum(s, matrix, rows, w, h, x, y, 1, row + row2, col + col2)
      invariant b == b0 + RowSum(s, matrix, rows, w, h, x, y, 2, row + row2, col + col2)
    {
      r, g, b := AccumulateTap(data, matrix, rows, w, h, x, y, row, col, ioff, moff, r, g, b);
    }
    assert col2 + col2 + 1 == rows;
  }

  /** The body of the source's `col` loop: the tap at offset (row, col) is
      added to the three accumulators, unless its weight is 0. */
  method AccumulateTap(data: array<real>, matrix: seq<real>, rows: nat, w: nat, h: nat, x: int, y: int,
                       row: int, col: int, ioff: int, moff: int, r0: real, g0: real, b0: real)
    returns (r: real, g: real, b: real)
    requires Fits(data[..], w, h) && |matrix| == rows * rows && rows % 2 == 1 && InImage(w, h, x, y)
    requires -(rows / 2) <= row <= rows / 2 && -(rows / 2) <= col <= rows / 2
    requires ioff == Fallback(y, row, h) * w && moff == rows * (row + rows / 2) + rows / 2
    ensures r == r0 + Tap(data[..], matrix, rows, w, h, x, y, 0, row + rows / 2, col + rows / 2)
    ensures g == g0 + Tap(data[..], matrix, rows, w, h, x, y, 1, row + rows / 2, col + rows / 2)
    ensures b == b0 + Tap(data[..], matrix, rows, w, h, x, y, 2, row + rows / 2, col + rows / 2)
  {
    ghost var s := data[..];
    ghost var i, j := row + rows / 2, col + rows / 2;
    ghost var ix' := Fallback(x, col, w);
    assert moff + col == rows * i + j;
    TapBounds(s, matrix, rows, w, h, x, y, i, j, ioff, ix');
    r, g, b := r0, g0, b0;
    var f := matrix[moff + col];
    if f != 0.0 {
      var ix := x + col;
      if !((0 <= ix) && (ix < w)) {
        ix := x;
      }
      var ipix := (ioff + ix) * 4;
      var d0, d1, d2 := data[ipix + 0], data[ipix + 1], data[ipix + 2];
      TapValue(s, matrix, rows, w, h, x, y, 0, i, j, ioff, ix, f, d0);
      TapValue(s, matrix, rows, w, h, x, y, 1, i, j, ioff, ix, f, d1);
      TapValue(s, matrix, rows, w, h, x, y, 2, i, j, ioff, ix, f, d2);
      r := r + f * d0;
      g := g + f * d1;
      b := b + f * d2;
    } else {
      ghost var p := (ioff + ix') * 4;
      TapValue(s, matrix, rows, w, h, x, y, 0, i, j, ioff, ix', f, s[p + 0]);
      TapValue(s, matrix, rows, w, h, x, y, 1, i, j, ioff, ix', f, s[p + 1]);
      TapValue(s, matrix, rows, w, h, x, y, 2, i, j, ioff, ix', f, s[p + 2]);
    }
  }

  /** The kernel weight and the three colour entries read for tap (i, j), at
      the row offset `ioff` and the column `ix` the source's loops compute,
      are in range. */
  lemma TapBounds(s: seq<real>, m: seq<real>, k: nat, w: int, h: int, x: int, y: int, i: nat, j: nat,
                  ioff: int, ix: int)
    requires Fits(s, w, h) && |m| == k * k && InImage(w, h, x, y) && i < k && j < k
    requires ioff == Fallback(y, i - k / 2, h) * w && ix == Fallback(x, j - k / 2, w)
    ensures 0 <= k * i + j < |m| && 0 <= (ioff + ix) * 4 && (ioff + ix) * 4 + 3 < |s|
  {
    TapInKernel(k, i, j);
    IndexInBounds(w, h, ix, Fallback(y, i - k / 2, h), 0);
    IndexInBounds(w, h, ix, Fallback(y, i - k / 2, h), 3);
  }

  /** Tap (i, j) is weight `f` times entry `v`, as the source reads them. */
  lemma TapValue(s: seq<real>, m: seq<real>, k: nat, w: int, h: int, x: int, y: int, c: int, i: nat, j: nat,
                 ioff: int, ix: int, f: real, v: real)
    requires ioff == Fallback(y, i - k / 2, h) * w && ix == Fallback(x, j - k / 2, w)
    requires f == Entry(m, k * i + j) && v == Entry(s, (ioff + ix) * 4 + c)
    ensures Tap(s, m, k, w, h, x, y, c, i, j) == f * v
  {
  }

  /** The source's `row` loop for pixel (x, y): the three full kernel sums. */
  method ConvolvePixel(data: array<real>, matrix: seq<real>, rows: nat, w: nat, h: nat, x: int, y: int)
    returns (r: real, g: real, b: real)
    requires Fits(data[..], w, h) && |matrix| == rows * rows && rows % 2 == 1 && InImage(w, h, x, y)
    ensures r == KernelSum(data[..], matrix, rows, w, h, x, y, 0, rows)
    ensures g == KernelSum(data[..], matrix, rows, w, h, x, y, 1, rows)
    ensures b == KernelSum(data[..], matrix, rows, w, h, x, y, 2, rows)
  {
    var row2 := rows / 2;
    r, g, b := 0.0, 0.0, 0.0;
    for row := -row2 to row2 + 1
      invariant r == KernelSum(data[..], matrix, rows, w, h, x, y, 0, row + row2)
      invariant g == KernelSum(data[..], matrix, rows, w, h, x, y, 1, row + row2)
      invariant b == KernelSum(data[..], matrix, rows, w, h, x, y, 2, row + row2)
    {
      r, g, b := AccumulateRow(data, matrix, rows, w, h, x, y, row, r, g, b);
    }
  }

  /** `filterConvolve`. The kernel side is `Math.sqrt(matrix.length)`. Each
      result goes to the scratch buffer `buff`, so every sum reads only the
      buffer as it was before the call; `buff` is copied back at the end. */
  method FilterConvolve(data: array<real>, matrix: seq<real>, w: nat, h: nat)
    requires data.Length == w * h * 4 && OddSquare(|matrix|)
    modifies data
    ensures data[..] == Convolved(old(data[..]), matrix, w, h)
  {
    ghost var s := data[..];
    var buff := new real[data.Length];
    var rows := Side(|matrix|);
    for y := 0 to h
      invariant data[..] == s && buff.Length == |s|
      invariant ConvolvedUpTo(buff[..], s, matrix, w, h, y * w * 4)
    {
      ConvolveRow(data, buff, matrix, rows, w, h, y);
    }
    assert h * w * 4 == |s|;
    assert buff[..] == Convolved(s, matrix, w, h);
    CopyInto(buff, data);
  }

  /** The source's `x` loop for row `y`: the results of the row's pixels are
      written to `buff`, after those of the rows above. */
  method ConvolveRow(data: array<real>, buff: array<real>, matrix: seq<real>, rows: nat, w: nat, h: nat, y: int)
    requires data != buff && Fits(data[..], w, h) && OddSquare(|matrix|) && rows == Side(|matrix|) && 0 <= y < h
    requires ConvolvedUpTo(buff[..], data[..], matrix, w, h, y * w * 4)
    modifies buff
    ensures ConvolvedUpTo(buff[..], data[..], matrix, w, h, (y + 1) * w * 4)
  {
    ghost var s := data[..];
    for x := 0 to w
      invariant ConvolvedUpTo(buff[..], s, matrix, w, h, (y * w + x) * 4)
    {
      StorePixel(data, buff, matrix, rows, w, h, x, y);
    }
    assert (y * w + w) * 4 == (y + 1) * w * 4;
  }

  /** The body of the source's `x` loop: the rounded sums of pixel (x, y) and
      its alpha go to `buff` at `p = (y * w + x) * 4`. */
  method StorePixel(data: array<real>, buff: array<real>, matrix: seq<real>, rows: nat, w: nat, h: nat, x: int, y: int)
    requires data != buff && Fits(data[..], w, h) && OddSquare(|matrix|) && rows == Side(|matrix|) && InImage(w, h, x, y)
    requires ConvolvedUpTo(buff[..], data[..], matrix, w, h, Index(w, x, y, 0))
    modifies buff
    ensures ConvolvedUpTo(buff[..], data[..], matrix, w, h, Index(w, x, y, 0) + 4)
  {
    ghost var s := data[..];
    var p := (y * w + x) * 4;
    var r, g, b := ConvolvePixel(data, matrix, rows, w, h, x, y);
    IndexInBounds(w, h, x, y, 3);
    ghost var before := buff[..];
    buff[p + 0] := BitOrZero(r + 0.5) as real;
    buff[p + 1] := BitOrZero(g + 0.5) as real;
    buff[p + 2] := BitOrZero(b + 0.5) as real;
    buff[p + 3] := data[p + 3];
    ConvolvedAtPixel(s, matrix, w, h, x, y);
    PixelDone(before, buff[..], s, matrix, w, h, x, y);
  }

  /** The first `n` entries of `b` hold the filter's results for `s`. */
  predicate ConvolvedUpTo(b: seq<real>, s: seq<real>, m: seq<real>, w: int, h: int, n: int)
    requires Fits(s, w, h) && OddSquare(|m|)
  {
    0 <= n <= |s| == |b| && forall i | 0 <= i < n :: b[i] == ConvolvedAt(s, m, w, h, i)
  }

  /** Writing the four results of pixel (x, y) after those of every earlier
      pixel extends the finished prefix by one pixel. */
  lemma PixelDone(before: seq<real>, after: seq<real>, s: seq<real>, m: seq<real>, w: int, h: int, x: int, y: int)
    requires Fits(s, w, h) && OddSquare(|m|) && InImage(w, h, x, y)
    requires ConvolvedUpTo(before, s, m, w, h, Index(w, x, y, 0))
    requires |after| == |before| && Index(w, x, y, 3) < |after|
    requires forall i | 0 <= i < |after| && !(Index(w, x, y, 0) <= i <= Index(w, x, y, 3)) :: after[i] == before[i]
    requires forall c | 0 <= c < 4 :: after[Index(w, x, y, c)] == ConvolvedAt(s, m, w, h, Index(w, x, y, c))
    ensures ConvolvedUpTo(after, s, m, w, h, Index(w, x, y, 0) + 4)
  {
    var p := Index(w, x, y, 0);
    forall i | 0 <= i < p + 4
      ensures after[i] == ConvolvedAt(s, m, w, h, i)
    {
      if i >= p {
        assert i == Index(w, x, y, i - p);
      }
    }
  }

  /** The four entries of pixel (x, y) of the convolved buffer. */
  lemma ConvolvedAtPixel(s: seq<real>, m: seq<real>, w: int, h: int, x: int, y: int)
    requires Fits(s, w, h) && OddSquare(|m|) && InImage(w, h, x, y)
    ensures Index(w, x, y, 3) < |s|
    ensures forall c | 0 <= c < 3 ::
      ConvolvedAt(s, m, w, h, Index(w, x, y, c))
        == BitOrZero(KernelSum(s, m, Side(|m|), w, h, x, y, c, Side(|m|)) + 0.5) as real
    ensures ConvolvedAt(s, m, w, h, Index(w, x, y, 3)) == s[Index(w, x, y, 3)]
  {
    IndexInBounds(w, h, x, y, 3);
    forall c | 0 <= c < 4
      ensures 0 <= Index(w, x, y, c) < |s|
      ensures XOf(w, Index(w, x, y, c)) == x && YOf(w, Index(w, x, y, c)) == y && ChanOf(Index(w, x, y, c)) == c
    {
      IndexInBounds(w, h, x, y, c);
      DecodeIndex(w, x, y, c);
    }
  }

  /** The identity kernel: weight 1 at the centre tap, 0 elsewhere. */
  predicate IdentityKernel(m: seq<real>)
  {
    forall q | 0 <= q < |m| :: m[q] == if q == |m| / 2 then 1.0 else 0.0
  }

  /** Every colour entry is a whole number in [0, 2^31), as pixel data is. */
  predicate WholeColours(s: seq<real>)
  {
    forall q | 0 <= q < |s| && q % 4 != 3 :: s[q].Floor as real == s[q] && 0 <= s[q].Floor < TwoTo31
  }

  /** In an odd k x k kernel, tap (i, j) is the centre entry `k * k / 2`
      exactly when it is the middle of the middle row. */
  lemma CentreTap(k: nat, i: nat, j: nat)
    requires k % 2 == 1 && i < k && j < k
    ensures k * i + j == (k * k) / 2 <==> (i == k / 2 && j == k / 2)
  {
    var q := k / 2;
    assert k * k == 2 * (k * q + q) + 1 by {
      assert k == 2 * q + 1;
      assert k * k == k * (2 * q + 1);
    }
    assert (k * k) / 2 == k * q + q;
    DivModUnique(k * i + j, k, i, j);
    DivModUnique(k * q + q, k, q, q);
  }

  /** With the identity kernel a tap contributes the entry under the pixel
      itself when it is the centre tap, and nothing otherwise. */
  lemma IdentityTap(s: seq<real>, m: seq<real>, k: nat, w: int, h: int, x: int, y: int, c: int, i: nat, j: nat)
    requires |m| == k * k && k % 2 == 1 && IdentityKernel(m) && InImage(w, h, x, y) && i < k && j < k
    ensures Tap(s, m, k, w, h, x, y, c, i, j)
         == if i == k / 2 && j == k / 2 then Entry(s, Index(w, x, y, c)) else 0.0
  {
    TapInKernel(k, i, j);
    CentreTap(k, i, j);
  }

  /** Row `i` of the identity kernel sums to the centre entry when it is the
      middle row and `n` reaches past the middle column, and to 0 otherwise. */
  lemma {:induction false} IdentityRowSum(s: seq<real>, m: seq<real>, k: nat, w: int, h: int, x: int, y: int, c: int,
                                          i: nat, n: nat)
    requires |m| == k * k && k % 2 == 1 && IdentityKernel(m) && InImage(w, h, x, y) && i < k && n <= k
    ensures RowSum(s, m, k, w, h, x, y, c, i, n)
         == if i == k / 2 && k / 2 < n then Entry(s, Index(w, x, y, c)) else 0.0
  {
    if n > 0 {
      IdentityRowSum(s, m, k, w, h, x, y, c, i, n - 1);
      IdentityTap(s, m, k, w, h, x, y, c, i, n - 1);
    }
  }

  /** The first `n` rows of the identity kernel sum to the centre entry once
      `n` reaches past the middle row, and to 0 before. */
  lemma {:induction false} IdentityKernelSum(s: seq<real>, m: seq<real>, k: nat, w: int, h: int, x: int, y: int, c: int,
                                             n: nat)
    requires |m| == k * k && k % 2 == 1 && IdentityKernel(m) && InImage(w, h, x, y) && n <= k
    ensures KernelSum(s, m, k, w, h, x, y, c, n) == if k / 2 < n then Entry(s, Index(w, x, y, c)) else 0.0
  {
    if n > 0 {
      IdentityKernelSum(s, m, k, w, h, x, y, c, n - 1);
      IdentityRowSum(s, m, k, w, h, x, y, c, n - 1, k);
    }
  }

  /** Convolving whole-number pixel data with the identity kernel gives the
      data back: the rounding `(v + 0.5) | 0` returns each whole `v`. */
  lemma ConvolveIdentity(s: seq<real>, m: seq<real>, w: int, h: int)
    requires Fits(s, w, h) && OddSquare(|m|) && IdentityKernel(m) && WholeColours(s)
    ensures Convolved(s, m, w, h) == s
  {
    var r := Convolved(s, m, w, h);
    var k := Side(|m|);
    forall q | 0 <= q < |s|
      ensures r[q] == s[q]
    {
      EncodeIndex(w, h, q);
      var x, y, c := XOf(w, q), YOf(w, q), ChanOf(q);
      if c != 3 {
        IdentityKernelSum(s, m, k, w, h, x, y, c, k);
        HalfAddTruncOfInteger(s[q].Floor);
      }
    }
  }
}
