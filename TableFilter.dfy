/** `filterTable`: an in-place lookup-table remap of the R, G and B entries of
    every pixel; alpha is not touched. */
module TableFilter {
  import opened PixelSampler

  /** `v` is an integer that indexes a table of `n` entries. */
  predicate IsIndex(v: real, n: int)
  {
    v.Floor as real == v && 0 <= v.Floor < n
  }

  /** Every colour entry (not alpha) of `s` indexes the table. */
  predicate ColoursIndex(s: seq<real>, table: seq<real>)
  {
    forall i | 0 <= i < |s| && i % 4 != 3 :: IsIndex(s[i], |table|)
  }

  /** The buffer after remapping: `table[v]` for each colour entry `v`, alpha as it was. */
  function Remapped(s: seq<real>, table: seq<real>): (r: seq<real>)
    requires ColoursIndex(s, table)
    ensures |r| == |s|
    ensures forall i | 0 <= i < |r| :: if i % 4 == 3 then r[i] == s[i] else r[i] in table
  {
    seq(|s|, i requires 0 <= i < |s| => if i % 4 == 3 then s[i] else table[s[i].Floor])
  }

  /** The identity table maps every colour value to itself. */
  predicate IdentityTable(table: seq<real>)
  {
    forall j | 0 <= j < |table| :: table[j] == j as real
  }

  /** Remapping with the identity table leaves the buffer unchanged. */
  lemma RemapIdentity(s: seq<real>, table: seq<real>)
    requires ColoursIndex(s, table) && IdentityTable(table)
    ensures Remapped(s, table) == s
  {
    var r := Remapped(s, table);
    forall i | 0 <= i < |s|
      ensures r[i] == s[i]
    {
      if i % 4 != 3 {
        assert IsIndex(s[i], |table|);
      }
    }
  }

  /** `filterTable` as written. Its loops bound `y` by `w` and `x` by `h`, so
      they cover exactly the pixels of the image only when `w == h` (see
      `Visits` below); the method is stated for that square case. */
  method FilterTable(data: array<real>, table: seq<real>, w: nat, h: nat)
    requires data.Length == w * h * 4 && w == h
    requires ColoursIndex(data[..], table)
    modifies data
    ensures data[..] == Remapped(old(data[..]), table)
  {
    ghost var s := data[..];
    ghost var r := Remapped(s, table);
    for y := 0 to w
      invariant forall i | 0 <= i < data.Length :: data[i] == if i < y * w * 4 then r[i] else s[i]
    {
      for x := 0 to h
        invariant forall i | 0 <= i < data.Length :: data[i] == if i < (y * w + x) * 4 then r[i] else s[i]
      {
        var p := (y * w + x) * 4;
        IndexInBounds(w, h, x, y, 3);
        for i := 0 to 3
          invariant forall j | 0 <= j < data.Length :: data[j] == if j < p + i then r[j] else s[j]
        {
          assert (p + i) % 4 == i;
          data[p + i] := table[data[p + i].Floor];
        }
        assert (p + 3) % 4 == 3;
      }
      assert (y * w + w) * 4 == (y + 1) * w * 4;
    }
    assert data[..] == r;
  }

  /** The pixel numbers two nested loops visit, in order: rows `0 .. rows - 1`
      of `cols` pixels each, row `y` starting at pixel `y * stride`.
      `filterTable` as written visits `Visits(w, h, w)`. */
  function Visits(rows: nat, cols: nat, stride: int): (v: seq<int>)
    ensures |v| == rows * cols
  {
    if rows == 0 then []
    else Visits(rows - 1, cols, stride) + seq(cols, x => (rows - 1) * stride + x)
  }

  /** Position `y * cols + x` of the visit order is pixel `y * stride + x`. */
  lemma {:induction false} VisitsAt(rows: nat, cols: nat, stride: int, y: nat, x: nat)
    requires y < rows && x < cols
    ensures y * cols + x < rows * cols
    ensures Visits(rows, cols, stride)[y * cols + x] == y * stride + x
  {
    var prev := Visits(rows - 1, cols, stride);
    var tail := seq(cols, x' => (rows - 1) * stride + x');
    assert Visits(rows, cols, stride) == prev + tail;
    assert y * cols + x < (y + 1) * cols;
    MulMonotone(y + 1, rows, cols);
    if y < rows - 1 {
      MulMonotone(y + 1, rows - 1, cols);
      assert y * cols + x < |prev|;
      VisitsAt(rows - 1, cols, stride, y, x);
    } else {
      assert |prev| == y * cols;
      assert (prev + tail)[y * cols + x] == tail[x];
    }
  }

  /** The pixels 0, 1, ..., n - 1, each once and in order. */
  function AllPixels(n: nat): seq<int>
  {
    seq(n, q => q)
  }

  /** Rows bounded by `h` and columns by `w` visit every pixel of a w x h image
      exactly once, in order. */
  lemma RowMajorVisitsAll(w: nat, h: nat)
    ensures Visits(h, w, w) == AllPixels(w * h)
  {
    var v := Visits(h, w, w);
    assert |v| == h * w;
    forall q | 0 <= q < w * h
      ensures v[q] == q
    {
      EncodeIndex(w, h, 4 * q);
      var x, y := XOf(w, 4 * q), YOf(w, 4 * q);
      VisitsAt(h, w, w, y, x);
    }
  }

  /** The as-written bounds `y < w`, `x < h` visit every pixel exactly once, in
      order, precisely when the image is square, a single column, or empty. */
  lemma AsWrittenVisitsAllIff(w: nat, h: nat)
    ensures Visits(w, h, w) == AllPixels(w * h) <==> (w == h || w <= 1 || h == 0)
  {
    if w == h || w <= 1 || h == 0 {
      if w == h {
        RowMajorVisitsAll(w, w);
      } else if w == 0 {
      } else if w == 1 {
        forall x | 0 <= x < h ensures Visits(1, h, 1)[x] == x {
          VisitsAt(1, h, 1, 0, x);
        }
      }
    } else {
      // the first pixel of the second row is h in order, but the loops visit w
      VisitsAt(w, h, w, 1, 0);
      MulMonotone(2, w, h);
      assert Visits(w, h, w)[h] == w != AllPixels(w * h)[h];
    }
  }

  /** On a 2-wide, 3-high image the loops remap pixel 2 twice and never reach
      pixel 5; on a 3-wide, 2-high image they never reach pixels 2 and 5 and
      visit pixels 6 and 7, past the end of its 6 pixels. */
  lemma NonSquareVisits()
    ensures Visits(2, 3, 2) == [0, 1, 2, 2, 3, 4]
    ensures Visits(3, 2, 3) == [0, 1, 3, 4, 6, 7]
  {
    assert Visits(1, 3, 2) == [0, 1, 2];
    assert Visits(1, 2, 3) == [0, 1];
    assert Visits(2, 2, 3) == [0, 1, 3, 4];
  }

  /** `filterTable` with the loop bounds the layout calls for (`y < h`,
      `x < w`): every pixel of any w x h image is remapped exactly once. */
  method FilterTableByRows(data: array<real>, table: seq<real>, w: nat, h: nat)
    requires data.Length == w * h * 4
    requires ColoursIndex(data[..], table)
    modifies data
    ensures data[..] == Remapped(old(data[..]), table)
  {
    ghost var s := data[..];
    ghost var r := Remapped(s, table);
    for y := 0 to h
      invariant forall i | 0 <= i < data.Length :: data[i] == if i < y * w * 4 then r[i] else s[i]
    {
      for x := 0 to w
        invariant forall i | 0 <= i < data.Length :: data[i] == if i < (y * w + x) * 4 then r[i] else s[i]
      {
        var p := (y * w + x) * 4;
        IndexInBounds(w, h, x, y, 3);
        for i := 0 to 3
          invariant forall j | 0 <= j < data.Length :: data[j] == if j < p + i then r[j] else s[j]
        {
          assert (p + i) % 4 == i;
          data[p + i] := table[data[p + i].Floor];
        }
        assert (p + 3) % 4 == 3;
      }
      assert (y * w + w) * 4 == (y + 1) * w * 4;
    }
    assert h * w * 4 == data.Length;
    assert data[..] == r;
  }
}
