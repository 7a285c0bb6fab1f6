/**
 A picture as rows of pixels, and the strided byte buffers that hold pictures.

 Every buffer in the pipeline is read through `View` and written through `Pack`. The nonlinear index
 arithmetic (`y * stride + x * bpp`) is confined to this module; everything else argues about grids.
 */
module Grids {
  import opened Common

  datatype Grid<P> = Grid(w: nat, h: nat, rows: seq<seq<P>>) {
    ghost predicate Valid() {
      |rows| == h && forall y :: 0 <= y < h ==> |rows[y]| == w
    }

    function At(x: nat, y: nat): P
      requires Valid() && x < w && y < h
    {
      rows[y][x]
    }
  }

  lemma SameGrid<P>(g: Grid<P>, k: Grid<P>)
    requires g.Valid() && k.Valid() && g.w == k.w && g.h == k.h
    requires forall x, y :: 0 <= x < g.w && 0 <= y < g.h ==> g.At(x, y) == k.At(x, y)
    ensures g == k
  {
    forall y | 0 <= y < g.h
      ensures g.rows[y] == k.rows[y]
    {
      forall x | 0 <= x < g.w
        ensures g.rows[y][x] == k.rows[y][x]
      {
        assert g.At(x, y) == k.At(x, y);
      }
    }
  }

  /** Apply a per-pixel function everywhere. */
  function MapGrid<P, Q>(f: P -> Q, g: Grid<P>): (r: Grid<Q>)
    requires g.Valid()
    ensures r.Valid() && r.w == g.w && r.h == g.h
    ensures forall x, y :: 0 <= x < g.w && 0 <= y < g.h ==> r.At(x, y) == f(g.At(x, y))
  {
    Grid(g.w, g.h, seq(g.h, y requires 0 <= y < g.h => seq(g.w, x requires 0 <= x < g.w => f(g.rows[y][x]))))
  }

  // ----- Offsets -----

  /** Where item `i` of a run of `n`-byte items starts: `i * n`, by repeated addition. */
  function Offset(i: nat, n: nat): (r: nat) {
    if i == 0 then 0 else Offset(i - 1, n) + n
  }

  lemma {:induction false} OffsetIsProduct(i: nat, n: nat)
    ensures Offset(i, n) == i * n
  {
    if i != 0 {
      OffsetIsProduct(i - 1, n);
    }
  }

  lemma {:induction false} OffsetStep(i: nat, j: nat, n: nat)
    requires i < j
    ensures Offset(i, n) + n <= Offset(j, n)
  {
    if i + 1 < j {
      OffsetStep(i, j - 1, n);
    }
  }

  /** The product the loops compute for an offset. */
  method Times(i: nat, n: nat) returns (r: nat)
    ensures r == Offset(i, n)
  {
    r := i * n;
    OffsetIsProduct(i, n);
  }

  method PixelStart(stride: nat, bpp: nat, x: nat, y: nat) returns (at: nat)
    ensures at == PixelOffset(stride, bpp, x, y)
  {
    at := y * stride + x * bpp;
    OffsetIsProduct(y, stride);
    OffsetIsProduct(x, bpp);
  }

  // ----- Flattening -----

  /** Concatenation, built the way the appending loops build it. */
  function Flatten<T>(ss: seq<seq<T>>): seq<T> {
    if |ss| == 0 then [] else Flatten(ss[..|ss| - 1]) + ss[|ss| - 1]
  }

  lemma {:induction false} FlattenUniform<T>(ss: seq<seq<T>>, n: nat)
    requires forall i :: 0 <= i < |ss| ==> |ss[i]| == n
    ensures |Flatten(ss)| == Offset(|ss|, n)
    ensures forall i :: 0 <= i < |ss| ==>
              Offset(i, n) + n <= |Flatten(ss)| && Flatten(ss)[Offset(i, n)..Offset(i, n) + n] == ss[i]
  {
    if |ss| != 0 {
      var init := ss[..|ss| - 1];
      FlattenUniform(init, n);
      forall i | 0 <= i < |ss|
        ensures Offset(i, n) + n <= |Flatten(ss)| && Flatten(ss)[Offset(i, n)..Offset(i, n) + n] == ss[i]
      {
        OffsetStep(i, |ss|, n);
        if i < |init| {
          assert Flatten(ss)[Offset(i, n)..Offset(i, n) + n] == Flatten(init)[Offset(i, n)..Offset(i, n) + n];
        }
      }
    }
  }

  lemma SliceOfSlice(d: seq<byte>, at: nat, len: nat, i: nat, n: nat, j: nat)
    requires at + len <= |d| && i + n <= len && j == at + i
    ensures d[at..at + len][i..i + n] == d[j..j + n]
  {
    var a := d[at..at + len][i..i + n];
    var b := d[j..j + n];
    forall k | 0 <= k < |a|
      ensures a[k] == b[k]
    {
    }
  }

  /** The `i`-th `n`-byte piece of `d`. */
  function Piece(d: seq<byte>, n: nat, i: nat): (s: seq<byte>)
    requires Offset(i, n) + n <= |d|
    ensures |s| == n
  {
    d[Offset(i, n)..Offset(i, n) + n]
  }

  lemma PieceOfPrefix(d: seq<byte>, m: nat, n: nat, i: nat)
    requires Offset(i, n) + n <= m <= |d|
    ensures Piece(d[..m], n, i) == Piece(d, n, i)
  {
    assert d[0..0 + m] == d[..m];
    SliceOfSlice(d, 0, m, Offset(i, n), n, Offset(i, n));
  }

  /** A sequence of pieces of `d`, in order and without gaps, concatenates to `d`. */
  lemma {:induction false} FlattenPieces(d: seq<byte>, n: nat, ss: seq<seq<byte>>)
    requires Offset(|ss|, n) == |d|
    requires forall i :: 0 <= i < |ss| ==> Offset(i, n) + n <= |d| && ss[i] == Piece(d, n, i)
    ensures Flatten(ss) == d
    decreases |ss|
  {
    if |ss| != 0 {
      var k := |ss| - 1;
      var m := Offset(k, n);
      forall i | 0 <= i < k
        ensures Offset(i, n) + n <= m && ss[..k][i] == Piece(d[..m], n, i)
      {
        OffsetStep(i, k, n);
        PieceOfPrefix(d, m, n, i);
      }
      FlattenPieces(d[..m], n, ss[..k]);
      SplitAt(d, m, n);
      assert Flatten(ss) == Flatten(ss[..k]) + ss[k];
    }
  }

  lemma SplitAt(d: seq<byte>, m: nat, n: nat)
    requires |d| == m + n
    ensures d == d[..m] + d[m..m + n]
  {
  }

  // ----- Strided buffers -----

  /** Where pixel (x, y) starts in a buffer whose rows are `stride` bytes apart. */
  function PixelOffset(stride: nat, bpp: nat, x: nat, y: nat): nat {
    Offset(y, stride) + Offset(x, bpp)
  }

  /** What both converters check before reading: rows fit in the stride, and the last row in the data. */
  predicate Covers(data: seq<byte>, w: nat, h: nat, stride: nat, bpp: nat) {
    Offset(w, bpp) <= stride && (h > 0 ==> Offset(h - 1, stride) + Offset(w, bpp) <= |data|)
  }

  lemma StrideCovers(data: seq<byte>, w: nat, h: nat, stride: nat, bpp: nat)
    requires |data| == stride * h && w * bpp <= stride
    ensures Covers(data, w, h, stride, bpp)
    ensures |data| == Offset(h, stride) && Offset(w, bpp) == w * bpp
  {
    OffsetIsProduct(w, bpp);
    OffsetIsProduct(h, stride);
  }

  lemma RowInRange(data: seq<byte>, w: nat, h: nat, stride: nat, bpp: nat, y: nat)
    requires Covers(data, w, h, stride, bpp) && y < h
    ensures Offset(y, stride) + Offset(w, bpp) <= |data|
  {
    if y < h - 1 {
      OffsetStep(y, h - 1, stride);
    }
  }

  /** No pixel of a covered buffer is read out of range. */
  lemma PixelInRange(data: seq<byte>, w: nat, h: nat, stride: nat, bpp: nat, x: nat, y: nat)
    requires Covers(data, w, h, stride, bpp) && x < w && y < h
    ensures Offset(x, bpp) + bpp <= Offset(w, bpp)
    ensures PixelOffset(stride, bpp, x, y) + bpp <= |data|
  {
    OffsetStep(x, w, bpp);
    RowInRange(data, w, h, stride, bpp, y);
  }

  function Pixel(data: seq<byte>, stride: nat, bpp: nat, x: nat, y: nat): (p: seq<byte>)
    requires PixelOffset(stride, bpp, x, y) + bpp <= |data|
    ensures |p| == bpp
  {
    data[PixelOffset(stride, bpp, x, y)..PixelOffset(stride, bpp, x, y) + bpp]
  }

  /** The first `w` pixels of row `y`. */
  function ViewRow(data: seq<byte>, w: nat, stride: nat, bpp: nat, y: nat): (row: seq<seq<byte>>)
    requires Offset(y, stride) + Offset(w, bpp) <= |data|
    ensures |row| == w
    ensures forall x :: 0 <= x < w ==>
              PixelOffset(stride, bpp, x, y) + bpp <= |data| && row[x] == Pixel(data, stride, bpp, x, y)
  {
    if w == 0 then []
    else
      OffsetStep(w - 1, w, bpp);
      ViewRow(data, w - 1, stride, bpp, y) + [Pixel(data, stride, bpp, w - 1, y)]
  }

  /** The picture a strided buffer holds; bytes between rows play no part. */
  function View(data: seq<byte>, w: nat, h: nat, stride: nat, bpp: nat): (g: Grid<seq<byte>>)
    requires Covers(data, w, h, stride, bpp)
    ensures g.Valid() && g.w == w && g.h == h
  {
    Grid(w, h, seq(h, y requires 0 <= y < h =>
                     RowInRange(data, w, h, stride, bpp, y);
                     ViewRow(data, w, stride, bpp, y)))
  }

  lemma ViewAt(data: seq<byte>, w: nat, h: nat, stride: nat, bpp: nat, x: nat, y: nat)
    requires Covers(data, w, h, stride, bpp) && x < w && y < h
    ensures PixelOffset(stride, bpp, x, y) + bpp <= |data|
    ensures View(data, w, h, stride, bpp).At(x, y) == Pixel(data, stride, bpp, x, y)
  {
    PixelInRange(data, w, h, stride, bpp, x, y);
    RowInRange(data, w, h, stride, bpp, y);
    assert View(data, w, h, stride, bpp).rows[y] == ViewRow(data, w, stride, bpp, y);
  }

  ghost predicate PixelSize(g: Grid<seq<byte>>, bpp: nat)
    requires g.Valid()
  {
    forall x, y :: 0 <= x < g.w && 0 <= y < g.h ==> |g.At(x, y)| == bpp
  }

  lemma ViewPixelSize(data: seq<byte>, w: nat, h: nat, stride: nat, bpp: nat)
    requires Covers(data, w, h, stride, bpp)
    ensures PixelSize(View(data, w, h, stride, bpp), bpp)
  {
    forall x, y | 0 <= x < w && 0 <= y < h
      ensures |View(data, w, h, stride, bpp).At(x, y)| == bpp
    {
      ViewAt(data, w, h, stride, bpp, x, y);
    }
  }

  function RowBytes(g: Grid<seq<byte>>): (rows: seq<seq<byte>>)
    requires g.Valid()
    ensures |rows| == g.h
  {
    seq(g.h, y requires 0 <= y < g.h => Flatten(g.rows[y]))
  }

  /** Row-major bytes with no padding. */
  function Pack(g: Grid<seq<byte>>): seq<byte>
    requires g.Valid()
  {
    Flatten(RowBytes(g))
  }

  lemma RowPixels(g: Grid<seq<byte>>, bpp: nat, y: nat)
    requires g.Valid() && PixelSize(g, bpp) && y < g.h
    ensures |RowBytes(g)[y]| == Offset(g.w, bpp)
    ensures forall x :: 0 <= x < g.w ==>
              Offset(x, bpp) + bpp <= |RowBytes(g)[y]| && Piece(RowBytes(g)[y], bpp, x) == g.At(x, y)
  {
    forall x | 0 <= x < g.w
      ensures |g.rows[y][x]| == bpp
    {
      assert |g.At(x, y)| == bpp;
    }
    FlattenUniform(g.rows[y], bpp);
  }

  lemma PackSize(g: Grid<seq<byte>>, bpp: nat)
    requires g.Valid() && PixelSize(g, bpp)
    ensures forall y :: 0 <= y < g.h ==> |RowBytes(g)[y]| == Offset(g.w, bpp)
    ensures |Pack(g)| == Offset(g.h, Offset(g.w, bpp))
    ensures Covers(Pack(g), g.w, g.h, Offset(g.w, bpp), bpp)
  {
    forall y | 0 <= y < g.h
      ensures |RowBytes(g)[y]| == Offset(g.w, bpp)
    {
      RowPixels(g, bpp, y);
    }
    FlattenUniform(RowBytes(g), Offset(g.w, bpp));
  }

  /** Reading back a packed picture gives the picture. */
  lemma ViewOfPack(g: Grid<seq<byte>>, bpp: nat)
    requires g.Valid() && PixelSize(g, bpp)
    ensures Covers(Pack(g), g.w, g.h, Offset(g.w, bpp), bpp)
    ensures View(Pack(g), g.w, g.h, Offset(g.w, bpp), bpp) == g
  {
    PackSize(g, bpp);
    var stride := Offset(g.w, bpp);
    var v := View(Pack(g), g.w, g.h, stride, bpp);
    FlattenUniform(RowBytes(g), stride);
    forall x, y | 0 <= x < g.w && 0 <= y < g.h
      ensures v.At(x, y) == g.At(x, y)
    {
      RowPixels(g, bpp, y);
      ViewAt(Pack(g), g.w, g.h, stride, bpp, x, y);
      PieceOfPiece(Pack(g), stride, bpp, x, y);
      assert Piece(Pack(g), stride, y) == RowBytes(g)[y];
    }
    SameGrid(v, g);
  }

  lemma PackedPixel(g: Grid<seq<byte>>, bpp: nat, x: nat, y: nat)
    requires g.Valid() && PixelSize(g, bpp) && x < g.w && y < g.h
    ensures PixelOffset(Offset(g.w, bpp), bpp, x, y) + bpp <= |Pack(g)|
    ensures Pixel(Pack(g), Offset(g.w, bpp), bpp, x, y) == g.At(x, y)
  {
    ViewOfPack(g, bpp);
    ViewAt(Pack(g), g.w, g.h, Offset(g.w, bpp), bpp, x, y);
  }

  /** What covering means in products. */
  lemma CoversIff(data: seq<byte>, w: nat, h: nat, stride: nat, bpp: nat)
    ensures Covers(data, w, h, stride, bpp) <==>
            w * bpp <= stride && (h > 0 ==> (h - 1) * stride + w * bpp <= |data|)
  {
    OffsetIsProduct(w, bpp);
    if h > 0 {
      OffsetIsProduct(h - 1, stride);
    }
  }

  /** The `n` bytes from `at` on; none if they are not all there. */
  function BytesAt(data: seq<byte>, at: int, n: nat): seq<byte> {
    if 0 <= at && at + n <= |data| then data[at..at + n] else []
  }

  /** A viewed pixel is the bytes from `y * stride + x * bpp` on. */
  lemma ViewBytes(data: seq<byte>, w: nat, h: nat, stride: nat, bpp: nat, x: nat, y: nat)
    requires Covers(data, w, h, stride, bpp) && x < w && y < h
    ensures |View(data, w, h, stride, bpp).At(x, y)| == bpp
    ensures View(data, w, h, stride, bpp).At(x, y) == BytesAt(data, y * stride + x * bpp, bpp)
  {
    ViewAt(data, w, h, stride, bpp, x, y);
    OffsetIsProduct(y, stride);
    OffsetIsProduct(x, bpp);
  }

  /** A packed pixel is the bytes from `y * (w * bpp) + x * bpp` on. */
  lemma PackBytes(g: Grid<seq<byte>>, bpp: nat, x: nat, y: nat)
    requires g.Valid() && PixelSize(g, bpp) && x < g.w && y < g.h
    ensures |Pack(g)| == g.h * (g.w * bpp)
    ensures BytesAt(Pack(g), y * (g.w * bpp) + x * bpp, bpp) == g.At(x, y)
  {
    PackedPixel(g, bpp, x, y);
    PackSize(g, bpp);
    OffsetIsProduct(g.w, bpp);
    OffsetIsProduct(g.h, g.w * bpp);
    OffsetIsProduct(y, g.w * bpp);
    OffsetIsProduct(x, bpp);
  }

  lemma PieceOfPiece(d: seq<byte>, stride: nat, bpp: nat, x: nat, y: nat)
    requires Offset(y, stride) + stride <= |d| && Offset(x, bpp) + bpp <= stride
    ensures Piece(Piece(d, stride, y), bpp, x) == Pixel(d, stride, bpp, x, y)
  {
    hide Offset;
    SliceOfSlice(d, Offset(y, stride), stride, Offset(x, bpp), bpp, PixelOffset(stride, bpp, x, y));
  }

  /** A tightly packed buffer is determined by the picture it holds. */
  lemma PackOfView(data: seq<byte>, w: nat, h: nat, bpp: nat)
    requires |data| == Offset(h, Offset(w, bpp))
    ensures Covers(data, w, h, Offset(w, bpp), bpp)
    ensures Pack(View(data, w, h, Offset(w, bpp), bpp)) == data
  {
    var stride := Offset(w, bpp);
    var g := View(data, w, h, stride, bpp);
    forall y | 0 <= y < h
      ensures Offset(y, stride) + stride <= |data| && RowBytes(g)[y] == Piece(data, stride, y)
    {
      OffsetStep(y, h, stride);
      var row := Piece(data, stride, y);
      forall x | 0 <= x < w
        ensures Offset(x, bpp) + bpp <= stride && g.rows[y][x] == Piece(row, bpp, x)
      {
        ViewAt(data, w, h, stride, bpp, x, y);
        assert g.At(x, y) == g.rows[y][x];
        OffsetStep(x, w, bpp);
        PieceOfPiece(data, stride, bpp, x, y);
      }
      FlattenPieces(row, bpp, g.rows[y]);
    }
    FlattenPieces(data, stride, RowBytes(g));
  }

  // ----- What an appending conversion loop produces -----

  /** The bytes appended for the first `n` pixels of row `y`. */
  function EmitRow(data: seq<byte>, stride: nat, bpp: nat, emit: seq<byte> -> seq<byte>, y: nat, n: nat): seq<byte>
    requires Offset(y, stride) + Offset(n, bpp) <= |data|
  {
    if n == 0 then []
    else EmitRow(data, stride, bpp, emit, y, n - 1) + emit(Pixel(data, stride, bpp, n - 1, y))
  }

  lemma CoversFewer(data: seq<byte>, w: nat, n: nat, h: nat, stride: nat, bpp: nat)
    requires Covers(data, w, h, stride, bpp) && n <= h
    ensures Covers(data, w, n, stride, bpp)
  {
    if 0 < n < h {
      OffsetStep(n - 1, h - 1, stride);
    }
  }

  /** The bytes appended for the first `n` rows. */
  function EmitRows(data: seq<byte>, w: nat, stride: nat, bpp: nat, emit: seq<byte> -> seq<byte>, n: nat): seq<byte>
    requires Covers(data, w, n, stride, bpp)
  {
    if n == 0 then []
    else
      CoversFewer(data, w, n - 1, n, stride, bpp);
      EmitRows(data, w, stride, bpp, emit, n - 1) + EmitRow(data, stride, bpp, emit, n - 1, w)
  }

  lemma {:induction false} EmitRowIsFlatten(data: seq<byte>, stride: nat, bpp: nat, emit: seq<byte> -> seq<byte>,
                                            y: nat, cells: seq<seq<byte>>)
    requires Offset(y, stride) + Offset(|cells|, bpp) <= |data|
    requires forall x :: 0 <= x < |cells| ==>
               PixelOffset(stride, bpp, x, y) + bpp <= |data| && cells[x] == emit(Pixel(data, stride, bpp, x, y))
    ensures EmitRow(data, stride, bpp, emit, y, |cells|) == Flatten(cells)
    decreases |cells|
  {
    if |cells| != 0 {
      EmitRowIsFlatten(data, stride, bpp, emit, y, cells[..|cells| - 1]);
    }
  }

  lemma {:induction false} EmitRowsIsFlatten(data: seq<byte>, w: nat, stride: nat, bpp: nat,
                                             emit: seq<byte> -> seq<byte>, rows: seq<seq<byte>>)
    requires Covers(data, w, |rows|, stride, bpp)
    requires forall y :: 0 <= y < |rows| ==>
               Offset(y, stride) + Offset(w, bpp) <= |data| && rows[y] == EmitRow(data, stride, bpp, emit, y, w)
    ensures EmitRows(data, w, stride, bpp, emit, |rows|) == Flatten(rows)
    decreases |rows|
  {
    if |rows| != 0 {
      var last := |rows| - 1;
      CoversFewer(data, w, last, |rows|, stride, bpp);
      EmitRowsIsFlatten(data, w, stride, bpp, emit, rows[..last]);
      assert EmitRows(data, w, stride, bpp, emit, |rows|) ==
             EmitRows(data, w, stride, bpp, emit, last) + rows[last];
    }
  }

  /** Appending pixel after pixel, row after row, packs the converted picture. */
  lemma EmittedIsPacked(data: seq<byte>, w: nat, h: nat, stride: nat, bpp: nat, emit: seq<byte> -> seq<byte>)
    requires Covers(data, w, h, stride, bpp)
    ensures EmitRows(data, w, stride, bpp, emit, h) == Pack(MapGrid(emit, View(data, w, h, stride, bpp)))
  {
    var v := View(data, w, h, stride, bpp);
    var g := MapGrid(emit, v);
    forall y | 0 <= y < h
      ensures Offset(y, stride) + Offset(w, bpp) <= |data|
      ensures RowBytes(g)[y] == EmitRow(data, stride, bpp, emit, y, w)
    {
      RowInRange(data, w, h, stride, bpp, y);
      forall x | 0 <= x < w
        ensures PixelOffset(stride, bpp, x, y) + bpp <= |data| && g.rows[y][x] == emit(Pixel(data, stride, bpp, x, y))
      {
        ViewAt(data, w, h, stride, bpp, x, y);
        assert g.At(x, y) == emit(v.At(x, y));
      }
      EmitRowIsFlatten(data, stride, bpp, emit, y, g.rows[y]);
    }
    EmitRowsIsFlatten(data, w, stride, bpp, emit, RowBytes(g));
  }

  /** Distinct pixels occupy disjoint bytes. */
  lemma SlotsDisjoint(w: nat, bpp: nat, x: nat, y: nat, x': nat, y': nat)
    requires x < w && x' < w && (x, y) != (x', y')
    ensures var s := Offset(w, bpp);
            || PixelOffset(s, bpp, x, y) + bpp <= PixelOffset(s, bpp, x', y')
            || PixelOffset(s, bpp, x', y') + bpp <= PixelOffset(s, bpp, x, y)
  {
    var s := Offset(w, bpp);
    OffsetStep(x, w, bpp);
    OffsetStep(x', w, bpp);
    if y < y' {
      OffsetStep(y, y', s);
    } else if y' < y {
      OffsetStep(y', y, s);
    } else if x < x' {
      OffsetStep(x, x', bpp);
    } else {
      OffsetStep(x', x, bpp);
    }
  }
}
