/** Textures and the scatter loop that bakes an orientation into one. */
module Textures {
  import opened Common
  import opened Formats
  import opened Grids
  import opened Orientations
  import opened PixelBags

  datatype Texture = Texture(width: u32, height: u32, stride: u32, format: MemoryFormat, data: seq<byte>) {
    /** The invariant `FromParts` establishes. */
    ghost predicate Valid() {
      |data| == stride * height && stride >= width * BytesPerPixel(format)
    }

    ghost predicate Packed() {
      Valid() && stride == width * BytesPerPixel(format)
    }

    /** The picture: rows of pixels, each pixel its raw bytes. */
    function Pixels(): (g: Grid<seq<byte>>)
      requires Valid()
      ensures g.Valid() && g.w == width && g.h == height && PixelSize(g, BytesPerPixel(format))
    {
      StrideCovers(data, width, height, stride, BytesPerPixel(format));
      ViewPixelSize(data, width, height, stride, BytesPerPixel(format));
      View(data, width, height, stride, BytesPerPixel(format))
    }
  }

  function FromParts(width: u32, height: u32, stride: u32, format: MemoryFormat, data: seq<byte>): (r: Option<Texture>)
    ensures r.Some? <==> Texture(width, height, stride, format, data).Valid()
    ensures r.Some? ==> r.value == Texture(width, height, stride, format, data)
  {
    if |data| != stride * height then None
    else if stride < width * BytesPerPixel(format) then None
    else Some(Texture(width, height, stride, format, data))
  }

  /**
   What baking `o` into `t` produces; `None` stands for the panic of the final `expect`.
   The new stride is cast to 32 bits before the parts are checked.
   */
  function Transformed(t: Texture, o: Orientation): (r: Option<Texture>)
    requires t.Valid()
  {
    var w := OutWidth(o, t.width, t.height);
    var h := OutHeight(o, t.width, t.height);
    FromParts(w, h, TruncateU32(w * BytesPerPixel(t.format)), t.format, Pack(Orient(o, t.Pixels())))
  }

  lemma PackedBytes(t: Texture, o: Orientation)
    requires t.Valid()
    ensures var w := OutWidth(o, t.width, t.height);
            var h := OutHeight(o, t.width, t.height);
            var bpp := BytesPerPixel(t.format);
            && PixelSize(Orient(o, t.Pixels()), bpp)
            && Offset(w, bpp) == w * bpp
            && |Pack(Orient(o, t.Pixels()))| == (w * bpp) * h
  {
    var w := OutWidth(o, t.width, t.height);
    var h := OutHeight(o, t.width, t.height);
    var bpp := BytesPerPixel(t.format);
    OrientPixelSize(o, t.Pixels(), bpp);
    PackSize(Orient(o, t.Pixels()), bpp);
    OffsetIsProduct(w, bpp);
    OffsetIsProduct(h, w * bpp);
  }

  /** The packed row of the turned texture fits 32 bits. */
  predicate Fits(t: Texture, o: Orientation) {
    OutWidth(o, t.width, t.height) * BytesPerPixel(t.format) < TWO_32
  }

  /** The `expect` holds exactly when the packed output row fits 32 bits; only axis swaps can break that. */
  lemma TransformPanicsIff(t: Texture, o: Orientation)
    requires t.Valid()
    ensures Transformed(t, o).None? <==> SwapsAxes(o) && t.height * BytesPerPixel(t.format) >= TWO_32
    ensures Transformed(t, o).None? <==> !Fits(t, o)
  {
    var w := OutWidth(o, t.width, t.height);
    var h := OutHeight(o, t.width, t.height);
    var row := w * BytesPerPixel(t.format);
    PackedBytes(t, o);
    if row >= TWO_32 && h > 0 {
      SmallerStrideMismatch(TruncateU32(row), row, h);
    }
  }

  lemma SmallerStrideMismatch(s: nat, row: nat, h: nat)
    requires s < row && h > 0
    ensures row * h != s * h
  {
  }

  /** A column of 2^30 RGBA pixels cannot be turned on its side. */
  lemma TallTexturePanics(data: seq<byte>)
    requires |data| == TWO_32
    ensures var t := Texture(1, 0x4000_0000, 4, R8g8b8a8, data);
            t.Valid() && Transformed(t, Rotate90).None?
  {
    TransformPanicsIff(Texture(1, 0x4000_0000, 4, R8g8b8a8, data), Rotate90);
  }

  /** No texture within the default height limit of 32768 reaches the panic, whatever its width and layout. */
  lemma DefaultHeightNeverPanics(t: Texture, o: Orientation)
    requires t.Valid() && t.height <= 32768
    ensures Transformed(t, o).Some?
  {
    TransformPanicsIff(t, o);
    assert t.height * BytesPerPixel(t.format) <= 32768 * 16;
  }

  /** The result as a picture: dimensions, format and packing, and each pixel where the map sends it. */
  lemma TransformedPicture(t: Texture, o: Orientation)
    requires t.Valid() && Fits(t, o)
    ensures Transformed(t, o).Some?
    ensures var r := Transformed(t, o).value;
            && r.Packed() && r.format == t.format
            && r.width == OutWidth(o, t.width, t.height) && r.height == OutHeight(o, t.width, t.height)
            && r.Pixels() == Orient(o, t.Pixels())
  {
    TransformPanicsIff(t, o);
    PackedBytes(t, o);
    ViewOfPack(Orient(o, t.Pixels()), BytesPerPixel(t.format));
  }

  lemma StoredBytes(t: Texture, x: nat, y: nat)
    requires t.Valid() && x < t.width && y < t.height
    ensures var n := BytesPerPixel(t.format);
            && t.Pixels().At(x, y) == BytesAt(t.data, y * t.stride + x * n, n) && |t.Pixels().At(x, y)| == n
  {
    hide BytesAt;
    StrideCovers(t.data, t.width, t.height, t.stride, BytesPerPixel(t.format));
    ViewBytes(t.data, t.width, t.height, t.stride, BytesPerPixel(t.format), x, y);
  }

  /** Byte for byte: the pixel stored at (x, y) stands, packed, at its mapped place. */
  lemma BakedBytes(t: Texture, o: Orientation, x: nat, y: nat)
    requires t.Valid() && Fits(t, o) && x < t.width && y < t.height
    ensures Transformed(t, o).Some?
    ensures var r, n := Transformed(t, o).value, BytesPerPixel(t.format);
            var (dx, dy) := MappedCoord(o, x, y, t.width, t.height);
            && r.format == t.format && r.stride == r.width * n
            && (r.width, r.height) == (OutWidth(o, t.width, t.height), OutHeight(o, t.width, t.height))
            && |BytesAt(r.data, dy * r.stride + dx * n, n)| == n
            && BytesAt(r.data, dy * r.stride + dx * n, n) == BytesAt(t.data, y * t.stride + x * n, n)
  {
    hide BytesAt, Transformed, Orient;
    TransformedPicture(t, o);
    var (dx, dy) := MappedCoord(o, x, y, t.width, t.height);
    StoredBytes(t, x, y);
    StoredBytes(Transformed(t, o).value, dx, dy);
    OrientAt(o, t.Pixels(), x, y);
  }

  /** Orientations act on textures: baking twice is baking the composition once, panics included. */
  lemma TransformCompose(t: Texture, first: Orientation, second: Orientation)
    requires t.Valid() && Fits(t, first)
    ensures Transformed(t, first).Some?
    ensures Transformed(Transformed(t, first).value, second) == Transformed(t, Compose(first, second))
  {
    TransformedPicture(t, first);
    OrientCompose(first, second, t.Pixels());
  }

  /** Baking `Normal` packs the rows and nothing else. */
  lemma TransformNormal(t: Texture)
    requires t.Valid()
    ensures var r := Transformed(t, Normal);
            && r.Some? && r.value.Packed() && r.value.Pixels() == t.Pixels()
            && (t.Packed() ==> r.value == t)
  {
    TransformPanicsIff(t, Normal);
    TransformedPicture(t, Normal);
    OrientNormal(t.Pixels());
    if t.Packed() {
      StrideCovers(t.data, t.width, t.height, t.stride, BytesPerPixel(t.format));
      PackOfView(t.data, t.width, t.height, BytesPerPixel(t.format));
    }
  }

  /** Undoing an orientation gives back the packed original. */
  lemma TransformInverse(t: Texture, o: Orientation)
    requires t.Valid() && Fits(t, o)
    ensures Transformed(t, o).Some?
    ensures var back := Transformed(Transformed(t, o).value, Inverse(o));
            && back == Transformed(t, Normal)
            && (t.Packed() ==> back == Some(t))
  {
    TransformCompose(t, o, Inverse(o));
    GroupLaws(o, o, o);
    TransformNormal(t);
  }

  /** Two textures that differ only in stride and padding bytes bake to the same result. */
  lemma PaddingIrrelevant(t: Texture, u: Texture, o: Orientation)
    requires t.Valid() && u.Valid()
    requires t.width == u.width && t.height == u.height && t.format == u.format
    requires forall x, y :: 0 <= x < t.width && 0 <= y < t.height ==> t.Pixels().At(x, y) == u.Pixels().At(x, y)
    ensures Transformed(t, o) == Transformed(u, o)
  {
    SameGrid(t.Pixels(), u.Pixels());
  }

  lemma TransformPermutesPixels(t: Texture, o: Orientation)
    requires t.Valid() && Fits(t, o)
    ensures Transformed(t, o).Some?
    ensures PixelBag(Transformed(t, o).value.Pixels()) == PixelBag(t.Pixels())
  {
    TransformedPicture(t, o);
    OrientKeepsBag(o, t.Pixels());
  }

  // ----- The loop -----

  /** The byte offset the pixel at (x, y) of `g` is copied to. */
  ghost function Destination(o: Orientation, g: Grid<seq<byte>>, bpp: nat, x: nat, y: nat): nat
    requires x < g.w && y < g.h
  {
    var (dx, dy) := MappedCoord(o, x, y, g.w, g.h);
    PixelOffset(Offset(OutWidth(o, g.w, g.h), bpp), bpp, dx, dy)
  }

  lemma DestinationsDisjoint(o: Orientation, g: Grid<seq<byte>>, bpp: nat, x: nat, y: nat, x': nat, y': nat)
    requires x < g.w && y < g.h && x' < g.w && y' < g.h && (x, y) != (x', y')
    ensures || Destination(o, g, bpp, x, y) + bpp <= Destination(o, g, bpp, x', y')
            || Destination(o, g, bpp, x', y') + bpp <= Destination(o, g, bpp, x, y)
  {
    var (dx, dy) := MappedCoord(o, x, y, g.w, g.h);
    var (dx', dy') := MappedCoord(o, x', y', g.w, g.h);
    EachDestinationOnce(o, g.w, g.h, x, y, x', y');
    SlotsDisjoint(OutWidth(o, g.w, g.h), bpp, dx, dy, dx', dy');
  }

  lemma DestinationInRange(o: Orientation, g: Grid<seq<byte>>, bpp: nat, x: nat, y: nat)
    requires x < g.w && y < g.h
    ensures Destination(o, g, bpp, x, y) + bpp
            <= Offset(OutHeight(o, g.w, g.h), Offset(OutWidth(o, g.w, g.h), bpp))
  {
    var (dx, dy) := MappedCoord(o, x, y, g.w, g.h);
    OffsetStep(dx, OutWidth(o, g.w, g.h), bpp);
    OffsetStep(dy, OutHeight(o, g.w, g.h), Offset(OutWidth(o, g.w, g.h), bpp));
  }

  ghost predicate Holds(d: seq<byte>, at: nat, p: seq<byte>) {
    at + |p| <= |d| && d[at..at + |p|] == p
  }

  /** Every source pixel before (sx, sy) in reading order has been copied to its destination. */
  ghost predicate Scattered(d: seq<byte>, g: Grid<seq<byte>>, o: Orientation, bpp: nat, sx: nat, sy: nat)
    requires g.Valid()
  {
    forall x, y :: 0 <= x < g.w && 0 <= y < g.h && (y < sy || (y == sy && x < sx)) ==>
                     Holds(d, Destination(o, g, bpp, x, y), g.At(x, y))
  }

  lemma WriteKeeps(d: seq<byte>, at: nat, p: seq<byte>, k: nat, q: seq<byte>)
    requires at + |p| <= |d| && Holds(d, k, q)
    requires at + |p| <= k || k + |q| <= at
    ensures Holds(d[..at] + p + d[at + |p|..], k, q)
  {
    var d' := d[..at] + p + d[at + |p|..];
    assert d'[k..k + |q|] == d[k..k + |q|];
  }

  /** Writing pixel (sx, sy) of `g` to its destination `at` in `d` gives `d'`. */
  lemma ScatterStep(d: seq<byte>, d': seq<byte>, at: nat, p: seq<byte>,
                    g: Grid<seq<byte>>, o: Orientation, bpp: nat, sx: nat, sy: nat)
    requires g.Valid() && PixelSize(g, bpp) && sx < g.w && sy < g.h
    requires at == Destination(o, g, bpp, sx, sy) && p == g.At(sx, sy) && at + |p| <= |d|
    requires d' == d[..at] + p + d[at + |p|..]
    requires Scattered(d, g, o, bpp, sx, sy)
    ensures Scattered(d', g, o, bpp, sx + 1, sy)
  {
    assert Holds(d', at, p);
    forall x, y | 0 <= x < g.w && 0 <= y < g.h && (y < sy || (y == sy && x < sx))
      ensures Holds(d', Destination(o, g, bpp, x, y), g.At(x, y))
    {
      DestinationsDisjoint(o, g, bpp, x, y, sx, sy);
      WriteKeeps(d, at, p, Destination(o, g, bpp, x, y), g.At(x, y));
    }
  }

  lemma ScatterDone(d: seq<byte>, g: Grid<seq<byte>>, o: Orientation, bpp: nat)
    requires g.Valid() && PixelSize(g, bpp) && Scattered(d, g, o, bpp, 0, g.h)
    requires |d| == Offset(OutHeight(o, g.w, g.h), Offset(OutWidth(o, g.w, g.h), bpp))
    ensures d == Pack(Orient(o, g))
  {
    var w := OutWidth(o, g.w, g.h);
    var h := OutHeight(o, g.w, g.h);
    PackOfView(d, w, h, bpp);
    var r := View(d, w, h, Offset(w, bpp), bpp);
    forall x, y | 0 <= x < g.w && 0 <= y < g.h
      ensures var (dx, dy) := MappedCoord(o, x, y, g.w, g.h); r.At(dx, dy) == g.At(x, y)
    {
      var (dx, dy) := MappedCoord(o, x, y, g.w, g.h);
      ViewAt(d, w, h, Offset(w, bpp), bpp, dx, dy);
      assert Holds(d, Destination(o, g, bpp, x, y), g.At(x, y));
    }
    OrientUnique(o, g, r);
  }

  method CopyFromSlice(dst: array<byte>, at: nat, p: seq<byte>)
    requires at + |p| <= dst.Length
    modifies dst
    ensures dst[..] == old(dst[..])[..at] + p + old(dst[..])[at + |p|..]
  {
    forall k | 0 <= k < |p| {
      dst[at + k] := p[k];
    }
  }

  method ZeroedRows(stride: nat, rows: nat) returns (dst: array<byte>)
    ensures fresh(dst) && dst.Length == Offset(rows, stride)
  {
    OffsetIsProduct(rows, stride);
    dst := new byte[stride * rows](_ => 0);
  }

  method TransformTexture(t: Texture, o: Orientation) returns (r: Option<Texture>)
    requires t.Valid()
    ensures r == Transformed(t, o)
  {
    var bpp := BytesPerPixel(t.format);
    var outW := OutWidth(o, t.width, t.height);
    var outH := OutHeight(o, t.width, t.height);
    var outStride := outW * bpp;
    OffsetIsProduct(outW, bpp);
    var dst := ZeroedRows(outStride, outH);
    StrideCovers(t.data, t.width, t.height, t.stride, bpp);
    Scatter(dst, outStride, t.data, t.width, t.height, t.stride, bpp, o);
    ScatterDone(dst[..], t.Pixels(), o, bpp);
    r := FromParts(outW, outH, TruncateU32(outStride), t.format, dst[..]);
  }

  /** The nested copy loop of `TransformTexture`, over the texture's dimensions and bytes. */
  method Scatter(dst: array<byte>, outStride: nat,
                 src: seq<byte>, width: nat, height: nat, srcStride: nat, bpp: nat, o: Orientation)
    requires Covers(src, width, height, srcStride, bpp)
    requires outStride == Offset(OutWidth(o, width, height), bpp)
    requires dst.Length == Offset(OutHeight(o, width, height), outStride)
    modifies dst
    ensures Scattered(dst[..], View(src, width, height, srcStride, bpp), o, bpp, 0, height)
  {
    ghost var g := View(src, width, height, srcStride, bpp);
    for sy := 0 to height
      invariant Scattered(dst[..], g, o, bpp, 0, sy)
    {
      for sx := 0 to width
        invariant Scattered(dst[..], g, o, bpp, sx, sy)
      {
        CopyPixel(dst, outStride, src, width, height, srcStride, bpp, o, sx, sy);
      }
    }
  }

  /** One iteration: pixel (sx, sy) goes to its destination. */
  method CopyPixel(dst: array<byte>, outStride: nat,
                   src: seq<byte>, width: nat, height: nat, srcStride: nat, bpp: nat, o: Orientation, sx: nat, sy: nat)
    requires Covers(src, width, height, srcStride, bpp) && sx < width && sy < height
    requires outStride == Offset(OutWidth(o, width, height), bpp)
    requires dst.Length == Offset(OutHeight(o, width, height), outStride)
    requires Scattered(dst[..], View(src, width, height, srcStride, bpp), o, bpp, sx, sy)
    modifies dst
    ensures Scattered(dst[..], View(src, width, height, srcStride, bpp), o, bpp, sx + 1, sy)
  {
    ghost var g := View(src, width, height, srcStride, bpp);
    var (dx, dy) := MappedCoord(o, sx, sy, width, height);
    var srcOff := PixelStart(srcStride, bpp, sx, sy);
    var dstOff := PixelStart(outStride, bpp, dx, dy);
    ViewAt(src, width, height, srcStride, bpp, sx, sy);
    ViewPixelSize(src, width, height, srcStride, bpp);
    var pixel := src[srcOff..srcOff + bpp];
    assert pixel == g.At(sx, sy);
    assert dstOff == Destination(o, g, bpp, sx, sy);
    DestinationInRange(o, g, bpp, sx, sy);
    ghost var before := dst[..];
    CopyFromSlice(dst, dstOff, pixel);
    ScatterStep(before, dst[..], dstOff, pixel, g, o, bpp, sx, sy);
  }
}
