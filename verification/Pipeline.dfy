/** Laws between the components: baking, the encoder's normaliser and the shim's converter. */
module Pipeline {
  import opened Common
  import opened Formats
  import opened Grids
  import opened Colors
  import opened Orientations
  import opened Textures
  import opened Convert
  import Encoder

  // ----- Frames and textures -----

  /** The frame the shim copies out of an engine texture. */
  function FrameOf(t: Texture, delayMs: u64): RawFrame {
    RawFrame(t.width, t.height, t.stride, ToConstant(t.format), t.data, delayMs)
  }

  /** The texture with a frame's parts, if those parts form one. */
  function TextureOf(f: RawFrame): Option<Texture> {
    match FromConstant(f.format)
    case None => None
    case Some(m) => FromParts(f.width, f.height, f.stride, m, f.data)
  }

  lemma ConstantsAgree(m: MemoryFormat)
    ensures FromConstant(ToConstant(m)) == Some(m)
    ensures BytesPerPixelNg(ToConstant(m)) == BytesPerPixel(m)
    ensures Sampleable(ToConstant(m)) <==> Is8Bit(m)
  {
    match m case _ =>
  }

  /** The two samplers, written separately in the two crates, are the same function. */
  lemma SamplersAgree(m: MemoryFormat, p: seq<byte>)
    requires |p| == BytesPerPixel(m)
    ensures BytesPerPixelNg(ToConstant(m)) == |p|
    ensures Convert.Sample(ToConstant(m), p) == Encoder.Sample(m, p)
  {
    ConstantsAgree(m);
    match m case _ =>
  }

  lemma FrameOfCovers(t: Texture, delayMs: u64)
    requires t.Valid()
    ensures var f := FrameOf(t, delayMs);
            && f.WellFormed() && Covers(f.data, f.width, f.height, f.stride, BytesPerPixelNg(f.format))
            && Picture(f) == t.Pixels()
  {
    ConstantsAgree(t.format);
    StrideCovers(t.data, t.width, t.height, t.stride, BytesPerPixel(t.format));
  }

  // ----- The two normalisers agree -----

  lemma SameBytes(m: MemoryFormat, p: seq<byte>)
    ensures Converter(ToConstant(m), FORMAT_R8G8B8A8)(p) == Encoder.Sampler(m)(p)
  {
    ConstantsAgree(m);
    if |p| == BytesPerPixel(m) {
      SamplersAgree(m, p);
    }
  }

  /** `to_rgba8` succeeds exactly when the shim can convert to R8G8B8A8 and the output is at most 1 GiB, alike. */
  lemma NormalisersAgree(data: seq<byte>, width: u32, height: u32, stride: u32, m: MemoryFormat, delayMs: u64)
    ensures var enc := Encoder.Normalized(data, width, height, stride, m);
            var shim := Converted(RawFrame(width, height, stride, ToConstant(m), data, delayMs), FORMAT_R8G8B8A8);
            && (enc.Ok? <==> shim.Some? && width * 4 * height <= Encoder.MAX_OUTPUT_BYTES)
            && (enc.Ok? ==> enc.value == shim.value.data)
  {
    ConstantsAgree(m);
    Encoder.RejectedIff(data, width, height, stride, m);
    var bpp := BytesPerPixel(m);
    if Covers(data, width, height, stride, bpp) {
      var v := View(data, width, height, stride, bpp);
      SameMap(Converter(ToConstant(m), FORMAT_R8G8B8A8), Encoder.Sampler(m), v, m);
    }
  }

  lemma SameMap(f: seq<byte> -> seq<byte>, k: seq<byte> -> seq<byte>, v: Grid<seq<byte>>, m: MemoryFormat)
    requires v.Valid() && f == Converter(ToConstant(m), FORMAT_R8G8B8A8) && k == Encoder.Sampler(m)
    ensures MapGrid(f, v) == MapGrid(k, v)
  {
    forall x, y | 0 <= x < v.w && 0 <= y < v.h
      ensures MapGrid(f, v).At(x, y) == MapGrid(k, v).At(x, y)
    {
      SameBytes(m, v.At(x, y));
    }
    SameGrid(MapGrid(f, v), MapGrid(k, v));
  }

  // ----- Baking and conversion commute -----

  /** A converted frame, seen as a texture, holds the converted picture. */
  lemma ConvertedTexture(f: RawFrame, m: MemoryFormat)
    requires Convertible(f, ToConstant(m)) && EmitTarget(ToConstant(m))
    ensures var g := MapGrid(Converter(f.format, ToConstant(m)), Picture(f));
            var t := TextureOf(Converted(f, ToConstant(m)).value);
            && (t.Some? <==> f.width * BytesPerPixel(m) < TWO_32)
            && (t.Some? ==> t.value.width == f.width && t.value.height == f.height && t.value.format == m
                            && t.value.Pixels() == g)
  {
    var c := ToConstant(m);
    var g := MapGrid(Converter(f.format, c), Picture(f));
    ConstantsAgree(m);
    ConvertedWellFormedIff(f, c);
    ConvertedPixelSize(f, c);
    ViewOfPack(g, BytesPerPixel(m));
    OffsetIsProduct(f.width, BytesPerPixel(m));
  }

  lemma TextureOfConverted(f: RawFrame, m: MemoryFormat)
    requires Convertible(f, ToConstant(m))
    ensures TextureOf(Converted(f, ToConstant(m)).value)
            == FromParts(f.width, f.height, TruncateU32(f.width * BytesPerPixel(m)), m,
                         Pack(MapGrid(Converter(f.format, ToConstant(m)), Picture(f))))
  {
    ConstantsAgree(m);
    OffsetIsProduct(f.width, BytesPerPixel(m));
  }

  /**
   Converting the oriented texture is orienting the converted one, down to the strides that do not fit
   32 bits: both sides are `None` together.
   */
  lemma BakingCommutes(t: Texture, o: Orientation, m: MemoryFormat, delayMs: u64)
    requires t.Valid() && Fits(t, o)
    requires Convertible(FrameOf(t, delayMs), ToConstant(m)) && EmitTarget(ToConstant(m))
    requires t.width * BytesPerPixel(m) < TWO_32
    ensures Transformed(t, o).Some?
    ensures var baked := FrameOf(Transformed(t, o).value, delayMs);
            var converted := TextureOf(Converted(FrameOf(t, delayMs), ToConstant(m)).value);
            && Convertible(baked, ToConstant(m)) && converted.Some?
            && TextureOf(Converted(baked, ToConstant(m)).value) == Transformed(converted.value, o)
  {
    BakedPicture(t, o, m, delayMs);
    var f := FrameOf(t, delayMs);
    var baked := FrameOf(Transformed(t, o).value, delayMs);
    ConvertedTexture(f, m);
    TextureOfConverted(baked, m);
    OrientMap(o, Converter(f.format, ToConstant(m)), Picture(f));
  }

  lemma BakedPicture(t: Texture, o: Orientation, m: MemoryFormat, delayMs: u64)
    requires t.Valid() && Fits(t, o) && Convertible(FrameOf(t, delayMs), ToConstant(m))
    ensures Transformed(t, o).Some?
    ensures var f := FrameOf(t, delayMs);
            var baked := FrameOf(Transformed(t, o).value, delayMs);
            && Convertible(baked, ToConstant(m)) && baked.format == f.format
            && baked.width == OutWidth(o, t.width, t.height) && baked.height == OutHeight(o, t.width, t.height)
            && Picture(baked) == Orient(o, Picture(f))
  {
    TransformedPicture(t, o);
    FrameOfCovers(t, delayMs);
    FrameOfCovers(Transformed(t, o).value, delayMs);
    ConstantsAgree(t.format);
  }

  // ----- Conversion through an intermediate layout -----

  /** The layouts that keep a straight colour and its alpha apart in four bytes. */
  predicate FourChannel(c: u32) {
    c in {FORMAT_R8G8B8A8, FORMAT_B8G8R8A8, FORMAT_A8R8G8B8, FORMAT_A8B8G8R8}
  }

  lemma FourChannelLossless(c: u32, k: Rgba)
    requires FourChannel(c)
    ensures EmitTarget(c) && BytesPerPixelNg(c) == 4 && Sampleable(c)
    ensures Convert.Sample(c, Emit(c, k)) == Some(k)
  {
  }

  /** What each layout keeps of a colour. */
  function Kept(c: u32, k: Rgba): Rgba {
    var y := Luma(k.r, k.g, k.b);
    if c in {FORMAT_R8G8B8, FORMAT_B8G8R8} then Rgba(k.r, k.g, k.b, OPAQUE)
    else if c == FORMAT_G8A8 then Rgba(y, y, y, k.a)
    else if c == FORMAT_G8 then Rgba(y, y, y, OPAQUE)
    else k
  }

  /** Sampling reads back what emitting wrote, up to what the layout can hold. */
  lemma EmitReadsBack(c: u32, k: Rgba)
    requires EmitTarget(c)
    ensures Sampleable(c) && Convert.Sample(c, Emit(c, k)) == Some(Kept(c, k))
  {
  }

  /** Converting a frame to the layout it has only repacks it. */
  lemma SelfConversion(f: RawFrame)
    requires EmitTarget(f.format) && Convertible(f, f.format)
    ensures Converted(f, f.format).value.data == Pack(Picture(f))
  {
    var v := Picture(f);
    ViewPixelSize(f.data, f.width, f.height, f.stride, BytesPerPixelNg(f.format));
    var g := MapGrid(Converter(f.format, f.format), v);
    forall x, y | 0 <= x < v.w && 0 <= y < v.h
      ensures g.At(x, y) == v.At(x, y)
    {
      SelfPixel(f.format, v.At(x, y));
    }
    SameGrid(g, v);
  }

  lemma SelfPixel(c: u32, p: seq<byte>)
    requires EmitTarget(c) && |p| == BytesPerPixelNg(c)
    ensures ConvertedBytes(c, c, p) == p
  {
    if c in {FORMAT_G8, FORMAT_G8A8} {
      LumaOfGray(p[0]);
    }
  }

  /** Two per-pixel conversions in a row, on a whole frame. */
  lemma ConvertTwice(f: RawFrame, mid: u32, target: u32)
    requires Convertible(f, mid) && EmitTarget(mid) && Sampleable(mid) && BytesPerPixelNg(target) != 0
    ensures var g := Converted(f, mid).value;
            && (Converted(g, target).Some? <==> f.width * BytesPerPixelNg(mid) < TWO_32)
            && (Converted(g, target).Some? ==>
                  && Picture(g) == MapGrid(Converter(f.format, mid), Picture(f))
                  && Converted(g, target).value.stride == TruncateU32(Offset(f.width, BytesPerPixelNg(target)))
                  && Converted(g, target).value.data
                     == Pack(MapGrid(Converter(mid, target), MapGrid(Converter(f.format, mid), Picture(f)))))
  {
    var n := BytesPerPixelNg(mid);
    var g := MapGrid(Converter(f.format, mid), Picture(f));
    ConvertedPixelSize(f, mid);
    ViewOfPack(g, n);
    OffsetIsProduct(f.width, n);
  }

  lemma ThroughFourChannels(src: u32, mid: u32, target: u32, g: Grid<seq<byte>>)
    requires g.Valid() && PixelSize(g, BytesPerPixelNg(src)) && FourChannel(mid)
    requires g.w > 0 && g.h > 0 ==> Sampleable(src)
    ensures MapGrid(Converter(mid, target), MapGrid(Converter(src, mid), g)) == MapGrid(Converter(src, target), g)
  {
    var l := MapGrid(Converter(mid, target), MapGrid(Converter(src, mid), g));
    var r := MapGrid(Converter(src, target), g);
    forall x, y | 0 <= x < g.w && 0 <= y < g.h
      ensures l.At(x, y) == r.At(x, y)
    {
      var p := g.At(x, y);
      assert |p| == BytesPerPixelNg(src);
      FourChannelLossless(mid, Convert.Sample(src, p).value);
    }
    SameGrid(l, r);
  }

  /** Going through a four-channel layout loses nothing, for every target, exactly when its stride fits 32 bits. */
  lemma ComposesIff(f: RawFrame, mid: u32, target: u32)
    requires Convertible(f, mid) && FourChannel(mid) && BytesPerPixelNg(target) != 0
    ensures Converted(Converted(f, mid).value, target) == Converted(f, target) <==> f.width * 4 < TWO_32
  {
    FourChannelLossless(mid, Rgba(0, 0, 0, 0));
    ConvertTwice(f, mid, target);
    ViewPixelSize(f.data, f.width, f.height, f.stride, BytesPerPixelNg(f.format));
    ThroughFourChannels(f.format, mid, target, Picture(f));
  }

  lemma GrayPixelSurvives(mid: u32, p: seq<byte>)
    requires |p| == 1 && EmitTarget(mid)
    ensures ConvertedBytes(mid, FORMAT_G8, ConvertedBytes(FORMAT_G8, mid, p)) == p
  {
    LumaOfGray(p[0]);
  }

  /** Gray comes back unchanged (and packed) from every layout the converter writes. */
  lemma GraySurvives(f: RawFrame, mid: u32)
    requires f.format == FORMAT_G8 && Convertible(f, mid) && EmitTarget(mid)
    requires f.width * BytesPerPixelNg(mid) < TWO_32
    ensures var back := Converted(Converted(f, mid).value, FORMAT_G8);
            && back.Some? && back.value.data == Pack(Picture(f)) && back.value.stride == f.width
            && back.value.width == f.width && back.value.height == f.height && back.value.format == FORMAT_G8
  {
    ConvertTwice(f, mid, FORMAT_G8);
    var v := Picture(f);
    ViewPixelSize(f.data, f.width, f.height, f.stride, 1);
    var l := MapGrid(Converter(mid, FORMAT_G8), MapGrid(Converter(FORMAT_G8, mid), v));
    forall x, y | 0 <= x < v.w && 0 <= y < v.h
      ensures l.At(x, y) == v.At(x, y)
    {
      GrayPixelSurvives(mid, v.At(x, y));
    }
    SameGrid(l, v);
    OffsetIsProduct(f.width, 1);
  }

  // ----- Premultiplied frames can be recovered -----

  predicate Premultiplied(c: u32) {
    c in {FORMAT_R8G8B8A8_PRE, FORMAT_B8G8R8A8_PRE, FORMAT_A8R8G8B8_PRE, FORMAT_G8A8_PRE}
  }

  /** Where the alpha byte sits. */
  function AlphaIndex(c: u32): nat
    requires Premultiplied(c)
    ensures AlphaIndex(c) < BytesPerPixelNg(c)
  {
    if c == FORMAT_A8R8G8B8_PRE then 0 else if c == FORMAT_G8A8_PRE then 1 else 3
  }

  /** No channel exceeds alpha; with alpha zero, every colour byte is zero. */
  ghost predicate ValidPremultiplied(c: u32, p: seq<byte>)
    requires Premultiplied(c)
  {
    |p| == BytesPerPixelNg(c) && forall i :: 0 <= i < |p| ==> p[i] <= p[AlphaIndex(c)]
  }

  /** Premultiply a straight pixel laid out like `c`, rounding up. */
  function Premultiply(c: u32, p: seq<byte>): (q: seq<byte>)
    requires Premultiplied(c)
    ensures |q| == |p|
  {
    if |p| != BytesPerPixelNg(c) then p
    else
      var a := p[AlphaIndex(c)];
      seq(|p|, i requires 0 <= i < |p| => if i == AlphaIndex(c) then a else Premul(p[i], a))
  }

  lemma ChannelRecovered(c: byte, a: byte)
    requires c <= a
    ensures a > 0 ==> Premul(UnpremulChannel(c, a), a) == c
    ensures a == 0 ==> Premul(0, a) == c
  {
    if a > 0 {
      UnpremulExact(c, a);
    }
  }

  lemma GrayPixelConverted(p: seq<byte>)
    requires |p| == 2
    ensures var (g, a) := UnpremulG8(p[0], p[1]);
            ConvertedBytes(FORMAT_G8A8_PRE, FORMAT_G8A8, p) == [g, a]
  {
    var (g, a) := UnpremulG8(p[0], p[1]);
    assert Convert.Sample(FORMAT_G8A8_PRE, p) == Some(Rgba(g, g, g, a));
    EmitGray(g, a);
  }

  lemma EmitGray(g: byte, a: byte)
    ensures Emit(FORMAT_G8A8, Rgba(g, g, g, a)) == [g, a]
  {
    LumaOfGray(g);
  }

  lemma GrayPixelRecovered(p: seq<byte>)
    requires ValidPremultiplied(FORMAT_G8A8_PRE, p)
    ensures Premultiply(FORMAT_G8A8_PRE, ConvertedBytes(FORMAT_G8A8_PRE, FORMAT_G8A8, p)) == p
  {
    GrayPixelConverted(p);
    assert p[0] <= p[AlphaIndex(FORMAT_G8A8_PRE)];
    ChannelRecovered(p[0], p[1]);
  }

  lemma ColorPixelRecovered(c: u32, p: seq<byte>)
    requires Premultiplied(c) && c != FORMAT_G8A8_PRE && ValidPremultiplied(c, p)
    ensures Premultiply(c, ConvertedBytes(c, Straight(c).value, p)) == p
  {
    var a := p[AlphaIndex(c)];
    var q := ConvertedBytes(c, Straight(c).value, p);
    forall i | 0 <= i < 4
      ensures |q| == 4 && q[AlphaIndex(c)] == a
      ensures i != AlphaIndex(c) ==> q[i] == if a == 0 then 0 else UnpremulChannel(p[i], a)
      ensures i != AlphaIndex(c) ==> Premul(q[i], a) == p[i]
    {
      assert |p| == 4;
      ChannelRecovered(p[i], a);
    }
    assert Premultiply(c, q) == p;
  }

  lemma PixelRecovered(c: u32, p: seq<byte>)
    requires Premultiplied(c) && ValidPremultiplied(c, p)
    ensures Premultiply(c, ConvertedBytes(c, Straight(c).value, p)) == p
  {
    if c == FORMAT_G8A8_PRE {
      GrayPixelRecovered(p);
    } else {
      ColorPixelRecovered(c, p);
    }
  }

  /** A valid premultiplied frame is recovered, pixel for pixel, from its straight conversion. */
  lemma PremultipliedRecovered(f: RawFrame)
    requires Premultiplied(f.format) && Convertible(f, Straight(f.format).value)
    requires forall x, y :: 0 <= x < f.width && 0 <= y < f.height ==>
                              ValidPremultiplied(f.format, Picture(f).At(x, y))
    requires f.width * BytesPerPixelNg(f.format) < TWO_32
    ensures var g := Converted(f, Straight(f.format).value).value;
            && Convertible(g, FORMAT_R8G8B8A8)
            && MapGrid(p => Premultiply(f.format, p), Picture(g)) == Picture(f)
  {
    var target := Straight(f.format).value;
    assert EmitTarget(target) && Sampleable(target) && BytesPerPixelNg(target) == BytesPerPixelNg(f.format);
    ConvertTwice(f, target, FORMAT_R8G8B8A8);
    var v := Picture(f);
    var k := MapGrid(Converter(f.format, target), v);
    var r := MapGrid(p => Premultiply(f.format, p), k);
    forall x, y | 0 <= x < v.w && 0 <= y < v.h
      ensures r.At(x, y) == v.At(x, y)
    {
      PixelRecovered(f.format, v.At(x, y));
    }
    SameGrid(r, v);
  }
}
