/** The encoder's pixel path: any supported layout to RGBA8, and for JPEG in place to RGB8. */
module Encoder {
  import opened Common
  import opened Formats
  import opened Grids
  import opened Colors
  import opened Sniff

  /** The largest output `to_rgba8` agrees to allocate: 1 GiB. */
  const MAX_OUTPUT_BYTES: nat := 0x4000_0000

  datatype Error =
    | UnsupportedFormat
    | NoFrames
    | MultiFrame
    | NarrowStride
    | OutputTooLarge
    | TruncatedData
    | NoSampler
    | CodecFailed

  // ----- Sampling -----

  function Sample(f: MemoryFormat, p: seq<byte>): (c: Option<Rgba>)
    requires |p| == BytesPerPixel(f)
    ensures c.Some? <==> Is8Bit(f)
  {
    match f
    case G8 => Some(Rgba(p[0], p[0], p[0], OPAQUE))
    case G8a8 => Some(Rgba(p[0], p[0], p[0], p[1]))
    case G8a8Premultiplied => var (g, a) := UnpremulG8(p[0], p[1]); Some(Rgba(g, g, g, a))
    case R8g8b8 => Some(Rgba(p[0], p[1], p[2], OPAQUE))
    case B8g8r8 => Some(Rgba(p[2], p[1], p[0], OPAQUE))
    case R8g8b8a8 => Some(Rgba(p[0], p[1], p[2], p[3]))
    case R8g8b8a8Premultiplied => Some(UnpremulRgb8(p[0], p[1], p[2], p[3]))
    case B8g8r8a8 => Some(Rgba(p[2], p[1], p[0], p[3]))
    case B8g8r8a8Premultiplied => Some(UnpremulRgb8(p[2], p[1], p[0], p[3]))
    case A8r8g8b8 => Some(Rgba(p[1], p[2], p[3], p[0]))
    case A8r8g8b8Premultiplied => Some(UnpremulRgb8(p[1], p[2], p[3], p[0]))
    case A8b8g8r8 => Some(Rgba(p[3], p[2], p[1], p[0]))
    case _ => None
  }

  /** A pixel's RGBA8 bytes; pixels that cannot be sampled, which are never reached, count as no bytes. */
  function SampledBytes(f: MemoryFormat, p: seq<byte>): seq<byte> {
    if |p| == BytesPerPixel(f) && Sample(f, p).Some? then RgbaBytes(Sample(f, p).value) else []
  }

  function RgbaBytes(c: Rgba): (p: seq<byte>)
    ensures |p| == 4
  {
    [c.r, c.g, c.b, c.a]
  }

  function Sampler(f: MemoryFormat): seq<byte> -> seq<byte> {
    p => SampledBytes(f, p)
  }

  /** The RGBA8 picture of a buffer. */
  function RgbaPicture(data: seq<byte>, width: nat, height: nat, stride: nat, f: MemoryFormat): (g: Grid<seq<byte>>)
    requires Covers(data, width, height, stride, BytesPerPixel(f))
    ensures g.Valid() && g.w == width && g.h == height
  {
    MapGrid(Sampler(f), View(data, width, height, stride, BytesPerPixel(f)))
  }

  /** The checks made before any pixel is read, in order. */
  function Rejected(data: seq<byte>, width: u32, height: u32, stride: u32, f: MemoryFormat): (e: Option<Error>)
    ensures e.None? ==> Covers(data, width, height, stride, BytesPerPixel(f))
  {
    var rowBytes := Offset(width, BytesPerPixel(f));
    if rowBytes > stride then Some(NarrowStride)
    else if Offset(height, width * 4) > MAX_OUTPUT_BYTES then Some(OutputTooLarge)
    else if height > 0 && |data| < Offset(height - 1, stride) + rowBytes then Some(TruncatedData)
    else None
  }

  lemma RejectedIff(data: seq<byte>, width: u32, height: u32, stride: u32, f: MemoryFormat)
    ensures Rejected(data, width, height, stride, f).None? <==>
            Covers(data, width, height, stride, BytesPerPixel(f)) && width * 4 * height <= MAX_OUTPUT_BYTES
  {
    OffsetIsProduct(height, width * 4);
  }

  /** The result of `to_rgba8`. */
  function Normalized(data: seq<byte>, width: u32, height: u32, stride: u32, f: MemoryFormat)
    : Result<seq<byte>, Error>
  {
    if Rejected(data, width, height, stride, f).Some? then Err(Rejected(data, width, height, stride, f).value)
    else if width > 0 && height > 0 && !Is8Bit(f) then Err(NoSampler)
    else Ok(Pack(RgbaPicture(data, width, height, stride, f)))
  }

  method CheckInput(data: seq<byte>, width: u32, height: u32, stride: u32, f: MemoryFormat) returns (e: Option<Error>)
    ensures e == Rejected(data, width, height, stride, f)
  {
    var rowBytes := Times(width, BytesPerPixel(f));
    if rowBytes > stride {
      return Some(NarrowStride);
    }
    var outStride := width * 4;
    var outTotal := Times(height, outStride);
    if outTotal > MAX_OUTPUT_BYTES {
      return Some(OutputTooLarge);
    }
    if height > 0 {
      var lastRow := Times(height - 1, stride);
      if |data| < lastRow + rowBytes {
        return Some(TruncatedData);
      }
    }
    return None;
  }

  method ToRgba8(data: seq<byte>, width: u32, height: u32, stride: u32, f: MemoryFormat)
    returns (r: Result<seq<byte>, Error>)
    ensures r == Normalized(data, width, height, stride, f)
  {
    var e := CheckInput(data, width, height, stride, f);
    if e.Some? {
      return Err(e.value);
    }
    var rows := SampleRows(data, width, height, stride, f);
    r := if rows.None? then Err(NoSampler) else Ok(rows.value);
  }

  /** The outer loop of `ToRgba8`, after its checks: `None` at the first pixel without a sampler. */
  method SampleRows(data: seq<byte>, width: nat, height: nat, stride: nat, f: MemoryFormat)
    returns (r: Option<seq<byte>>)
    requires Covers(data, width, height, stride, BytesPerPixel(f))
    ensures r == if width == 0 || height == 0 || Is8Bit(f) then Some(Pack(RgbaPicture(data, width, height, stride, f)))
                 else None
  {
    var bpp := BytesPerPixel(f);
    var out: seq<byte> := [];
    for y := 0 to height
      invariant Covers(data, width, y, stride, bpp) && out == EmitRows(data, width, stride, bpp, Sampler(f), y)
      invariant y > 0 && width > 0 ==> Is8Bit(f)
    {
      RowInRange(data, width, height, stride, bpp, y);
      CoversFewer(data, width, y + 1, height, stride, bpp);
      var bytes := SampleRow(data, stride, y, width, f);
      if bytes.None? {
        return None;
      }
      out := out + bytes.value;
    }
    EmittedIsPacked(data, width, height, stride, bpp, Sampler(f));
    return Some(out);
  }

  /** The inner loop, over row `y` of the buffer. */
  method SampleRow(data: seq<byte>, stride: nat, y: nat, width: nat, f: MemoryFormat) returns (r: Option<seq<byte>>)
    requires Offset(y, stride) + Offset(width, BytesPerPixel(f)) <= |data|
    ensures r == if width == 0 || Is8Bit(f) then Some(EmitRow(data, stride, BytesPerPixel(f), Sampler(f), y, width))
                 else None
  {
    var bpp := BytesPerPixel(f);
    var out: seq<byte> := [];
    for x := 0 to width
      invariant Offset(y, stride) + Offset(x, bpp) <= |data|
      invariant out == EmitRow(data, stride, bpp, Sampler(f), y, x)
      invariant x > 0 ==> Is8Bit(f)
    {
      var at := PixelStart(stride, bpp, x, y);
      OffsetStep(x, width, bpp);
      var p := data[at..at + bpp];
      assert p == Pixel(data, stride, bpp, x, y);
      var c := Sample(f, p);
      if c.None? {
        return None;
      }
      out := out + RgbaBytes(c.value);
    }
    return Some(out);
  }

  // ----- Flattening over white -----

  /** Pixel `i` of an RGBA8 buffer, composited over white. */
  function Composite(rgba: seq<byte>, i: nat): (p: seq<byte>)
    requires 4 * i + 4 <= |rgba|
    ensures |p| == 3
  {
    var a := rgba[4 * i + 3];
    [OverWhite(rgba[4 * i], a), OverWhite(rgba[4 * i + 1], a), OverWhite(rgba[4 * i + 2], a)]
  }

  function CompositePrefix(rgba: seq<byte>, n: nat): (rgb: seq<byte>)
    requires 4 * n <= |rgba|
    ensures |rgb| == 3 * n
  {
    if n == 0 then [] else CompositePrefix(rgba, n - 1) + Composite(rgba, n - 1)
  }

  /** The functional reading of `flatten_over_white`: every whole pixel, composited, in order. */
  function Flattened(rgba: seq<byte>): (rgb: seq<byte>)
    ensures |rgb| == 3 * (|rgba| / 4)
  {
    CompositePrefix(rgba, |rgba| / 4)
  }

  /** Three bytes written behind the read position; everything from the next pixel on is untouched. */
  method StorePixel(buf: array<byte>, i: nat, r: byte, g: byte, b: byte)
    requires 4 * i + 4 <= buf.Length
    modifies buf
    ensures buf[..3 * i + 3] == old(buf[..3 * i]) + [r, g, b]
    ensures buf[4 * i + 4..] == old(buf[4 * i + 4..])
  {
    buf[i * 3] := r;
    buf[i * 3 + 1] := g;
    buf[i * 3 + 2] := b;
  }

  /** The in-place compaction; the returned length is what the buffer is truncated to. */
  method FlattenOverWhite(buf: array<byte>) returns (len: nat)
    modifies buf
    ensures len == 3 * (buf.Length / 4)
    ensures buf[..len] == Flattened(old(buf[..]))
  {
    ghost var original := buf[..];
    var pixels := buf.Length / 4;
    for i := 0 to pixels
      invariant buf[..3 * i] == CompositePrefix(original, i)
      invariant buf[4 * i..] == original[4 * i..]
    {
      assert buf[4 * i..][..4] == original[4 * i..][..4];
      var a := buf[i * 4 + 3];
      var r := OverWhite(buf[i * 4], a);
      var g := OverWhite(buf[i * 4 + 1], a);
      var b := OverWhite(buf[i * 4 + 2], a);
      assert [r, g, b] == Composite(original, i);
      assert buf[4 * i + 4..] == original[4 * i..][4..];
      StorePixel(buf, i, r, g, b);
    }
    len := pixels * 3;
  }

  /** Byte for byte: three channels of each pixel, from its four bytes. */
  lemma {:induction false} CompositeAt(rgba: seq<byte>, n: nat, i: nat)
    requires 4 * n <= |rgba| && i < n
    ensures CompositePrefix(rgba, n)[3 * i..3 * i + 3] == Composite(rgba, i)
  {
    if i < n - 1 {
      CompositeAt(rgba, n - 1, i);
      assert CompositePrefix(rgba, n)[3 * i..3 * i + 3] == CompositePrefix(rgba, n - 1)[3 * i..3 * i + 3];
    }
  }

  lemma {:induction false} CompositeConcat(a: seq<byte>, b: seq<byte>, m: nat, n: nat)
    requires |a| == 4 * m && 4 * n <= |b|
    ensures CompositePrefix(a + b, m + n) == CompositePrefix(a, m) + CompositePrefix(b, n)
  {
    if n == 0 {
      CompositeOfPrefix(a, b, m);
    } else {
      CompositeConcat(a, b, m, n - 1);
      CompositeShift(a, b, m, n - 1);
      CompositeStep(a + b, m + n);
      CompositeStep(b, n);
      var x, y, z := CompositePrefix(a, m), CompositePrefix(b, n - 1), Composite(b, n - 1);
      assert (x + y) + z == x + (y + z);
    }
  }

  lemma CompositeStep(rgba: seq<byte>, n: nat)
    requires 0 < 4 * n <= |rgba|
    ensures CompositePrefix(rgba, n) == CompositePrefix(rgba, n - 1) + Composite(rgba, n - 1)
  {
  }

  lemma CompositeShift(a: seq<byte>, b: seq<byte>, m: nat, i: nat)
    requires |a| == 4 * m && 4 * i + 4 <= |b|
    ensures Composite(a + b, m + i) == Composite(b, i)
  {
    assert forall k :: 0 <= k < |b| ==> (a + b)[|a| + k] == b[k];
  }

  lemma {:induction false} CompositeOfPrefix(a: seq<byte>, b: seq<byte>, m: nat)
    requires 4 * m <= |a|
    ensures CompositePrefix(a + b, m) == CompositePrefix(a, m)
  {
    if m != 0 {
      CompositeOfPrefix(a, b, m - 1);
    }
  }

  lemma FlattenedConcat(a: seq<byte>, b: seq<byte>)
    requires |a| % 4 == 0
    ensures Flattened(a + b) == Flattened(a) + Flattened(b)
  {
    var m, n := |a| / 4, |b| / 4;
    assert |a| == 4 * m;
    QuartersAdd(m, |b|);
    assert |a + b| / 4 == m + n;
    CompositeConcat(a, b, m, n);
  }

  lemma QuartersAdd(m: nat, k: nat)
    ensures (4 * m + k) / 4 == m + k / 4
  {
  }

  /** Compositing one pixel's RGBA8 bytes. */
  function FlattenedPixel(p: seq<byte>): seq<byte> {
    Flattened(p)
  }

  lemma {:induction false} FlattenedAll(ps: seq<seq<byte>>, qs: seq<seq<byte>>)
    requires |ps| == |qs|
    requires forall i :: 0 <= i < |ps| ==> |ps[i]| % 4 == 0 && qs[i] == Flattened(ps[i])
    ensures |Flatten(ps)| % 4 == 0
    ensures Flattened(Flatten(ps)) == Flatten(qs)
  {
    if |ps| != 0 {
      var n := |ps| - 1;
      FlattenedAll(ps[..n], qs[..n]);
      FlattenedConcat(Flatten(ps[..n]), ps[n]);
    }
  }

  /** Flattening a packed RGBA8 buffer is compositing each pixel of its picture. */
  lemma FlattenedPicture(g: Grid<seq<byte>>)
    requires g.Valid() && PixelSize(g, 4)
    ensures Flattened(Pack(g)) == Pack(MapGrid(FlattenedPixel, g))
  {
    var k := MapGrid(FlattenedPixel, g);
    forall y | 0 <= y < g.h
      ensures |RowBytes(g)[y]| % 4 == 0 && RowBytes(k)[y] == Flattened(RowBytes(g)[y])
    {
      forall x | 0 <= x < g.w
        ensures |g.rows[y][x]| == 4 && k.rows[y][x] == Flattened(g.rows[y][x])
      {
        assert |g.At(x, y)| == 4 && k.At(x, y) == FlattenedPixel(g.At(x, y));
      }
      FlattenedAll(g.rows[y], k.rows[y]);
    }
    FlattenedAll(RowBytes(g), RowBytes(k));
  }

  // ----- The encoder -----

  predicate IsSupported(target: KnownFormat) {
    target in {Png, Jpeg, Gif, WebP, Tiff, Bmp}
  }

  datatype EncodeFrame = EncodeFrame(width: u32, height: u32, stride: u32, format: MemoryFormat, data: seq<byte>)

  /** What reaches the codec: its sample layout, the dimensions, the bytes, and what else it is told. */
  datatype CodecInput =
    | Rgba8(width: u32, height: u32, bytes: seq<byte>, icc: Option<seq<byte>>)
    | Rgb8(width: u32, height: u32, bytes: seq<byte>, icc: Option<seq<byte>>, quality: byte)

  /** A foreign codec: the encoded file, or `None` when it fails. */
  type Codec = (KnownFormat, CodecInput) -> Option<seq<byte>>

  /** The knobs of an encoder; `compression` is kept but no codec is told. */
  datatype Settings = Settings(quality: byte, compression: byte, icc: Option<seq<byte>>)

  predicate CarriesIcc(target: KnownFormat) {
    target in {Png, Jpeg, WebP}
  }

  /** What `encode` hands to the codec for a target and queued frames. */
  function Handed(target: KnownFormat, settings: Settings, frames: seq<EncodeFrame>): Result<CodecInput, Error> {
    if |frames| == 0 then Err(NoFrames)
    else if |frames| > 1 then Err(MultiFrame)
    else
      var f := frames[0];
      match Normalized(f.data, f.width, f.height, f.stride, f.format)
      case Err(e) => Err(e)
      case Ok(rgba) =>
        var icc := if CarriesIcc(target) then settings.icc else None;
        if target == Jpeg then Ok(Rgb8(f.width, f.height, Flattened(rgba), icc, settings.quality))
        else if IsSupported(target) then Ok(Rgba8(f.width, f.height, rgba, icc))
        else Err(UnsupportedFormat)
  }

  /** The file `encode` returns. */
  function Encoded(target: KnownFormat, settings: Settings, frames: seq<EncodeFrame>, codec: Codec)
    : Result<seq<byte>, Error>
  {
    match Handed(target, settings, frames)
    case Err(e) => Err(e)
    case Ok(input) =>
      match codec(target, input)
      case None => Err(CodecFailed)
      case Some(file) => Ok(file)
  }

  class ImageEncoder {
    const target: KnownFormat
    var frames: seq<EncodeFrame>
    var quality: byte
    var compression: byte
    var icc: Option<seq<byte>>

    function Knobs(): Settings
      reads this
    {
      Settings(quality, compression, icc)
    }

    /** `Encoder::new` after its support check; see `NewEncoder`. */
    constructor (target: KnownFormat)
      ensures this.target == target && frames == [] && Knobs() == Settings(75, 6, None)
    {
      this.target := target;
      frames, quality, compression, icc := [], 75, 6, None;
    }

    method AddFrame(frame: EncodeFrame)
      modifies this`frames
      ensures frames == old(frames) + [frame]
    {
      frames := frames + [frame];
    }

    method ClearFrames()
      modifies this`frames
      ensures frames == []
    {
      frames := [];
    }

    method SetQuality(quality: byte)
      modifies this`quality
      ensures this.quality == quality
    {
      this.quality := quality;
    }

    method SetIccProfile(icc: Option<seq<byte>>)
      modifies this`icc
      ensures this.icc == icc
    {
      this.icc := icc;
    }

    /** Leaves the encoder as it was, so it can be called again. */
    method Encode(codec: Codec) returns (r: Result<seq<byte>, Error>)
      ensures r == Encoded(target, Knobs(), frames, codec)
    {
      if |frames| == 0 {
        return Err(NoFrames);
      }
      if |frames| > 1 {
        return Err(MultiFrame);
      }
      var frame := frames[0];
      var rgba := ToRgba8(frame.data, frame.width, frame.height, frame.stride, frame.format);
      if rgba.Err? {
        return Err(rgba.error);
      }
      var profile := if CarriesIcc(target) then icc else None;
      var file: Option<seq<byte>>;
      if target == Jpeg {
        var buf := new byte[|rgba.value|](i requires 0 <= i < |rgba.value| => rgba.value[i]);
        assert buf[..] == rgba.value;
        var len := FlattenOverWhite(buf);
        file := codec(target, Rgb8(frame.width, frame.height, buf[..len], profile, quality));
      } else if IsSupported(target) {
        file := codec(target, Rgba8(frame.width, frame.height, rgba.value, profile));
      } else {
        return Err(UnsupportedFormat);
      }
      return if file.Some? then Ok(file.value) else Err(CodecFailed);
    }
  }

  method NewEncoder(target: KnownFormat) returns (r: Result<ImageEncoder, Error>)
    ensures r.Ok? <==> IsSupported(target)
    ensures r.Ok? ==> fresh(r.value) && r.value.target == target && r.value.frames == []
                      && r.value.Knobs() == Settings(75, 6, None)
    ensures r.Err? ==> r.error == UnsupportedFormat
  {
    if !IsSupported(target) {
      return Err(UnsupportedFormat);
    }
    var e := new ImageEncoder(target);
    return Ok(e);
  }

  /** The first failing check decides the error; the sizes are those of the buffer and of its RGBA8 form. */
  lemma ErrorsInOrder(data: seq<byte>, width: u32, height: u32, stride: u32, f: MemoryFormat)
    ensures var r, row := Normalized(data, width, height, stride, f), width * BytesPerPixel(f);
            if row > stride then r == Err(NarrowStride)
            else if width * 4 * height > 0x4000_0000 then r == Err(OutputTooLarge)
            else if height > 0 && |data| < (height - 1) * stride + row then r == Err(TruncatedData)
            else if width > 0 && height > 0 && !Is8Bit(f) then r == Err(NoSampler)
            else r.Ok?
  {
    hide RgbaPicture, Pack, Offset;
    CoversIff(data, width, height, stride, BytesPerPixel(f));
    OffsetIsProduct(width, BytesPerPixel(f));
    OffsetIsProduct(height, width * 4);
    if height > 0 {
      OffsetIsProduct(height - 1, stride);
    }
  }

  /** What the codec is told besides the picture: the quality for JPEG, and the profile where it can be embedded. */
  lemma CodecTold(target: KnownFormat, settings: Settings, f: EncodeFrame)
    requires Handed(target, settings, [f]).Ok?
    ensures var c := Handed(target, settings, [f]).value;
            && (target == Jpeg ==> c.Rgb8? && c.quality == settings.quality)
            && c.icc == (if target == Png || target == Jpeg || target == WebP then settings.icc else None)
  {
  }

  /** A file is returned exactly when the one queued frame normalises, the target is one of six, and the codec works. */
  lemma EncodedIff(target: KnownFormat, settings: Settings, frames: seq<EncodeFrame>, codec: Codec, file: seq<byte>)
    ensures Encoded(target, settings, frames, codec) == Ok(file) <==>
            && |frames| == 1
            && Normalized(frames[0].data, frames[0].width, frames[0].height, frames[0].stride, frames[0].format).Ok?
            && (target == Png || target == Jpeg || target == Gif || target == WebP || target == Tiff || target == Bmp)
            && Handed(target, settings, frames).Ok?
            && codec(target, Handed(target, settings, frames).value) == Some(file)
  {
  }

  /** Which error `encode` returns, and when. */
  lemma EncodeErrors(target: KnownFormat, settings: Settings, frames: seq<EncodeFrame>, codec: Codec)
    ensures var r := Encoded(target, settings, frames, codec);
            && (r == Err(NoFrames) <==> |frames| == 0)
            && (r == Err(MultiFrame) <==> |frames| > 1)
            && (|frames| == 1 ==>
                  var f := frames[0];
                  var rgba := Normalized(f.data, f.width, f.height, f.stride, f.format);
                  && (rgba.Err? ==> r.Err? && r.error == rgba.error)
                  && (rgba.Ok? ==> (r == Err(UnsupportedFormat) <==> target !in {Png, Jpeg, Gif, WebP, Tiff, Bmp}))
                  && (r == Err(CodecFailed) <==>
                        && Handed(target, settings, frames).Ok?
                        && codec(target, Handed(target, settings, frames).value) == None))
  {
  }

  lemma AreaBytes(w: nat, h: nat)
    ensures Offset(h, Offset(w, 4)) == 4 * (w * h)
  {
    OffsetIsProduct(w, 4);
    OffsetIsProduct(h, 4 * w);
    assert h * (4 * w) == 4 * (w * h);
  }

  lemma NormalizedSize(f: EncodeFrame)
    requires Normalized(f.data, f.width, f.height, f.stride, f.format).Ok?
    ensures |Normalized(f.data, f.width, f.height, f.stride, f.format).value| == 4 * (f.width * f.height)
  {
    RgbaPictureSize(f.data, f.width, f.height, f.stride, f.format);
    PackSize(RgbaPicture(f.data, f.width, f.height, f.stride, f.format), 4);
    AreaBytes(f.width, f.height);
  }

  /** The bytes handed to a codec have the length its dimensions and layout demand. */
  lemma CodecInputSize(target: KnownFormat, settings: Settings, f: EncodeFrame)
    requires Handed(target, settings, [f]).Ok?
    ensures var c := Handed(target, settings, [f]).value;
            && c.width == f.width && c.height == f.height
            && |c.bytes| == (if c.Rgb8? then 3 else 4) * (f.width * f.height)
            && (c.Rgb8? <==> target == Jpeg)
  {
    NormalizedSize(f);
  }

  lemma RgbaPictureSize(data: seq<byte>, width: nat, height: nat, stride: nat, f: MemoryFormat)
    requires Covers(data, width, height, stride, BytesPerPixel(f))
    requires width > 0 && height > 0 ==> Is8Bit(f)
    ensures PixelSize(RgbaPicture(data, width, height, stride, f), 4)
  {
    var v := View(data, width, height, stride, BytesPerPixel(f));
    ViewPixelSize(data, width, height, stride, BytesPerPixel(f));
    forall x, y | 0 <= x < width && 0 <= y < height
      ensures |RgbaPicture(data, width, height, stride, f).At(x, y)| == 4
    {
      assert |v.At(x, y)| == BytesPerPixel(f);
    }
  }

  /** End to end: the codec sees, at each pixel, the sampled colour, composited over white for JPEG. */
  lemma CodecInputPicture(target: KnownFormat, settings: Settings, f: EncodeFrame, x: nat, y: nat)
    requires Handed(target, settings, [f]).Ok? && x < f.width && y < f.height
    ensures var c := Handed(target, settings, [f]).value;
            var bpp := BytesPerPixel(f.format);
            var n := if c.Rgb8? then 3 else 4;
            && Covers(f.data, f.width, f.height, f.stride, bpp)
            && PixelOffset(f.stride, bpp, x, y) + bpp <= |f.data|
            && PixelOffset(Offset(f.width, n), n, x, y) + n <= |c.bytes|
            && var s := Sample(f.format, Pixel(f.data, f.stride, bpp, x, y));
            && s.Some?
            && Pixel(c.bytes, Offset(f.width, n), n, x, y) ==
               var s := s.value;
               if c.Rgb8? then [OverWhite(s.r, s.a), OverWhite(s.g, s.a), OverWhite(s.b, s.a)]
               else [s.r, s.g, s.b, s.a]
  {
    var c := Handed(target, settings, [f]).value;
    var bpp := BytesPerPixel(f.format);
    ViewAt(f.data, f.width, f.height, f.stride, bpp, x, y);
    RgbaPictureSize(f.data, f.width, f.height, f.stride, f.format);
    var g := RgbaPicture(f.data, f.width, f.height, f.stride, f.format);
    var s := Sample(f.format, Pixel(f.data, f.stride, bpp, x, y)).value;
    assert g.At(x, y) == RgbaBytes(s);
    if c.Rgb8? {
      FlattenedPackedPixel(g, x, y);
      FlattenedOne(s);
    } else {
      PackedPixel(g, 4, x, y);
    }
  }

  lemma FlattenedPackedPixel(g: Grid<seq<byte>>, x: nat, y: nat)
    requires g.Valid() && PixelSize(g, 4) && x < g.w && y < g.h
    ensures PixelOffset(Offset(g.w, 3), 3, x, y) + 3 <= |Flattened(Pack(g))|
    ensures Pixel(Flattened(Pack(g)), Offset(g.w, 3), 3, x, y) == Flattened(g.At(x, y))
  {
    FlattenedPicture(g);
    PackedPixel(MapGrid(FlattenedPixel, g), 3, x, y);
  }

  lemma FlattenedOne(s: Rgba)
    ensures Flattened(RgbaBytes(s)) == [OverWhite(s.r, s.a), OverWhite(s.g, s.a), OverWhite(s.b, s.a)]
  {
    var p := RgbaBytes(s);
    assert CompositePrefix(p, 0) == [] && CompositePrefix(p, 1) == Composite(p, 0);
  }
}
