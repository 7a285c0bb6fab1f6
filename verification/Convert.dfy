/** The shim's memory-format conversion of decoded frames. */
module Convert {
  import opened Common
  import opened Formats
  import opened Grids
  import opened Colors

  datatype RawFrame = RawFrame(width: u32, height: u32, stride: u32, format: u32, data: seq<byte>, delayMs: u64) {
    /** The shape of every frame an engine texture is copied into. */
    ghost predicate WellFormed() {
      |data| == stride * height && stride >= width * BytesPerPixelNg(format)
    }
  }

  /** Bytes per pixel of a format constant; 0 when it is unknown. */
  function BytesPerPixelNg(c: u32): (n: nat)
    ensures n <= 16
  {
    if c == FORMAT_G8 then 1
    else if c in {FORMAT_G8A8, FORMAT_G8A8_PRE, FORMAT_G16} then 2
    else if c in {FORMAT_R8G8B8, FORMAT_B8G8R8} then 3
    else if c in {FORMAT_R8G8B8A8, FORMAT_R8G8B8A8_PRE, FORMAT_B8G8R8A8, FORMAT_B8G8R8A8_PRE} then 4
    else if c in {FORMAT_A8R8G8B8, FORMAT_A8R8G8B8_PRE, FORMAT_A8B8G8R8, FORMAT_G16A16, FORMAT_G16A16_PRE} then 4
    else if c in {FORMAT_R16G16B16, FORMAT_R16G16B16_F} then 6
    else if c in {FORMAT_R16G16B16A16, FORMAT_R16G16B16A16_PRE, FORMAT_R16G16B16A16_F} then 8
    else if c == FORMAT_R32G32B32_F then 12
    else if c in {FORMAT_R32G32B32A32_F, FORMAT_R32G32B32A32_F_PRE} then 16
    else 0
  }

  /** The constants `Sample` covers. */
  predicate Sampleable(c: u32) {
    c in {FORMAT_G8, FORMAT_G8A8, FORMAT_G8A8_PRE, FORMAT_R8G8B8, FORMAT_B8G8R8,
          FORMAT_R8G8B8A8, FORMAT_R8G8B8A8_PRE, FORMAT_B8G8R8A8, FORMAT_B8G8R8A8_PRE,
          FORMAT_A8R8G8B8, FORMAT_A8R8G8B8_PRE, FORMAT_A8B8G8R8}
  }

  /** The shim's own sampler, keyed by constant. */
  function Sample(c: u32, p: seq<byte>): (r: Option<Rgba>)
    requires |p| == BytesPerPixelNg(c)
    ensures r.Some? <==> Sampleable(c)
  {
    if c == FORMAT_G8 then Some(Rgba(p[0], p[0], p[0], OPAQUE))
    else if c == FORMAT_G8A8 then Some(Rgba(p[0], p[0], p[0], p[1]))
    else if c == FORMAT_G8A8_PRE then var (g, a) := UnpremulG8(p[0], p[1]); Some(Rgba(g, g, g, a))
    else if c == FORMAT_R8G8B8 then Some(Rgba(p[0], p[1], p[2], OPAQUE))
    else if c == FORMAT_B8G8R8 then Some(Rgba(p[2], p[1], p[0], OPAQUE))
    else if c == FORMAT_R8G8B8A8 then Some(Rgba(p[0], p[1], p[2], p[3]))
    else if c == FORMAT_R8G8B8A8_PRE then Some(UnpremulRgb8(p[0], p[1], p[2], p[3]))
    else if c == FORMAT_B8G8R8A8 then Some(Rgba(p[2], p[1], p[0], p[3]))
    else if c == FORMAT_B8G8R8A8_PRE then Some(UnpremulRgb8(p[2], p[1], p[0], p[3]))
    else if c == FORMAT_A8R8G8B8 then Some(Rgba(p[1], p[2], p[3], p[0]))
    else if c == FORMAT_A8R8G8B8_PRE then Some(UnpremulRgb8(p[1], p[2], p[3], p[0]))
    else if c == FORMAT_A8B8G8R8 then Some(Rgba(p[3], p[2], p[1], p[0]))
    else None
  }

  /** The layouts `Emit` writes with their own channel order. */
  predicate EmitTarget(c: u32) {
    c in {FORMAT_R8G8B8A8, FORMAT_B8G8R8A8, FORMAT_A8R8G8B8, FORMAT_A8B8G8R8,
          FORMAT_R8G8B8, FORMAT_B8G8R8, FORMAT_G8A8, FORMAT_G8}
  }

  function Emit(target: u32, c: Rgba): (p: seq<byte>)
    ensures EmitTarget(target) ==> |p| == BytesPerPixelNg(target)
  {
    if target == FORMAT_R8G8B8A8 then [c.r, c.g, c.b, c.a]
    else if target == FORMAT_B8G8R8A8 then [c.b, c.g, c.r, c.a]
    else if target == FORMAT_A8R8G8B8 then [c.a, c.r, c.g, c.b]
    else if target == FORMAT_A8B8G8R8 then [c.a, c.b, c.g, c.r]
    else if target == FORMAT_R8G8B8 then [c.r, c.g, c.b]
    else if target == FORMAT_B8G8R8 then [c.b, c.g, c.r]
    else if target == FORMAT_G8A8 then [Luma(c.r, c.g, c.b), c.a]
    else if target == FORMAT_G8 then [Luma(c.r, c.g, c.b)]
    else [c.r, c.g, c.b, c.a]
  }

  /** One pixel through sampler and emitter; unsampled pixels, which are never reached, count as no bytes. */
  function ConvertedBytes(src: u32, target: u32, p: seq<byte>): seq<byte> {
    if |p| == BytesPerPixelNg(src) && Sample(src, p).Some? then Emit(target, Sample(src, p).value) else []
  }

  function Converter(src: u32, target: u32): seq<byte> -> seq<byte> {
    p => ConvertedBytes(src, target, p)
  }

  /** The picture a frame holds, as raw pixels. */
  function Picture(f: RawFrame): (g: Grid<seq<byte>>)
    requires Covers(f.data, f.width, f.height, f.stride, BytesPerPixelNg(f.format))
    ensures g.Valid() && g.w == f.width && g.h == f.height
  {
    View(f.data, f.width, f.height, f.stride, BytesPerPixelNg(f.format))
  }

  predicate Convertible(f: RawFrame, target: u32) {
    && BytesPerPixelNg(f.format) != 0 && BytesPerPixelNg(target) != 0
    && Covers(f.data, f.width, f.height, f.stride, BytesPerPixelNg(f.format))
    && (f.width > 0 && f.height > 0 ==> Sampleable(f.format))
  }

  /** What `convert_layout` returns. The new stride is cast to 32 bits. */
  function Converted(f: RawFrame, target: u32): Option<RawFrame> {
    if !Convertible(f, target) then None
    else Some(RawFrame(f.width, f.height, TruncateU32(Offset(f.width, BytesPerPixelNg(target))), target,
                       Pack(MapGrid(Converter(f.format, target), Picture(f))), f.delayMs))
  }

  method ConvertLayout(f: RawFrame, target: u32) returns (r: Option<RawFrame>)
    ensures r == Converted(f, target)
  {
    var srcBpp := BytesPerPixelNg(f.format);
    var dstBpp := BytesPerPixelNg(target);
    if srcBpp == 0 || dstBpp == 0 {
      return None;
    }
    var rowBytes := Times(f.width, srcBpp);
    if f.stride < rowBytes {
      return None;
    }
    var dstStride := Times(f.width, dstBpp);
    var out := ConvertRows(f.data, f.width, f.height, f.stride, f.format, target);
    if out.None? {
      return None;
    }
    return Some(RawFrame(f.width, f.height, TruncateU32(dstStride), target, out.value, f.delayMs));
  }

  lemma RowOutOfRange(data: seq<byte>, w: nat, h: nat, stride: nat, bpp: nat, y: nat)
    requires y < h && Offset(y, stride) + Offset(w, bpp) > |data|
    ensures !Covers(data, w, h, stride, bpp)
  {
    if y < h - 1 {
      OffsetStep(y, h - 1, stride);
    }
  }

  /** The outer loop: `None` at the first row outside the data or pixel without a sampler. */
  method ConvertRows(data: seq<byte>, width: nat, height: nat, stride: nat, src: u32, target: u32)
    returns (r: Option<seq<byte>>)
    requires Offset(width, BytesPerPixelNg(src)) <= stride
    ensures r.Some? <==>
            Covers(data, width, height, stride, BytesPerPixelNg(src)) && (width > 0 && height > 0 ==> Sampleable(src))
    ensures r.Some? ==>
              r.value == Pack(MapGrid(Converter(src, target),
                                      View(data, width, height, stride, BytesPerPixelNg(src))))
  {
    var bpp := BytesPerPixelNg(src);
    var rowBytes := Times(width, bpp);
    var out: seq<byte> := [];
    for y := 0 to height
      invariant Covers(data, width, y, stride, bpp)
      invariant out == EmitRows(data, width, stride, bpp, Converter(src, target), y)
      invariant y > 0 && width > 0 ==> Sampleable(src)
    {
      var rowOff := Times(y, stride);
      if rowOff + rowBytes > |data| {
        RowOutOfRange(data, width, height, stride, bpp, y);
        return None;
      }
      var row := ConvertRow(data, stride, y, width, src, target);
      if row.None? {
        return None;
      }
      out := out + row.value;
    }
    EmittedIsPacked(data, width, height, stride, bpp, Converter(src, target));
    return Some(out);
  }

  /** The inner loop, over row `y` of the frame. */
  method ConvertRow(data: seq<byte>, stride: nat, y: nat, width: nat, src: u32, target: u32)
    returns (r: Option<seq<byte>>)
    requires Offset(y, stride) + Offset(width, BytesPerPixelNg(src)) <= |data|
    ensures r == if width == 0 || Sampleable(src)
                 then Some(EmitRow(data, stride, BytesPerPixelNg(src), Converter(src, target), y, width)) else None
  {
    var bpp := BytesPerPixelNg(src);
    var out: seq<byte> := [];
    for x := 0 to width
      invariant Offset(y, stride) + Offset(x, bpp) <= |data|
      invariant out == EmitRow(data, stride, bpp, Converter(src, target), y, x)
      invariant x > 0 ==> Sampleable(src)
    {
      var at := PixelStart(stride, bpp, x, y);
      OffsetStep(x, width, bpp);
      var px := data[at..at + bpp];
      assert px == Pixel(data, stride, bpp, x, y);
      var c := Sample(src, px);
      if c.None? {
        return None;
      }
      out := out + Emit(target, c.value);
    }
    return Some(out);
  }

  // ----- Choosing a target -----

  /** Bits of `GlyMemoryFormatSelection`. */
  type Selection = bv32

  const ALL_FORMATS: Selection := 0x7F_FFFF

  /** Position of a format constant in `GlyMemoryFormat`; unknown constants count as R8G8B8A8. */
  function GlyFormat(c: u32): (n: nat)
    ensures n < 23
  {
    if c == FORMAT_B8G8R8A8_PRE then 0
    else if c == FORMAT_A8R8G8B8_PRE then 1
    else if c == FORMAT_R8G8B8A8_PRE then 2
    else if c == FORMAT_B8G8R8A8 then 3
    else if c == FORMAT_A8R8G8B8 then 4
    else if c == FORMAT_R8G8B8A8 then 5
    else if c == FORMAT_A8B8G8R8 then 6
    else if c == FORMAT_R8G8B8 then 7
    else if c == FORMAT_B8G8R8 then 8
    else if c == FORMAT_R16G16B16 then 9
    else if c == FORMAT_R16G16B16A16_PRE then 10
    else if c == FORMAT_R16G16B16A16 then 11
    else if c == FORMAT_R16G16B16_F then 12
    else if c == FORMAT_R16G16B16A16_F then 13
    else if c == FORMAT_R32G32B32_F then 14
    else if c == FORMAT_R32G32B32A32_F_PRE then 15
    else if c == FORMAT_R32G32B32A32_F then 16
    else if c == FORMAT_G8A8_PRE then 17
    else if c == FORMAT_G8A8 then 18
    else if c == FORMAT_G8 then 19
    else if c == FORMAT_G16A16_PRE then 20
    else if c == FORMAT_G16A16 then 21
    else if c == FORMAT_G16 then 22
    else 5
  }

  /** Only defined bits are set. */
  predicate ValidSelection(bits: Selection) {
    bits & !ALL_FORMATS == 0
  }

  predicate Accepts(sel: Selection, c: u32) {
    sel & ((1 as bv32) << GlyFormat(c)) != 0
  }

  /** The straight-alpha layout of a premultiplied one. */
  function Straight(c: u32): Option<u32> {
    if c == FORMAT_R8G8B8A8_PRE then Some(FORMAT_R8G8B8A8)
    else if c == FORMAT_B8G8R8A8_PRE then Some(FORMAT_B8G8R8A8)
    else if c == FORMAT_A8R8G8B8_PRE then Some(FORMAT_A8R8G8B8)
    else if c == FORMAT_G8A8_PRE then Some(FORMAT_G8A8)
    else if c == FORMAT_G16A16_PRE then Some(FORMAT_G16A16)
    else None
  }

  const PRIORITY: seq<u32> :=
    [FORMAT_R8G8B8A8, FORMAT_B8G8R8A8, FORMAT_A8R8G8B8, FORMAT_R8G8B8, FORMAT_B8G8R8, FORMAT_G8A8, FORMAT_G8]

  function FirstAccepted(cs: seq<u32>, sel: Selection): (r: Option<u32>)
    ensures r.Some? ==> r.value in cs && Accepts(sel, r.value)
    ensures r.None? ==> forall c :: c in cs ==> !Accepts(sel, c)
  {
    if |cs| == 0 then None
    else if Accepts(sel, cs[0]) then Some(cs[0])
    else FirstAccepted(cs[1..], sel)
  }

  function PickTarget(src: u32, sel: Selection): (r: Option<u32>)
    ensures r.Some? ==> Accepts(sel, r.value) && (r.value in PRIORITY || Straight(src) == r)
    ensures r.None? ==> (forall c :: c in PRIORITY ==> !Accepts(sel, c))
                        && (Straight(src).Some? ==> !Accepts(sel, Straight(src).value))
  {
    match Straight(src)
    case Some(s) => FirstAccepted([s] + PRIORITY, sel)
    case None => FirstAccepted(PRIORITY, sel)
  }

  function MaybeConvert(f: RawFrame, bits: Selection): RawFrame {
    if bits == 0 then f
    else if !ValidSelection(bits) then f
    else if Accepts(bits, f.format) then f
    else
      match PickTarget(f.format, bits)
      case None => f
      case Some(target) =>
        match Converted(f, target)
        case Some(g) => g
        case None => f
  }

  // ----- What conversion promises -----

  lemma ConvertedPixelSize(f: RawFrame, target: u32)
    requires Convertible(f, target) && EmitTarget(target)
    ensures PixelSize(MapGrid(Converter(f.format, target), Picture(f)), BytesPerPixelNg(target))
  {
    var v := Picture(f);
    ViewPixelSize(f.data, f.width, f.height, f.stride, BytesPerPixelNg(f.format));
    var g := MapGrid(Converter(f.format, target), v);
    forall x, y | 0 <= x < f.width && 0 <= y < f.height
      ensures |g.At(x, y)| == BytesPerPixelNg(target)
    {
      assert |v.At(x, y)| == BytesPerPixelNg(f.format);
    }
  }

  /** Converted bytes always fill `width * bpp` by `height`; the frame says so exactly when that stride fits 32 bits. */
  lemma ConvertedWellFormedIff(f: RawFrame, target: u32)
    requires Convertible(f, target) && EmitTarget(target)
    ensures var g := Converted(f, target).value;
            && |g.data| == f.height * (f.width * BytesPerPixelNg(target))
            && (g.WellFormed() <==> f.width * BytesPerPixelNg(target) < TWO_32)
  {
    var n := BytesPerPixelNg(target);
    ConvertedPixelSize(f, target);
    PackSize(MapGrid(Converter(f.format, target), Picture(f)), n);
    OffsetIsProduct(f.width, n);
    OffsetIsProduct(f.height, f.width * n);
  }

  /** The new stride fits whenever pixels do not grow, as from the RGBA frames of SVG images to any target. */
  lemma NarrowerConversionFits(f: RawFrame, target: u32)
    requires f.WellFormed() && Sampleable(f.format) && EmitTarget(target)
    requires BytesPerPixelNg(target) <= BytesPerPixelNg(f.format)
    ensures Convertible(f, target) && Converted(f, target).value.WellFormed()
  {
    WellFormedCovers(f);
    ConvertedWellFormedIff(f, target);
    RowGrows(f.width, BytesPerPixelNg(target), BytesPerPixelNg(f.format));
  }

  lemma RowGrows(w: nat, m: nat, n: nat)
    requires m <= n
    ensures w * m <= w * n
  {
  }

  /**
   Growing pixels can lose the stride: as RGBA, a one-row gray frame of 2^30 pixels reports stride 0. This is
   about the function alone; the shim only converts SVG frames (`Delivery.DeliveredWellFormed`).
   */
  lemma StrideCanTruncate(data: seq<byte>)
    requires |data| == 0x4000_0000
    ensures var f := RawFrame(0x4000_0000, 1, 0x4000_0000, FORMAT_G8, data, 0);
            && f.WellFormed() && Convertible(f, FORMAT_R8G8B8A8)
            && Converted(f, FORMAT_R8G8B8A8).value.stride == 0
            && !Converted(f, FORMAT_R8G8B8A8).value.WellFormed()
  {
    var f := RawFrame(0x4000_0000, 1, 0x4000_0000, FORMAT_G8, data, 0);
    OffsetIsProduct(0x4000_0000, 1);
    OffsetIsProduct(0x4000_0000, 4);
    ConvertedWellFormedIff(f, FORMAT_R8G8B8A8);
  }

  lemma WellFormedCovers(f: RawFrame)
    requires f.WellFormed()
    ensures Covers(f.data, f.width, f.height, f.stride, BytesPerPixelNg(f.format))
  {
    StrideCovers(f.data, f.width, f.height, f.stride, BytesPerPixelNg(f.format));
  }

  /** Bytes between rows, and the stride itself, never reach the converted frame. */
  lemma PaddingNeverConverted(f: RawFrame, g: RawFrame, target: u32)
    requires Convertible(f, target) && Convertible(g, target)
    requires f.format == g.format && f.width == g.width && f.height == g.height && f.delayMs == g.delayMs
    requires forall x, y :: 0 <= x < f.width && 0 <= y < f.height ==> Picture(f).At(x, y) == Picture(g).At(x, y)
    ensures Converted(f, target) == Converted(g, target)
  {
    SameGrid(Picture(f), Picture(g));
  }

  /** Any conversion stays inside the caller's selection; dimensions and delay are kept. */
  lemma MaybeConvertSafe(f: RawFrame, bits: Selection)
    ensures var r := MaybeConvert(f, bits);
            r == f || (bits != 0 && ValidSelection(bits) && Accepts(bits, r.format)
                       && r.width == f.width && r.height == f.height && r.delayMs == f.delayMs)
  {
  }

  /** The chosen target of a sampleable layout is one the emitter writes. */
  lemma TargetIsEmitted(src: u32, bits: Selection)
    requires Sampleable(src) && PickTarget(src, bits).Some?
    ensures var target := PickTarget(src, bits).value;
            target in PRIORITY && EmitTarget(target) && BytesPerPixelNg(target) != 0
  {
    var target := PickTarget(src, bits).value;
    if Straight(src) == Some(target) {
      StraightInPriority(src);
    }
    PriorityIsEmitted(target);
  }

  lemma TargetHasSize(src: u32, bits: Selection)
    requires PickTarget(src, bits).Some?
    ensures BytesPerPixelNg(PickTarget(src, bits).value) != 0
  {
    if Straight(src) != PickTarget(src, bits) {
      PriorityIsEmitted(PickTarget(src, bits).value);
    }
  }

  /**
   An accepted format is reached exactly when the frame has one, or a target is accepted and the frame can be
   converted: its layout is known and, if there is any pixel, sampleable. For sampleable layouts that is when some
   priority format is accepted.
   */
  lemma MaybeConvertReaches(f: RawFrame, bits: Selection)
    requires f.WellFormed() && bits != 0 && ValidSelection(bits)
    ensures Accepts(bits, MaybeConvert(f, bits).format) <==>
            || Accepts(bits, f.format)
            || (PickTarget(f.format, bits).Some? && BytesPerPixelNg(f.format) != 0
                && (f.width > 0 && f.height > 0 ==> Sampleable(f.format)))
    ensures Sampleable(f.format) ==>
              var r := MaybeConvert(f, bits);
              && (Accepts(bits, r.format) <==>
                  Accepts(bits, f.format) || exists c :: c in PRIORITY && Accepts(bits, c))
              && (r.WellFormed() <==> r == f || f.width * BytesPerPixelNg(r.format) < TWO_32)
  {
    if !Accepts(bits, f.format) && PickTarget(f.format, bits).Some? {
      TargetHasSize(f.format, bits);
      WellFormedCovers(f);
      if Sampleable(f.format) {
        ReachesPriority(f, bits);
      }
    }
  }

  lemma ReachesPriority(f: RawFrame, bits: Selection)
    requires f.WellFormed() && Sampleable(f.format) && bits != 0 && ValidSelection(bits)
    requires !Accepts(bits, f.format) && PickTarget(f.format, bits).Some?
    ensures var target := PickTarget(f.format, bits).value;
            var r := MaybeConvert(f, bits);
            && target in PRIORITY && r.format == target
            && (r.WellFormed() <==> f.width * BytesPerPixelNg(target) < TWO_32)
  {
    var target := PickTarget(f.format, bits).value;
    TargetIsEmitted(f.format, bits);
    WellFormedCovers(f);
    assert MaybeConvert(f, bits) == Converted(f, target).value;
    ConvertedWellFormedIff(f, target);
  }

  /** Earlier candidates win: nothing before the chosen one is accepted. */
  lemma {:induction false} FirstAcceptedIsFirst(cs: seq<u32>, sel: Selection, i: nat)
    requires i < |cs| && Accepts(sel, cs[i])
    ensures FirstAccepted(cs, sel).Some? && FirstAccepted(cs, sel).value in cs[..i + 1]
  {
    if !Accepts(sel, cs[0]) {
      FirstAcceptedIsFirst(cs[1..], sel, i - 1);
      assert cs[..i + 1] == [cs[0]] + cs[1..][..i];
    } else {
      assert cs[..i + 1][0] == cs[0];
    }
  }

  /** The straight layout of a premultiplied source wins whenever it is accepted. */
  lemma PrefersStraight(src: u32, sel: Selection)
    requires Straight(src).Some? && Accepts(sel, Straight(src).value)
    ensures PickTarget(src, sel) == Straight(src)
  {
    FirstAcceptedIsFirst([Straight(src).value] + PRIORITY, sel, 0);
  }

  /** A premultiplied RGBA frame comes out as straight RGBA if the selection has that and not its own layout. */
  lemma PremultipliedFrameConverted(f: RawFrame, bits: Selection)
    requires f.WellFormed() && f.format == FORMAT_R8G8B8A8_PRE && ValidSelection(bits)
    requires Accepts(bits, FORMAT_R8G8B8A8) && !Accepts(bits, FORMAT_R8G8B8A8_PRE)
    ensures Convertible(f, FORMAT_R8G8B8A8)
    ensures MaybeConvert(f, bits) == Converted(f, FORMAT_R8G8B8A8).value
  {
    WellFormedCovers(f);
    PrefersStraight(f.format, bits);
  }

  lemma StraightInPriority(c: u32)
    requires Sampleable(c) && Straight(c).Some?
    ensures Straight(c).value in PRIORITY
  {
    assert PRIORITY[0] == FORMAT_R8G8B8A8 && PRIORITY[1] == FORMAT_B8G8R8A8;
    assert PRIORITY[2] == FORMAT_A8R8G8B8 && PRIORITY[5] == FORMAT_G8A8;
  }

  lemma PriorityIsEmitted(c: u32)
    requires c in PRIORITY
    ensures EmitTarget(c) && BytesPerPixelNg(c) != 0
  {
  }

  lemma MaybeConvertIdempotent(f: RawFrame, bits: Selection)
    ensures MaybeConvert(MaybeConvert(f, bits), bits) == MaybeConvert(f, bits)
  {
    MaybeConvertSafe(f, bits);
  }
}
