/**
 What the names of the pixel layouts promise. A layout's name lists its channels in memory order and their width;
 samplers, emitters, sizes and target choice are held against that reading here, byte by byte.
 */
module Layouts {
  import opened Common
  import opened Formats
  import opened Grids
  import opened Colors
  import opened Convert
  import opened Pipeline
  import Encoder

  /** The channels in memory order; `Y` is gray. */
  function Channels(m: MemoryFormat): string {
    match m
    case G8 | G16 => "Y"
    case G8a8 | G8a8Premultiplied | G16a16 | G16a16Premultiplied => "YA"
    case R8g8b8 | R16g16b16 | R16g16b16Float | R32g32b32Float => "RGB"
    case R8g8b8a8 | R8g8b8a8Premultiplied | R16g16b16a16 | R16g16b16a16Premultiplied => "RGBA"
    case R16g16b16a16Float | R32g32b32a32Float | R32g32b32a32FloatPremultiplied => "RGBA"
    case B8g8r8 => "BGR"
    case B8g8r8a8 | B8g8r8a8Premultiplied => "BGRA"
    case A8r8g8b8 | A8r8g8b8Premultiplied => "ARGB"
    case A8b8g8r8 => "ABGR"
  }

  /** Bytes of one channel. */
  function ChannelBytes(m: MemoryFormat): nat {
    match m
    case G8 | G8a8 | G8a8Premultiplied | R8g8b8 | B8g8r8 => 1
    case R8g8b8a8 | R8g8b8a8Premultiplied | B8g8r8a8 | B8g8r8a8Premultiplied => 1
    case A8r8g8b8 | A8r8g8b8Premultiplied | A8b8g8r8 => 1
    case R32g32b32Float | R32g32b32a32Float | R32g32b32a32FloatPremultiplied => 4
    case _ => 2
  }

  predicate IsPremultiplied(m: MemoryFormat) {
    m in {G8a8Premultiplied, G16a16Premultiplied, R8g8b8a8Premultiplied, B8g8r8a8Premultiplied,
          A8r8g8b8Premultiplied, R16g16b16a16Premultiplied, R32g32b32a32FloatPremultiplied}
  }

  lemma SizeByName(m: MemoryFormat)
    ensures BytesPerPixel(m) == |Channels(m)| * ChannelBytes(m)
    ensures Is8Bit(m) <==> ChannelBytes(m) == 1
  {
  }

  /** The values of the C header. */
  lemma HeaderConstants()
    ensures ToConstant(G8) == 1 && ToConstant(G8a8) == 2 && ToConstant(G8a8Premultiplied) == 3
    ensures ToConstant(G16) == 4 && ToConstant(G16a16) == 5 && ToConstant(G16a16Premultiplied) == 6
    ensures ToConstant(R8g8b8) == 10 && ToConstant(R8g8b8a8) == 11 && ToConstant(R8g8b8a8Premultiplied) == 12
    ensures ToConstant(B8g8r8) == 13 && ToConstant(B8g8r8a8) == 14 && ToConstant(B8g8r8a8Premultiplied) == 15
    ensures ToConstant(A8r8g8b8) == 16 && ToConstant(A8r8g8b8Premultiplied) == 17 && ToConstant(A8b8g8r8) == 18
  {
  }

  lemma WideConstants()
    ensures ToConstant(R16g16b16) == 20 && ToConstant(R16g16b16a16) == 21
    ensures ToConstant(R16g16b16a16Premultiplied) == 22
    ensures ToConstant(R16g16b16Float) == 23 && ToConstant(R16g16b16a16Float) == 24
    ensures ToConstant(R32g32b32Float) == 25 && ToConstant(R32g32b32a32Float) == 26
    ensures ToConstant(R32g32b32a32FloatPremultiplied) == 27
  {
  }

  /** No other constant stands for a layout; frames and targets with one are never converted. */
  lemma UnknownConstants(c: u32, f: RawFrame)
    requires forall m: MemoryFormat :: ToConstant(m) != c
    ensures FromConstant(c) == None && Converted(f, c) == None
    ensures f.format == c ==> forall target :: Converted(f, target) == None
  {
    if FromConstant(c).Some? {
      FromConstantIsInverse(c);
    }
    KnownSize(c);
  }

  lemma FromConstantIsInverse(c: u32)
    requires FromConstant(c).Some?
    ensures ToConstant(FromConstant(c).value) == c
  {
  }

  lemma KnownSize(c: u32)
    ensures BytesPerPixelNg(c) != 0 ==> FromConstant(c).Some?
  {
  }

  // ----- Sampling -----

  /** Byte `b` carries channel `ch` of `c` as it is. */
  predicate Carries(ch: char, b: byte, c: Rgba) {
    match ch
    case 'R' => b == c.r
    case 'G' => b == c.g
    case 'B' => b == c.b
    case 'A' => b == c.a
    case _ => b == c.r == c.g == c.b
  }

  /** `u` is the straight value of channel byte `b` under alpha `a`: rounded down, and clamped where `b` exceeds `a`. */
  predicate StraightOf(u: byte, b: byte, a: byte) {
    if a == 0 then u == 0
    else if b >= a then u == 255
    else u as int * a <= 255 * b as int < (u as int + 1) * a
  }

  predicate CarriesPremultiplied(ch: char, b: byte, c: Rgba) {
    match ch
    case 'R' => StraightOf(c.r, b, c.a)
    case 'G' => StraightOf(c.g, b, c.a)
    case 'B' => StraightOf(c.b, b, c.a)
    case 'A' => b == c.a
    case _ => c.r == c.g == c.b && StraightOf(c.r, b, c.a)
  }

  /** Pixel `p` of layout `m` shows colour `c`. */
  predicate Shows(m: MemoryFormat, p: seq<byte>, c: Rgba) {
    && |p| == |Channels(m)|
    && (forall i :: 0 <= i < |p| ==>
          if IsPremultiplied(m) then CarriesPremultiplied(Channels(m)[i], p[i], c)
          else Carries(Channels(m)[i], p[i], c))
    && ('A' in Channels(m) || c.a == 255)
  }

  lemma StraightOfChannel(c: byte, a: byte)
    requires a > 0
    ensures StraightOf(UnpremulChannel(c, a), c, a)
  {
    if c < a {
      UnpremulExact(c, a);
    } else {
      ProductsOrdered(a as int, c as int, 255);
      LargestQuotient(c as int * 255 / a, 255, a, c as int * 255);
    }
  }

  /** Sampling shows the colour the name describes: channels in the listed order, straight, opaque without alpha. */
  lemma SampleByName(m: MemoryFormat, p: seq<byte>)
    requires |p| == BytesPerPixel(m) && ChannelBytes(m) == 1
    ensures Encoder.Sample(m, p).Some? && Shows(m, p, Encoder.Sample(m, p).value)
  {
    hide StraightOf, UnpremulChannel;
    match m
    case G8a8Premultiplied =>
      if p[1] > 0 {
        StraightOfChannel(p[0], p[1]);
      } else {
        NothingShows(p[0]);
      }
    case R8g8b8a8Premultiplied | B8g8r8a8Premultiplied => StraightColor(p, 3);
    case A8r8g8b8Premultiplied => StraightColor(p, 0);
    case _ =>
  }

  lemma NothingShows(b: byte)
    ensures StraightOf(0, b, 0)
  {
  }

  lemma StraightColor(p: seq<byte>, a: nat)
    requires a < |p|
    ensures forall i :: 0 <= i < |p| ==>
              StraightOf(if p[a] == 0 then 0 else UnpremulChannel(p[i], p[a]), p[i], p[a])
  {
    hide StraightOf, UnpremulChannel;
    forall i | 0 <= i < |p|
      ensures StraightOf(if p[a] == 0 then 0 else UnpremulChannel(p[i], p[a]), p[i], p[a])
    {
      if p[a] == 0 {
        NothingShows(p[i]);
      } else {
        StraightOfChannel(p[i], p[a]);
      }
    }
  }

  // ----- Emitting -----

  /** `y` is the luma of `c`: 30 parts red, 59 green, 11 blue, rounded down. */
  predicate LumaOf(y: byte, c: Rgba) {
    100 * y as int <= 30 * c.r as int + 59 * c.g as int + 11 * c.b as int < 100 * y as int + 100
  }

  predicate Holds(ch: char, b: byte, c: Rgba) {
    match ch
    case 'R' => b == c.r
    case 'G' => b == c.g
    case 'B' => b == c.b
    case 'A' => b == c.a
    case _ => LumaOf(b, c)
  }

  predicate HoldsAll(m: MemoryFormat, p: seq<byte>, c: Rgba) {
    |p| == |Channels(m)| && forall i :: 0 <= i < |p| ==> Holds(Channels(m)[i], p[i], c)
  }

  /** Emitting writes the channels the name lists, in that order; gray is luma. */
  lemma EmitByName(m: MemoryFormat, c: Rgba)
    requires EmitTarget(ToConstant(m))
    ensures HoldsAll(m, Emit(ToConstant(m), c), c)
  {
    match m case _ =>
  }

  /** An RGBA pixel as gray, byte for byte. */
  lemma GrayOfRgba(p: seq<byte>)
    requires |p| == 4
    ensures var q := ConvertedBytes(11, 1, p);
            && |q| == 1
            && 100 * q[0] as int <= 30 * p[0] as int + 59 * p[1] as int + 11 * p[2] as int < 100 * q[0] as int + 100
    ensures var q := ConvertedBytes(11, 2, p);
            && |q| == 2 && q[1] == p[3]
            && 100 * q[0] as int <= 30 * p[0] as int + 59 * p[1] as int + 11 * p[2] as int < 100 * q[0] as int + 100
  {
  }

  // ----- Whole frames -----

  /**
   Every pixel of a converted frame: `c` is the colour the source bytes show, and the target bytes hold it, both by
   the names of the layouts.
   */
  lemma ConvertedPixel(f: RawFrame, source: MemoryFormat, target: MemoryFormat, x: nat, y: nat) returns (c: Rgba)
    requires f.format == ToConstant(source) && EmitTarget(ToConstant(target))
    requires Convertible(f, ToConstant(target)) && x < f.width && y < f.height
    ensures var g, m, n := Converted(f, ToConstant(target)).value, |Channels(source)|, |Channels(target)|;
            && g.width == f.width && g.height == f.height && g.format == ToConstant(target) && g.delayMs == f.delayMs
            && Shows(source, BytesAt(f.data, y * f.stride + x * m, m), c)
            && HoldsAll(target, BytesAt(g.data, y * (f.width * n) + x * n, n), c)
  {
    hide Shows, HoldsAll, Channels, BytesAt, Convertible, Converted, BytesPerPixel, Picture, ConvertedBytes;
    SizeByName(source);
    SizeByName(target);
    var p := SourceBytes(f, source, ToConstant(target), x, y);
    TargetBytes(f, target, x, y, p);
    c := ColorByName(source, target, p);
  }

  lemma SourceBytes(f: RawFrame, source: MemoryFormat, target: u32, x: nat, y: nat) returns (p: seq<byte>)
    requires f.format == ToConstant(source) && Convertible(f, target) && x < f.width && y < f.height
    ensures ChannelBytes(source) == 1 && |p| == BytesPerPixel(source) && p == Picture(f).At(x, y)
    ensures p == BytesAt(f.data, y * f.stride + x * BytesPerPixel(source), BytesPerPixel(source))
  {
    hide BytesAt;
    ConstantsAgree(source);
    SizeByName(source);
    ViewBytes(f.data, f.width, f.height, f.stride, BytesPerPixel(source), x, y);
    p := Picture(f).At(x, y);
  }

  lemma TargetBytes(f: RawFrame, target: MemoryFormat, x: nat, y: nat, p: seq<byte>)
    requires EmitTarget(ToConstant(target)) && Convertible(f, ToConstant(target)) && x < f.width && y < f.height
    requires p == Picture(f).At(x, y)
    ensures var g, n := Converted(f, ToConstant(target)).value, BytesPerPixel(target);
            && g.width == f.width && g.height == f.height && g.format == ToConstant(target) && g.delayMs == f.delayMs
            && BytesAt(g.data, y * (f.width * n) + x * n, n) == ConvertedBytes(f.format, ToConstant(target), p)
            && ChannelBytes(target) == 1
  {
    hide BytesAt, Pack, Picture, ConvertedBytes;
    ConstantsAgree(target);
    TargetSize(target);
    ConvertedPixelSize(f, ToConstant(target));
    PackBytes(MapGrid(Converter(f.format, ToConstant(target)), Picture(f)), BytesPerPixel(target), x, y);
  }

  /** One pixel, from name to name. */
  lemma ColorByName(source: MemoryFormat, target: MemoryFormat, p: seq<byte>) returns (c: Rgba)
    requires |p| == BytesPerPixel(source) && ChannelBytes(source) == 1 && EmitTarget(ToConstant(target))
    ensures Shows(source, p, c) && HoldsAll(target, ConvertedBytes(ToConstant(source), ToConstant(target), p), c)
  {
    hide Shows, Convert.Sample, Encoder.Sample, Emit, Channels;
    ConstantsAgree(source);
    SampleByName(source, p);
    SamplersAgree(source, p);
    c := Encoder.Sample(source, p).value;
    EmitByName(target, c);
  }

  lemma TargetSize(m: MemoryFormat)
    requires EmitTarget(ToConstant(m))
    ensures ChannelBytes(m) == 1
  {
    match m case _ =>
  }

  // ----- Choosing a target -----

  /** The flags of `GlyMemoryFormatSelection`, from bit 0 up. */
  const FLAGS: seq<MemoryFormat> :=
    [B8g8r8a8Premultiplied, A8r8g8b8Premultiplied, R8g8b8a8Premultiplied, B8g8r8a8, A8r8g8b8, R8g8b8a8, A8b8g8r8,
     R8g8b8, B8g8r8, R16g16b16, R16g16b16a16Premultiplied, R16g16b16a16, R16g16b16Float, R16g16b16a16Float,
     R32g32b32Float, R32g32b32a32FloatPremultiplied, R32g32b32a32Float, G8a8Premultiplied, G8a8, G8,
     G16a16Premultiplied, G16a16, G16]

  lemma FlagPosition(m: MemoryFormat)
    ensures GlyFormat(ToConstant(m)) < |FLAGS| && FLAGS[GlyFormat(ToConstant(m))] == m
  {
    match m case _ =>
  }

  /** Accepting a format is having its flag set; every format has one. */
  lemma FlagAccepts(sel: Selection, m: MemoryFormat) returns (i: nat)
    ensures i < |FLAGS| && FLAGS[i] == m
    ensures Accepts(sel, ToConstant(m)) <==> HasFlag(sel, i)
  {
    hide Accepts, HasFlag;
    FlagPosition(m);
    i := GlyFormat(ToConstant(m));
    AcceptsFlag(sel, ToConstant(m));
  }

  predicate HasFlag(sel: Selection, i: nat) {
    i < 32 && sel & ((1 as bv32) << i) != 0
  }

  lemma AcceptsFlag(sel: Selection, c: u32)
    ensures Accepts(sel, c) <==> HasFlag(sel, GlyFormat(c))
  {
    hide GlyFormat;
  }

  /** Constants the header does not define count as RGBA. */
  lemma UnknownCountsAsRgba(sel: Selection, c: u32)
    requires FromConstant(c).None?
    ensures Accepts(sel, c) <==> Accepts(sel, 11)
  {
    hide Accepts;
    AcceptsFlag(sel, c);
    AcceptsFlag(sel, 11);
    assert GlyFormat(c) == GlyFormat(11);
  }

  /** A selection with a bit beyond the 23 flags is ignored, and so is an empty one. */
  lemma UndefinedBitsIgnored(f: RawFrame, sel: Selection)
    requires sel == 0 || sel >= 0x80_0000
    ensures MaybeConvert(f, sel) == f
  {
    if sel != 0 {
      HighBits(sel);
    }
  }

  lemma HighBits(sel: Selection)
    ensures ValidSelection(sel) <==> sel < 0x80_0000
  {
  }

  /** The formats conversion falls back on, best first. */
  const PREFERRED: seq<MemoryFormat> := [R8g8b8a8, B8g8r8a8, A8r8g8b8, R8g8b8, B8g8r8, G8a8, G8]

  /** A target is chosen in that order, once the straight form of a premultiplied source is not accepted. */
  lemma PreferenceOrder(src: u32, sel: Selection, i: nat)
    requires Straight(src).None? || !Accepts(sel, Straight(src).value)
    requires i < |PREFERRED| && Accepts(sel, ToConstant(PREFERRED[i]))
    requires forall j :: 0 <= j < i ==> !Accepts(sel, ToConstant(PREFERRED[j]))
    ensures PickTarget(src, sel) == Some(ToConstant(PREFERRED[i]))
  {
    hide Accepts;
    PriorityByName();
    FirstAcceptedExactly(PRIORITY, sel, i);
    if Straight(src).Some? {
      assert ([Straight(src).value] + PRIORITY)[1..] == PRIORITY;
    }
  }

  lemma PriorityByName()
    ensures |PRIORITY| == |PREFERRED|
    ensures forall j :: 0 <= j < |PRIORITY| ==> PRIORITY[j] == ToConstant(PREFERRED[j])
  {
  }

  lemma {:induction false} FirstAcceptedExactly(cs: seq<u32>, sel: Selection, i: nat)
    requires i < |cs| && Accepts(sel, cs[i]) && forall j :: 0 <= j < i ==> !Accepts(sel, cs[j])
    ensures FirstAccepted(cs, sel) == Some(cs[i])
  {
    hide Accepts;
    if i > 0 {
      FirstAcceptedExactly(cs[1..], sel, i - 1);
    }
  }

  /** The straight form lists the same channels in the same width; 8-bit premultiplied layouts all have one. */
  lemma StraightByName(m: MemoryFormat)
    ensures Straight(ToConstant(m)).Some? <==>
            IsPremultiplied(m) && (ChannelBytes(m) == 1 || (ChannelBytes(m) == 2 && |Channels(m)| == 2))
    ensures Straight(ToConstant(m)).Some? ==>
              exists s :: && Straight(ToConstant(m)).value == ToConstant(s) && !IsPremultiplied(s)
                          && Channels(s) == Channels(m) && ChannelBytes(s) == ChannelBytes(m)
  {
    match m
    case G8a8Premultiplied => assert Channels(G8a8) == "YA";
    case G16a16Premultiplied => assert Channels(G16a16) == "YA";
    case R8g8b8a8Premultiplied => assert Channels(R8g8b8a8) == "RGBA";
    case B8g8r8a8Premultiplied => assert Channels(B8g8r8a8) == "BGRA";
    case A8r8g8b8Premultiplied => assert Channels(A8r8g8b8) == "ARGB";
    case _ =>
  }
}
