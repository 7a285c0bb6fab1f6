/** Format detection from leading bytes. */
module Sniff {
  import opened Common

  datatype KnownFormat = Png | Jpeg | Gif | WebP | Tiff | Bmp | Ico | Tga | Qoi | Exr | Pnm | Dds | Jxl | Svg

  const PROBE_BYTES: nat := 512
  const SVG_OPEN: seq<byte> := [0x3C, 0x73, 0x76, 0x67]
  const XML_OPEN: seq<byte> := [0x3C, 0x3F, 0x78, 0x6D, 0x6C]
  const BOM: seq<byte> := [0xEF, 0xBB, 0xBF]

  predicate StartsWith(b: seq<byte>, prefix: seq<byte>) {
    |b| >= |prefix| && b[..|prefix|] == prefix
  }

  predicate IsSpace(c: byte) {
    c in {0x20, 0x09, 0x0D, 0x0A}
  }

  predicate IsPnm(b: seq<byte>) {
    |b| >= 3 && b[0] == 0x50 && 0x31 <= b[1] <= 0x37 && IsSpace(b[2])
  }

  // ----- SVG -----

  function StripSpace(b: seq<byte>): seq<byte> {
    if |b| > 0 && IsSpace(b[0]) then StripSpace(b[1..]) else b
  }

  predicate StartsWithSvgTag(b: seq<byte>) {
    StartsWith(b, SVG_OPEN) && |b| > 4 && (IsSpace(b[4]) || b[4] == 0x3E || b[4] == 0x2F)
  }

  predicate HasSvgTag(b: seq<byte>) {
    |b| >= |SVG_OPEN| && (StartsWithSvgTag(b) || HasSvgTag(b[1..]))
  }

  function Probe(b: seq<byte>): seq<byte> {
    if |b| <= PROBE_BYTES then b else b[..PROBE_BYTES]
  }

  function StripBom(b: seq<byte>): seq<byte> {
    if StartsWith(b, BOM) then b[|BOM|..] else b
  }

  predicate IsSvgText(b: seq<byte>) {
    if StartsWith(b, XML_OPEN) then HasSvgTag(b) else StartsWithSvgTag(b)
  }

  predicate LooksLikeSvg(b: seq<byte>) {
    IsSvgText(StripSpace(StripBom(Probe(b))))
  }

  method StripLeadingWhitespace(b: seq<byte>) returns (r: seq<byte>)
    ensures r == StripSpace(b)
  {
    var i := 0;
    assert b[0..] == b;
    while i < |b| && IsSpace(b[i])
      invariant i <= |b| && StripSpace(b) == StripSpace(b[i..])
    {
      assert b[i..][1..] == b[i + 1..];
      i := i + 1;
    }
    return b[i..];
  }

  method FindSvgOpenTag(haystack: seq<byte>) returns (found: bool)
    ensures found == HasSvgTag(haystack)
  {
    if |haystack| < |SVG_OPEN| {
      return false;
    }
    assert haystack[0..] == haystack;
    for i := 0 to |haystack| - |SVG_OPEN| + 1
      invariant HasSvgTag(haystack) == HasSvgTag(haystack[i..])
    {
      assert haystack[i..][1..] == haystack[i + 1..];
      if haystack[i..i + |SVG_OPEN|] == SVG_OPEN && StartsWithSvgTag(haystack[i..]) {
        return true;
      }
    }
    return false;
  }

  method CheckSvg(b: seq<byte>) returns (r: bool)
    ensures r == LooksLikeSvg(b)
  {
    var probe := StripLeadingWhitespace(StripBom(Probe(b)));
    if StartsWith(probe, XML_OPEN) {
      r := FindSvgOpenTag(probe);
    } else {
      r := StartsWithSvgTag(probe);
    }
  }

  // ----- Signatures -----

  /** The test `detect` makes for each format; TGA has no signature. */
  predicate Matches(b: seq<byte>, f: KnownFormat) {
    match f
    case Png => StartsWith(b, [0x89, 0x50, 0x4E, 0x47, 0x0D, 0x0A, 0x1A, 0x0A])
    case Jpeg => StartsWith(b, [0xFF, 0xD8, 0xFF])
    case Gif =>
      || StartsWith(b, [0x47, 0x49, 0x46, 0x38, 0x37, 0x61])
      || StartsWith(b, [0x47, 0x49, 0x46, 0x38, 0x39, 0x61])
    case WebP => |b| >= 12 && b[0..4] == [0x52, 0x49, 0x46, 0x46] && b[8..12] == [0x57, 0x45, 0x42, 0x50]
    case Tiff => StartsWith(b, [0x49, 0x49, 0x2A, 0]) || StartsWith(b, [0x4D, 0x4D, 0, 0x2A])
    case Bmp => StartsWith(b, [0x42, 0x4D]) && |b| >= 14
    case Ico => StartsWith(b, [0, 0, 1, 0]) || StartsWith(b, [0, 0, 2, 0])
    case Tga => false
    case Qoi => StartsWith(b, [0x71, 0x6F, 0x69, 0x66])
    case Exr => StartsWith(b, [0x76, 0x2F, 0x31, 0x01])
    case Pnm => IsPnm(b)
    case Dds => StartsWith(b, [0x44, 0x44, 0x53, 0x20])
    case Jxl => StartsWith(b, [0xFF, 0x0A])
                || StartsWith(b, [0, 0, 0, 0x0C, 0x4A, 0x58, 0x4C, 0x20, 0x0D, 0x0A, 0x87, 0x0A])
    case Svg => LooksLikeSvg(b)
  }

  /** The order of the tests in `detect`. */
  const TEST_ORDER: seq<KnownFormat> := [Png, Jpeg, Gif, WebP, Tiff, Bmp, Ico, Qoi, Exr, Pnm, Dds, Jxl, Svg]

  function FirstMatch(b: seq<byte>, order: seq<KnownFormat>): Option<KnownFormat> {
    if |order| == 0 then None
    else if Matches(b, order[0]) then Some(order[0])
    else FirstMatch(b, order[1..])
  }

  function Detected(b: seq<byte>): Option<KnownFormat> {
    FirstMatch(b, TEST_ORDER)
  }

  // ----- Signatures exclude each other -----

  /** The only format whose signature can begin with these bytes. */
  function Lead(b: seq<byte>): KnownFormat
    requires |b| >= 2
  {
    if b[0] == 0x89 then Png
    else if b[0] == 0xFF then (if b[1] == 0xD8 then Jpeg else Jxl)
    else if b[0] == 0x47 then Gif
    else if b[0] == 0x52 then WebP
    else if b[0] == 0x49 || b[0] == 0x4D then Tiff
    else if b[0] == 0x42 then Bmp
    else if b[0] == 0 then (if |b| > 2 && b[2] == 0 then Jxl else Ico)
    else if b[0] == 0x71 then Qoi
    else if b[0] == 0x76 then Exr
    else if b[0] == 0x50 then Pnm
    else if b[0] == 0x44 then Dds
    else Svg
  }

  lemma PrefixBytes(b: seq<byte>, prefix: seq<byte>, i: nat)
    requires StartsWith(b, prefix) && i < |prefix|
    ensures b[i] == prefix[i]
  {
    assert b[..|prefix|][i] == b[i];
  }

  lemma {:induction false} SvgTextLength(b: seq<byte>)
    ensures HasSvgTag(b) ==> |b| >= 5
  {
    if |b| >= 4 {
      SvgTextLength(b[1..]);
    }
  }

  lemma {:induction false} StripSpaceShape(b: seq<byte>)
    ensures |StripSpace(b)| <= |b|
    ensures StripSpace(b) == b || (|b| > 0 && IsSpace(b[0]))
  {
    if |b| > 0 && IsSpace(b[0]) {
      StripSpaceShape(b[1..]);
    }
  }

  lemma SvgLead(b: seq<byte>)
    requires LooksLikeSvg(b)
    ensures |b| >= 5 && Lead(b) == Svg
  {
    var p := Probe(b);
    var q := StripBom(p);
    var r := StripSpace(q);
    StripSpaceShape(q);
    SvgTextLength(r);
    assert p[0] == b[0];
    if StartsWith(p, BOM) {
      PrefixBytes(p, BOM, 0);
    } else if r == q {
      if StartsWith(r, XML_OPEN) {
        PrefixBytes(r, XML_OPEN, 0);
      } else {
        PrefixBytes(r, SVG_OPEN, 0);
      }
    }
  }

  lemma MagicLead(b: seq<byte>, f: KnownFormat)
    requires Matches(b, f)
    ensures |b| >= 2 && Lead(b) == f
  {
    match f
    case Svg => SvgLead(b);
    case Ico => assert b[2] == b[..4][2];
    case Jxl =>
      if b[0] != 0xFF {
        assert b[2] == b[..12][2];
      }
    case Jpeg => assert b[1] == b[..3][1];
    case WebP => assert b[0] == b[0..4][0];
    case _ =>
  }

  lemma SignaturesExclusive(b: seq<byte>, f: KnownFormat, g: KnownFormat)
    requires Matches(b, f) && Matches(b, g)
    ensures f == g
  {
    MagicLead(b, f);
    MagicLead(b, g);
  }

  lemma {:induction false} FirstMatchFinds(b: seq<byte>, order: seq<KnownFormat>)
    ensures FirstMatch(b, order).Some? ==> FirstMatch(b, order).value in order && Matches(b, FirstMatch(b, order).value)
    ensures FirstMatch(b, order).None? ==> forall f :: f in order ==> !Matches(b, f)
  {
    if |order| != 0 {
      FirstMatchFinds(b, order[1..]);
      assert order == [order[0]] + order[1..];
    }
  }

  /** Any order of the tests gives the same answer. */
  lemma OrderIrrelevant(b: seq<byte>, order: seq<KnownFormat>)
    requires forall f :: f in order <==> f in TEST_ORDER
    ensures FirstMatch(b, order) == Detected(b)
  {
    FirstMatchFinds(b, order);
    FirstMatchFinds(b, TEST_ORDER);
    if FirstMatch(b, order).Some? && Detected(b).Some? {
      SignaturesExclusive(b, FirstMatch(b, order).value, Detected(b).value);
    }
  }

  lemma InTestOrder(f: KnownFormat)
    ensures f in TEST_ORDER <==> f != Tga
  {
    assert TEST_ORDER[0] == Png && TEST_ORDER[1] == Jpeg && TEST_ORDER[2] == Gif && TEST_ORDER[3] == WebP;
    assert TEST_ORDER[4] == Tiff && TEST_ORDER[5] == Bmp && TEST_ORDER[6] == Ico && TEST_ORDER[7] == Qoi;
    assert TEST_ORDER[8] == Exr && TEST_ORDER[9] == Pnm && TEST_ORDER[10] == Dds && TEST_ORDER[11] == Jxl;
    assert TEST_ORDER[12] == Svg;
  }

  /** `detect` reports a format exactly when its signature is there. */
  lemma DetectIff(b: seq<byte>, f: KnownFormat)
    ensures Detected(b) == Some(f) <==> Matches(b, f)
  {
    FirstMatchFinds(b, TEST_ORDER);
    InTestOrder(f);
    if Matches(b, f) && Detected(b).Some? {
      SignaturesExclusive(b, f, Detected(b).value);
    }
  }

  /** The chain of tests, in the program's order. */
  method Detect(b: seq<byte>) returns (r: Option<KnownFormat>)
    ensures r == Detected(b)
  {
    forall f: KnownFormat
      ensures Detected(b) == Some(f) <==> Matches(b, f)
    {
      DetectIff(b, f);
    }
    hide Matches, Detected;
    if Matches(b, Png) {
      return Some(Png);
    }
    if Matches(b, Jpeg) {
      return Some(Jpeg);
    }
    if Matches(b, Gif) {
      return Some(Gif);
    }
    if Matches(b, WebP) {
      return Some(WebP);
    }
    if Matches(b, Tiff) {
      return Some(Tiff);
    }
    if Matches(b, Bmp) {
      return Some(Bmp);
    }
    if Matches(b, Ico) {
      return Some(Ico);
    }
    if Matches(b, Qoi) {
      return Some(Qoi);
    }
    if Matches(b, Exr) {
      return Some(Exr);
    }
    if Matches(b, Pnm) {
      return Some(Pnm);
    }
    if Matches(b, Dds) {
      return Some(Dds);
    }
    if Matches(b, Jxl) {
      return Some(Jxl);
    }
    var svg := CheckSvg(b);
    if svg {
      return Some(Svg);
    }
    return None;
  }

  // ----- Extension and the probe window -----

  lemma {:induction false} StripSpaceExtends(b: seq<byte>, s: seq<byte>)
    requires |StripSpace(b)| > 0
    ensures StripSpace(b + s) == StripSpace(b) + s
  {
    if |b| > 0 && IsSpace(b[0]) {
      assert (b + s)[1..] == b[1..] + s;
      StripSpaceExtends(b[1..], s);
    }
  }

  lemma StartsWithExtends(b: seq<byte>, s: seq<byte>, prefix: seq<byte>)
    requires |b| >= |prefix|
    ensures StartsWith(b + s, prefix) == StartsWith(b, prefix)
  {
    assert (b + s)[..|prefix|] == b[..|prefix|];
  }

  lemma {:induction false} HasSvgTagExtends(b: seq<byte>, s: seq<byte>)
    requires HasSvgTag(b)
    ensures HasSvgTag(b + s)
  {
    StartsWithExtends(b, s, SVG_OPEN);
    if !StartsWithSvgTag(b) {
      assert (b + s)[1..] == b[1..] + s;
      HasSvgTagExtends(b[1..], s);
    }
  }

  lemma SvgTextExtends(b: seq<byte>, s: seq<byte>)
    requires IsSvgText(b)
    ensures IsSvgText(b + s)
  {
    SvgTextLength(b);
    StartsWithExtends(b, s, XML_OPEN);
    StartsWithExtends(b, s, SVG_OPEN);
    if StartsWith(b, XML_OPEN) {
      HasSvgTagExtends(b, s);
    }
  }

  lemma SvgExtends(b: seq<byte>, s: seq<byte>)
    requires LooksLikeSvg(b)
    ensures LooksLikeSvg(b + s)
  {
    var p := Probe(b);
    var more := Probe(b + s)[|p|..];
    assert Probe(b + s) == p + more;
    StripSpaceShape(StripBom(p));
    SvgTextLength(StripSpace(StripBom(p)));
    assert |p| >= 3;
    StartsWithExtends(p, more, BOM);
    assert StripBom(p + more) == StripBom(p) + more;
    StripSpaceExtends(StripBom(p), more);
    SvgTextExtends(StripSpace(StripBom(p)), more);
  }

  lemma MatchesExtends(b: seq<byte>, s: seq<byte>, f: KnownFormat)
    requires Matches(b, f)
    ensures Matches(b + s, f)
  {
    match f
    case Svg => SvgExtends(b, s);
    case WebP => assert (b + s)[0..4] == b[0..4] && (b + s)[8..12] == b[8..12];
    case Gif => assert (b + s)[..6] == b[..6];
    case Tiff => assert (b + s)[..4] == b[..4];
    case Ico => assert (b + s)[..4] == b[..4];
    case Jxl =>
      assert (b + s)[..2] == b[..2];
      if |b| >= 12 {
        assert (b + s)[..12] == b[..12];
      }
    case Png => assert (b + s)[..8] == b[..8];
    case Jpeg => assert (b + s)[..3] == b[..3];
    case Bmp => assert (b + s)[..2] == b[..2];
    case _ => assert |b| >= 4 ==> (b + s)[..4] == b[..4];
  }

  /** More bytes never change a verdict that was reached. */
  lemma DetectExtends(b: seq<byte>, s: seq<byte>, f: KnownFormat)
    requires Detected(b) == Some(f)
    ensures Detected(b + s) == Some(f)
  {
    DetectIff(b, f);
    MatchesExtends(b, s, f);
    DetectIff(b + s, f);
  }

  lemma MatchesInProbe(b: seq<byte>, f: KnownFormat)
    requires |b| > PROBE_BYTES && Matches(b, f)
    ensures Matches(b[..PROBE_BYTES], f)
  {
    var p := b[..PROBE_BYTES];
    match f
    case WebP => assert p[0..4] == b[0..4] && p[8..12] == b[8..12];
    case Gif => assert p[..6] == b[..6];
    case Jxl => assert p[..2] == b[..2] && p[..12] == b[..12];
    case Png => assert p[..8] == b[..8];
    case Jpeg => assert p[..3] == b[..3];
    case Bmp => assert p[..2] == b[..2];
    case Svg =>
    case _ => assert p[..4] == b[..4];
  }

  /** Only the first 512 bytes matter. */
  lemma DetectUsesProbe(b: seq<byte>)
    requires |b| > PROBE_BYTES
    ensures Detected(b) == Detected(b[..PROBE_BYTES])
  {
    var p := b[..PROBE_BYTES];
    assert b == p + b[PROBE_BYTES..];
    if Detected(p).Some? {
      DetectExtends(p, b[PROBE_BYTES..], Detected(p).value);
    } else if Detected(b).Some? {
      DetectIff(b, Detected(b).value);
      MatchesInProbe(b, Detected(b).value);
      DetectIff(p, Detected(b).value);
    }
  }

  // ----- Signatures in characters -----

  /** The characters of `s` stand at `at`. */
  predicate TextAt(b: seq<byte>, at: nat, s: string) {
    at + |s| <= |b| && forall k :: 0 <= k < |s| ==> b[at + k] as int == s[k] as int
  }

  predicate BlankByte(c: byte) {
    c == 32 || c == 9 || c == 13 || c == 10
  }

  /** The signature of each format but SVG, as its specification writes it. */
  predicate Signature(b: seq<byte>, f: KnownFormat) {
    match f
    case Png => |b| >= 8 && b[0] == 137 && TextAt(b, 1, "PNG\r\n") && b[6] == 26 && b[7] == 10
    case Jpeg => |b| >= 3 && b[0] == 255 && b[1] == 216 && b[2] == 255
    case Gif => TextAt(b, 0, "GIF87a") || TextAt(b, 0, "GIF89a")
    case WebP => TextAt(b, 0, "RIFF") && TextAt(b, 8, "WEBP")
    case Tiff => TextAt(b, 0, "II*\0") || TextAt(b, 0, "MM\0*")
    case Bmp => TextAt(b, 0, "BM") && |b| >= 14
    case Ico => |b| >= 4 && b[0] == b[1] == b[3] == 0 && (b[2] == 1 || b[2] == 2)
    case Qoi => TextAt(b, 0, "qoif")
    case Exr => |b| >= 4 && b[0] == 118 && b[1] == 47 && b[2] == 49 && b[3] == 1
    case Pnm => |b| >= 3 && b[0] as int == 'P' as int && '1' as int <= b[1] as int <= '7' as int && BlankByte(b[2])
    case Dds => TextAt(b, 0, "DDS ")
    case Jxl =>
      || (|b| >= 2 && b[0] == 255 && b[1] == 10)
      || (|b| >= 12 && b[0] == b[1] == b[2] == 0 && b[3] == 12
          && TextAt(b, 4, "JXL \r\n") && b[10] == 135 && b[11] == 10)
    case _ => false
  }

  lemma StartsWithIff(b: seq<byte>, prefix: seq<byte>)
    ensures StartsWith(b, prefix) <==> |prefix| <= |b| && forall k :: 0 <= k < |prefix| ==> b[k] == prefix[k]
  {
    if |prefix| <= |b| && forall k :: 0 <= k < |prefix| ==> b[k] == prefix[k] {
      assert b[..|prefix|] == prefix;
    }
    if StartsWith(b, prefix) {
      forall k | 0 <= k < |prefix|
        ensures b[k] == prefix[k]
      {
        assert b[..|prefix|][k] == b[k];
      }
    }
  }

  lemma TextIff(b: seq<byte>, at: nat, s: string, prefix: seq<byte>)
    requires |s| == |prefix| && forall k :: 0 <= k < |s| ==> prefix[k] as int == s[k] as int
    ensures TextAt(b, at, s) <==> at <= |b| && StartsWith(b[at..], prefix)
  {
    if at <= |b| {
      StartsWithIff(b[at..], prefix);
      if StartsWith(b[at..], prefix) {
        forall k | 0 <= k < |s|
          ensures b[at + k] as int == s[k] as int
        {
          assert b[at..][k] == prefix[k];
        }
      }
      if TextAt(b, at, s) {
        forall k | 0 <= k < |prefix|
          ensures b[at..][k] == prefix[k]
        {
          assert b[at + k] as int == s[k] as int;
        }
      }
    }
  }

  lemma TextAtStart(b: seq<byte>, s: string, prefix: seq<byte>)
    requires |s| == |prefix| && forall k :: 0 <= k < |s| ==> prefix[k] as int == s[k] as int
    ensures TextAt(b, 0, s) <==> StartsWith(b, prefix)
  {
    TextIff(b, 0, s, prefix);
    assert b[0..] == b;
  }

  lemma PngSignature(b: seq<byte>)
    ensures Matches(b, Png) <==> Signature(b, Png)
  {
    hide StartsWith, TextAt;
    StartsWithIff(b, [0x89, 0x50, 0x4E, 0x47, 0x0D, 0x0A, 0x1A, 0x0A]);
    if |b| >= 8 {
      TextIff(b, 1, "PNG\r\n", [0x50, 0x4E, 0x47, 0x0D, 0x0A]);
      StartsWithIff(b[1..], [0x50, 0x4E, 0x47, 0x0D, 0x0A]);
    }
  }

  lemma JxlSignature(b: seq<byte>)
    ensures Matches(b, Jxl) <==> Signature(b, Jxl)
  {
    hide StartsWith, TextAt;
    StartsWithIff(b, [0xFF, 0x0A]);
    StartsWithIff(b, [0, 0, 0, 0x0C, 0x4A, 0x58, 0x4C, 0x20, 0x0D, 0x0A, 0x87, 0x0A]);
    if |b| >= 12 {
      TextIff(b, 4, "JXL \r\n", [0x4A, 0x58, 0x4C, 0x20, 0x0D, 0x0A]);
      StartsWithIff(b[4..], [0x4A, 0x58, 0x4C, 0x20, 0x0D, 0x0A]);
    }
  }

  /** Each format but SVG is reported exactly on its signature. */
  lemma SignatureIff(b: seq<byte>, f: KnownFormat)
    requires f != Svg
    ensures Detected(b) == Some(f) <==> Signature(b, f)
  {
    hide Detected;
    DetectIff(b, f);
    match f
    case Png => PngSignature(b);
    case Jpeg => StartsWithIff(b, [0xFF, 0xD8, 0xFF]);
    case Gif =>
      TextAtStart(b, "GIF87a", [0x47, 0x49, 0x46, 0x38, 0x37, 0x61]);
      TextAtStart(b, "GIF89a", [0x47, 0x49, 0x46, 0x38, 0x39, 0x61]);
    case WebP =>
      if |b| >= 12 {
        TextAtStart(b, "RIFF", [0x52, 0x49, 0x46, 0x46]);
        TextIff(b, 8, "WEBP", [0x57, 0x45, 0x42, 0x50]);
        assert b[8..][..4] == b[8..12] && b[..4] == b[0..4];
      }
    case Tiff =>
      TextAtStart(b, "II*\0", [0x49, 0x49, 0x2A, 0]);
      TextAtStart(b, "MM\0*", [0x4D, 0x4D, 0, 0x2A]);
    case Bmp => TextAtStart(b, "BM", [0x42, 0x4D]);
    case Ico =>
      StartsWithIff(b, [0, 0, 1, 0]);
      StartsWithIff(b, [0, 0, 2, 0]);
    case Qoi => TextAtStart(b, "qoif", [0x71, 0x6F, 0x69, 0x66]);
    case Exr => StartsWithIff(b, [0x76, 0x2F, 0x31, 0x01]);
    case Dds => TextAtStart(b, "DDS ", [0x44, 0x44, 0x53, 0x20]);
    case Jxl =>
      JxlSignature(b);
    case _ =>
  }

  // ----- SVG in characters -----

  /** An opening `<svg` tag at `j`. */
  predicate SvgTagAt(b: seq<byte>, j: nat) {
    && TextAt(b, j, "<svg") && j + 4 < |b|
    && (BlankByte(b[j + 4]) || b[j + 4] as int == '>' as int || b[j + 4] as int == '/' as int)
  }

  /**
   Text that starts at `i`, behind a byte order mark, if any, and blanks: an `<svg` tag, or an XML declaration with
   an `<svg` tag somewhere after it.
   */
  ghost predicate SvgFrom(b: seq<byte>, i: nat) {
    var start := if |b| >= 3 && b[0] == 239 && b[1] == 187 && b[2] == 191 then 3 else 0;
    && start <= i < |b| && (forall k :: start <= k < i ==> BlankByte(b[k])) && !BlankByte(b[i])
    && if TextAt(b, i, "<?xml") then exists j :: i <= j && SvgTagAt(b, j) else SvgTagAt(b, i)
  }

  lemma {:induction false} StripSpaceFrom(b: seq<byte>, at: nat) returns (i: nat)
    requires at <= |b|
    ensures at <= i <= |b| && StripSpace(b[at..]) == b[i..]
    ensures (forall k :: at <= k < i ==> BlankByte(b[k])) && (i < |b| ==> !BlankByte(b[i]))
    decreases |b| - at
  {
    i := at;
    if at < |b| && BlankByte(b[at]) {
      assert b[at..][1..] == b[at + 1..];
      i := StripSpaceFrom(b, at + 1);
    }
  }

  lemma SvgTagIff(b: seq<byte>, j: nat)
    requires j <= |b|
    ensures StartsWithSvgTag(b[j..]) <==> SvgTagAt(b, j)
  {
    hide StartsWith, TextAt;
    TextIff(b, j, "<svg", SVG_OPEN);
  }

  lemma {:induction false} HasSvgTagIff(b: seq<byte>, i: nat)
    requires i <= |b|
    ensures HasSvgTag(b[i..]) <==> exists j :: i <= j && SvgTagAt(b, j)
    decreases |b| - i
  {
    hide StartsWithSvgTag, SvgTagAt;
    SvgTagIff(b, i);
    if i < |b| {
      assert b[i..][1..] == b[i + 1..];
      HasSvgTagIff(b, i + 1);
    }
    SvgTagFits(b);
  }

  lemma SvgTagFits(b: seq<byte>)
    ensures forall j: nat :: SvgTagAt(b, j) ==> j + 4 < |b|
  {
  }

  /** Within the first 512 bytes `b` of a file: what makes it SVG. */
  lemma ProbedSvgIff(b: seq<byte>)
    requires |b| <= 512
    ensures LooksLikeSvg(b) <==> exists i :: SvgFrom(b, i)
  {
    hide StartsWith, StartsWithSvgTag, SvgTagAt, HasSvgTag, StripSpace, TextAt;
    StartsWithIff(b, BOM);
    var start := if |b| >= 3 && b[0] == 239 && b[1] == 187 && b[2] == 191 then 3 else 0;
    assert StripBom(Probe(b)) == b[start..];
    var i := StripSpaceFrom(b, start);
    TextIff(b, i, "<?xml", XML_OPEN);
    SvgTagIff(b, i);
    HasSvgTagIff(b, i);
    SvgTagFits(b);
    assert LooksLikeSvg(b) <==> i < |b| && SvgFrom(b, i) by {
      XmlFits(b, i);
    }
    if k: nat :| SvgFrom(b, k) {
      assert k == i;
    }
  }

  lemma XmlFits(b: seq<byte>, i: nat)
    ensures TextAt(b, i, "<?xml") ==> i + 4 < |b|
  {
  }

  /** The first 512 bytes. */
  function Head(b: seq<byte>): seq<byte> {
    if |b| > 512 then b[..512] else b
  }

  /** A file is reported as SVG exactly when its first 512 bytes are SVG text. */
  lemma SvgIff(b: seq<byte>)
    ensures Detected(b) == Some(Svg) <==> exists i :: SvgFrom(Head(b), i)
  {
    hide Detected, SvgFrom;
    DetectIff(b, Svg);
    ProbedSvgIff(Head(b));
    assert Probe(Head(b)) == Probe(b);
  }
}
