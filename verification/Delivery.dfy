/** Which selection a loaded frame is converted with on its way out of the shim, and what then arrives. */
module Delivery {
  import opened Common
  import opened Formats
  import opened Grids
  import opened Textures
  import opened Convert
  import opened Pipeline
  import opened Layouts

  predicate Rescalable(formatName: string) {
    formatName == "svg"
  }

  /** The selection a load keeps on the image: part of what re-rendering needs, so kept for vector formats only. */
  function Snapshot(formatName: string, selection: Selection): Option<Selection> {
    if Rescalable(formatName) then Some(selection) else None
  }

  /** The selection a frame request converts with. */
  function Accepted(snapshot: Option<Selection>): Selection {
    match snapshot
    case Some(bits) => bits
    case None => 0
  }

  /** The frame a caller gets for texture `t` of an image loaded with `selection`. */
  function Delivered(formatName: string, t: Texture, delayMs: u64, selection: Selection): RawFrame {
    MaybeConvert(FrameOf(t, delayMs), Accepted(Snapshot(formatName, selection)))
  }

  /** What decoders produce: any valid texture, but packed straight RGBA for SVG. */
  ghost predicate AsDecoded(formatName: string, t: Texture) {
    t.Valid() && (formatName == "svg" ==> t.format == R8g8b8a8 && t.Packed())
  }

  /** Acceptance is met by the decoder itself, or by conversion, which only SVG images get. */
  lemma DeliveredAcceptedIff(formatName: string, t: Texture, delayMs: u64, selection: Selection)
    requires AsDecoded(formatName, t) && selection != 0 && ValidSelection(selection)
    ensures Accepts(selection, Delivered(formatName, t, delayMs, selection).format) <==>
            || Accepts(selection, ToConstant(t.format))
            || (formatName == "svg" && exists c :: c in PRIORITY && Accepts(selection, c))
  {
    FrameOfCovers(t, delayMs);
    if formatName == "svg" {
      MaybeConvertReaches(FrameOf(t, delayMs), selection);
    }
  }

  /** Every delivered frame is consistent: no stride is ever cut on the way out. */
  lemma DeliveredWellFormed(formatName: string, t: Texture, delayMs: u64, selection: Selection)
    requires AsDecoded(formatName, t)
    ensures Delivered(formatName, t, delayMs, selection).WellFormed()
  {
    var f := FrameOf(t, delayMs);
    FrameOfCovers(t, delayMs);
    if formatName == "svg" && PickTarget(f.format, selection).Some? {
      var target := PickTarget(f.format, selection).value;
      PriorityIsEmitted(target);
      NarrowerConversionFits(f, target);
    }
  }

  const ONLY_RGBA: Selection := 0x20

  /** A gray PNG reaches a caller that accepts RGBA only, as gray, although it could have been converted. */
  lemma RasterKeepsFormat()
    ensures ValidSelection(ONLY_RGBA) && !Accepts(ONLY_RGBA, FORMAT_G8)
    ensures var t := Texture(1, 1, 1, G8, [0]);
            && AsDecoded("png", t)
            && Delivered("png", t, 0, ONLY_RGBA).format == FORMAT_G8
            && MaybeConvert(FrameOf(t, 0), ONLY_RGBA).format == FORMAT_R8G8B8A8
  {
    var t := Texture(1, 1, 1, G8, [0]);
    FrameOfCovers(t, 0);
    assert Accepts(ONLY_RGBA, FORMAT_R8G8B8A8) && PRIORITY[0] == FORMAT_R8G8B8A8;
    FirstAcceptedIsFirst(PRIORITY, ONLY_RGBA, 0);
    assert PRIORITY[..1] == [FORMAT_R8G8B8A8];
  }

  /** The frame copied out of a texture has its parts, and raster images are delivered as they are. */
  lemma RasterUntouched(formatName: string, t: Texture, delayMs: u64, selection: Selection)
    requires formatName != "svg"
    ensures Delivered(formatName, t, delayMs, selection)
            == RawFrame(t.width, t.height, t.stride, ToConstant(t.format), t.data, delayMs)
  {
  }

  /** An SVG frame is delivered as it is if RGBA is accepted, and else converted to the best accepted format. */
  lemma SvgConverted(t: Texture, delayMs: u64, selection: Selection, i: nat)
    requires AsDecoded("svg", t) && selection != 0 && ValidSelection(selection)
    requires i < |PREFERRED| && Accepts(selection, ToConstant(PREFERRED[i]))
    requires forall j :: 0 <= j < i ==> !Accepts(selection, ToConstant(PREFERRED[j]))
    ensures var f := RawFrame(t.width, t.height, t.stride, ToConstant(t.format), t.data, delayMs);
            && Convertible(f, ToConstant(PREFERRED[i]))
            && Delivered("svg", t, delayMs, selection)
               == if i == 0 then f else Converted(f, ToConstant(PREFERRED[i])).value
  {
    hide Accepts;
    var f := FrameOf(t, delayMs);
    FrameOfCovers(t, delayMs);
    PreferenceOrder(f.format, selection, i);
    PriorityByName();
    assert PRIORITY[i] in PRIORITY;
    PriorityIsEmitted(PRIORITY[i]);
    assert PREFERRED[0] == R8g8b8a8;
  }
}
