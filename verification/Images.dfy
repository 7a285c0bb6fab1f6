/** Decoded images and the pass that applies their EXIF orientation in place. */
module Images {
  import opened Common
  import opened Formats
  import opened Grids
  import opened Orientations
  import opened Textures
  import Exif

  /** A texture and its animation delay, if it is part of an animation. */
  datatype Frame = Frame(texture: Texture, delay: Option<Duration>)

  /** What an `Image` holds, as a value; fields the orientation pass never touches are left out. */
  datatype ImageValue = ImageValue(
    width: u32,
    height: u32,
    orientation: Orientation,
    exif: Option<seq<byte>>,
    frames: seq<Frame>)
  {
    ghost predicate Valid() {
      forall f :: f in frames ==> f.texture.Valid()
    }

    /** The reported dimensions are those of every frame. */
    ghost predicate Uniform() {
      forall f :: f in frames ==> f.texture.width == width && f.texture.height == height
    }
  }

  /** The orientation the EXIF blob asks for. */
  function Requested(v: ImageValue): Orientation {
    if v.exif.None? || Exif.Parse(v.exif.value).None? then Normal
    else FromExif(Exif.Parse(v.exif.value).value)
  }

  /** All frames baked, or `None` if some frame makes the bake panic. */
  function BakedFrames(frames: seq<Frame>, o: Orientation): (r: Option<seq<Frame>>)
    requires forall f :: f in frames ==> f.texture.Valid()
    ensures r.Some? <==> forall i :: 0 <= i < |frames| ==> Transformed(frames[i].texture, o).Some?
    ensures r.Some? ==>
              && |r.value| == |frames|
              && forall i :: 0 <= i < |frames| ==>
                               r.value[i] == Frame(Transformed(frames[i].texture, o).value, frames[i].delay)
  {
    if |frames| == 0 then Some([])
    else
      var last := frames[|frames| - 1];
      assert frames == frames[..|frames| - 1] + [last];
      var init := BakedFrames(frames[..|frames| - 1], o);
      var t := Transformed(last.texture, o);
      if init.None? || t.None? then None else Some(init.value + [Frame(t.value, last.delay)])
  }

  /** The image after the pass; `None` is a panic. */
  function Applied(v: ImageValue, apply: bool): (r: Option<ImageValue>)
    requires v.Valid()
  {
    var o := Requested(v);
    if o == Normal then Some(v)
    else if !apply then Some(v.(orientation := o))
    else
      var frames := BakedFrames(v.frames, o);
      if frames.None? then None
      else Some(v.(width := OutWidth(o, v.width, v.height), height := OutHeight(o, v.width, v.height),
                   orientation := Normal, frames := frames.value))
  }

  lemma BakedPush(frames: seq<Frame>, i: nat, o: Orientation)
    requires i < |frames| && forall f :: f in frames ==> f.texture.Valid()
    ensures frames[i].texture.Valid()
    ensures var init := BakedFrames(frames[..i], o);
            var t := Transformed(frames[i].texture, o);
            BakedFrames(frames[..i + 1], o)
            == if init.None? || t.None? then None else Some(init.value + [Frame(t.value, frames[i].delay)])
    ensures Transformed(frames[i].texture, o).None? ==> BakedFrames(frames, o).None?
  {
    assert frames[..i + 1][..i] == frames[..i];
    assert frames[i] in frames;
  }

  /** The mapping over the frames; stops where a frame's transform panics. */
  method BakeAll(frames: seq<Frame>, o: Orientation) returns (r: Option<seq<Frame>>)
    requires forall f :: f in frames ==> f.texture.Valid()
    ensures r == BakedFrames(frames, o)
  {
    var newFrames: seq<Frame> := [];
    for i := 0 to |frames|
      invariant BakedFrames(frames[..i], o) == Some(newFrames)
    {
      BakedPush(frames, i, o);
      var t := TransformTexture(frames[i].texture, o);
      if t.None? {
        return None;
      }
      newFrames := newFrames + [Frame(t.value, frames[i].delay)];
    }
    assert frames[..|frames|] == frames;
    return Some(newFrames);
  }

  class Image {
    var width: u32
    var height: u32
    var orientation: Orientation
    var exif: Option<seq<byte>>
    var frames: seq<Frame>

    function Value(): ImageValue
      reads this
    {
      ImageValue(width, height, orientation, exif, frames)
    }

    constructor FromParts(width: u32, height: u32, frames: seq<Frame>)
      ensures Value() == ImageValue(width, height, Normal, None, frames)
    {
      this.width, this.height, this.frames := width, height, frames;
      orientation, exif := Normal, None;
    }

    method SetOrientation(o: Orientation)
      modifies this
      ensures Value() == old(Value()).(orientation := o)
    {
      orientation := o;
    }

    method SetExif(blob: seq<byte>)
      modifies this
      ensures Value() == old(Value()).(exif := Some(blob))
    {
      exif := Some(blob);
    }

    method ReplaceFrames(frames: seq<Frame>, width: u32, height: u32)
      modifies this
      ensures Value() == old(Value()).(frames := frames, width := width, height := height)
    {
      this.frames := frames;
      this.width := width;
      this.height := height;
    }

    /** Returns false where the source panics; the image is then as it was. */
    method BakeIntoFrames(o: Orientation) returns (ok: bool)
      requires Value().Valid()
      modifies this
      ensures o == Normal ==> ok && Value() == old(Value())
      ensures o != Normal ==> ok == BakedFrames(old(frames), o).Some?
      ensures o != Normal && ok ==>
                Value() == old(Value()).(frames := BakedFrames(old(frames), o).value,
                                         width := OutWidth(o, old(width), old(height)),
                                         height := OutHeight(o, old(width), old(height)))
      ensures !ok ==> Value() == old(Value())
    {
      if o == Normal {
        return true;
      }
      var newFrames := BakeAll(frames, o);
      if newFrames.None? {
        return false;
      }
      var newW := if SwapsAxes(o) then height else width;
      var newH := if SwapsAxes(o) then width else height;
      ReplaceFrames(newFrames.value, newW, newH);
      return true;
    }

    method ApplyOrientationIfPresent(apply: bool) returns (ok: bool)
      requires Value().Valid()
      modifies this
      ensures ok == Applied(old(Value()), apply).Some?
      ensures Value() == if ok then Applied(old(Value()), apply).value else old(Value())
    {
      if exif.None? {
        return true;
      }
      var raw := Exif.ParseOrientation(exif.value);
      if raw.None? {
        return true;
      }
      var o := FromExif(raw.value);
      if o == Normal {
        return true;
      }
      if !apply {
        SetOrientation(o);
        return true;
      }
      ok := BakeIntoFrames(o);
      if ok {
        SetOrientation(Normal);
      }
    }
  }

  // ----- What the pass promises -----

  /** Baking an image turns every frame's picture by the requested orientation and keeps its delay. */
  lemma AppliedPictures(v: ImageValue, i: nat)
    requires v.Valid() && i < |v.frames| && Applied(v, true).Some?
    ensures var r := Applied(v, true).value;
            && r.Valid() && |r.frames| == |v.frames|
            && r.frames[i].delay == v.frames[i].delay
            && r.frames[i].texture.Pixels() == Orient(Requested(v), v.frames[i].texture.Pixels())
  {
    var o := Requested(v);
    var r := Applied(v, true).value;
    forall j | 0 <= j < |v.frames|
      ensures r.frames[j].texture.Valid()
      ensures r.frames[j].texture.Pixels() == Orient(o, v.frames[j].texture.Pixels())
    {
      assert v.frames[j].texture.Valid();
      if o == Normal {
        OrientNormal(v.frames[j].texture.Pixels());
      } else {
        TransformPanicsIff(v.frames[j].texture, o);
        TransformedPicture(v.frames[j].texture, o);
      }
    }
  }

  /** The bake panics exactly on a frame too tall for a packed row of the swapped picture. */
  lemma AppliedPanicsIff(v: ImageValue)
    requires v.Valid()
    ensures Applied(v, true).None? <==>
            && SwapsAxes(Requested(v))
            && exists f :: f in v.frames && f.texture.height * BytesPerPixel(f.texture.format) >= TWO_32
  {
    forall f | f in v.frames
      ensures Transformed(f.texture, Requested(v)).None? <==>
              SwapsAxes(Requested(v)) && f.texture.height * BytesPerPixel(f.texture.format) >= TWO_32
    {
      TransformPanicsIff(f.texture, Requested(v));
    }
  }

  /** Images within the default height limit of 32768 never panic. */
  lemma DefaultLimitsNeverPanic(v: ImageValue)
    requires v.Valid() && forall f :: f in v.frames ==> f.texture.height <= 32768
    ensures Applied(v, true).Some?
  {
    forall i | 0 <= i < |v.frames|
      ensures v.frames[i] in v.frames && Transformed(v.frames[i].texture, Requested(v)).Some?
    {
      DefaultHeightNeverPanics(v.frames[i].texture, Requested(v));
    }
  }

  lemma AppliedStaysUniform(v: ImageValue)
    requires v.Valid() && v.Uniform() && Applied(v, true).Some?
    ensures Applied(v, true).value.Uniform()
  {
    if Requested(v) != Normal {
      var r := Applied(v, true).value;
      forall i | 0 <= i < |r.frames|
        ensures r.frames[i].texture.width == r.width && r.frames[i].texture.height == r.height
      {
        assert v.frames[i] in v.frames;
        TransformPanicsIff(v.frames[i].texture, Requested(v));
        TransformedPicture(v.frames[i].texture, Requested(v));
      }
    }
  }

  // ----- By tag value -----

  /** The orientation tag of the EXIF blob, if there is a blob and a tag in it. */
  function Tag(v: ImageValue): Option<u16> {
    if v.exif.None? then None else Exif.Parse(v.exif.value)
  }

  /** Without a tag nothing happens; reporting changes the orientation field alone, to what the tag means. */
  lemma ReportsTag(v: ImageValue)
    requires v.Valid() && v.orientation == Normal
    ensures Tag(v).None? ==> Applied(v, true) == Applied(v, false) == Some(v)
    ensures Applied(v, false).Some? && Applied(v, false).value == v.(orientation := Applied(v, false).value.orientation)
    ensures Tag(v).Some? ==> Means(Tag(v).value, Applied(v, false).value.orientation)
  {
    hide Means;
    if Tag(v).Some? {
      TagMeansOrientation(Tag(v).value, FromExif(Tag(v).value));
    }
  }

  /** Baking reports `Normal`, keeps the blob, and swaps the dimensions for the tags 5 to 8. */
  lemma BakesTag(v: ImageValue)
    requires v.Valid() && v.orientation == Normal && Applied(v, true).Some?
    ensures var r := Applied(v, true).value;
            && r.orientation == Normal && r.exif == v.exif && |r.frames| == |v.frames|
            && (r.width, r.height) ==
               if Tag(v).Some? && 5 <= Tag(v).value <= 8 then (v.height, v.width) else (v.width, v.height)
  {
  }

  /** The bake does to every picture exactly what the report says is still to be done. */
  lemma ReportAndBakeAgree(v: ImageValue, i: nat)
    requires v.Valid() && v.orientation == Normal && i < |v.frames| && Applied(v, true).Some?
    ensures Applied(v, false).Some? && Applied(v, true).value.Valid() && |Applied(v, true).value.frames| == |v.frames|
    ensures var baked, o := Applied(v, true).value.frames[i], Applied(v, false).value.orientation;
            && baked.delay == v.frames[i].delay
            && baked.texture.Pixels() == Orient(o, v.frames[i].texture.Pixels())
  {
    AppliedPictures(v, i);
  }

  /** From tag to pixels: the pixel stored at (x, y) is shown x and y away from the sides the tag names. */
  lemma BakedByTag(v: ImageValue, i: nat, x: nat, y: nat) returns (dx: nat, dy: nat)
    requires v.Valid() && v.orientation == Normal && i < |v.frames| && Applied(v, true).Some? && Tag(v).Some?
    requires x < v.frames[i].texture.width && y < v.frames[i].texture.height
    ensures Applied(v, true).value.Valid() && |Applied(v, true).value.frames| == |v.frames|
    ensures var g, r := v.frames[i].texture.Pixels(), Applied(v, true).value.frames[i].texture.Pixels();
            && (r.w, r.h) == (if 5 <= Tag(v).value <= 8 then (g.h, g.w) else (g.w, g.h)) && dx < r.w && dy < r.h
            && Distance(StoredOrigin(Tag(v).value).0, dx, dy, r.w, r.h) == y
            && Distance(StoredOrigin(Tag(v).value).1, dx, dy, r.w, r.h) == x
            && r.At(dx, dy) == g.At(x, y)
  {
    var g := v.frames[i].texture.Pixels();
    AppliedPictures(v, i);
    var o := FromExif(Tag(v).value);
    TagMeansOrientation(Tag(v).value, o);
    OrientAt(o, g, x, y);
    dx := MappedCoord(o, x, y, g.w, g.h).0;
    dy := MappedCoord(o, x, y, g.w, g.h).1;
  }

  // ----- Repetition -----

  /** `n` passes over the same image. */
  function AppliedTimes(v: ImageValue, n: nat): (r: Option<ImageValue>)
    requires v.Valid()
    ensures r.Some? ==> r.value.Valid()
    decreases n
  {
    if n == 0 then Some(v)
    else
      match AppliedTimes(v, n - 1)
      case None => None
      case Some(u) =>
        AppliedValid(u);
        Applied(u, true)
  }

  lemma AppliedValid(v: ImageValue)
    requires v.Valid()
    ensures Applied(v, true).Some? ==> Applied(v, true).value.Valid()
  {
    if Applied(v, true).Some? && |v.frames| > 0 {
      AppliedPictures(v, 0);
    }
  }

  function Power(o: Orientation, n: nat): Orientation
    decreases n
  {
    if n == 0 then Normal else Compose(Power(o, n - 1), o)
  }

  /** `r` has kept the request of `v`, and its `i`-th picture is that of `v` turned by `p`. */
  ghost predicate Shows(r: ImageValue, v: ImageValue, i: nat, p: Orientation)
    requires v.Valid() && r.Valid() && i < |v.frames|
  {
    && |r.frames| == |v.frames| && r.exif == v.exif
    && r.frames[i].texture.Pixels() == Orient(p, v.frames[i].texture.Pixels())
  }

  lemma ShowsItself(v: ImageValue, i: nat)
    requires v.Valid() && i < |v.frames|
    ensures Shows(AppliedTimes(v, 0).value, v, i, Power(Requested(v), 0))
  {
    OrientNormal(v.frames[i].texture.Pixels());
  }

  /** One more pass turns the picture once more. */
  lemma ShowsAfterPass(u: ImageValue, r: ImageValue, v: ImageValue, i: nat, p: Orientation)
    requires v.Valid() && u.Valid() && i < |v.frames| && Shows(u, v, i, p)
    requires Applied(u, true) == Some(r)
    ensures r.Valid() && Shows(r, v, i, Compose(p, Requested(v)))
  {
    AppliedPictures(u, i);
    assert v.frames[i] in v.frames;
    OrientCompose(p, Requested(v), v.frames[i].texture.Pixels());
  }

  lemma ShowsNextPass(v: ImageValue, n: nat, i: nat)
    requires v.Valid() && i < |v.frames| && n > 0 && AppliedTimes(v, n).Some? && AppliedTimes(v, n - 1).Some?
    requires Shows(AppliedTimes(v, n - 1).value, v, i, Power(Requested(v), n - 1))
    ensures Shows(AppliedTimes(v, n).value, v, i, Power(Requested(v), n))
  {
    var p := Power(Requested(v), n - 1);
    ShowsAfterPass(AppliedTimes(v, n - 1).value, AppliedTimes(v, n).value, v, i, p);
  }

  /** `n` passes turn every picture by the n-th power of the requested orientation. */
  lemma {:induction false} AppliedTimesPictures(v: ImageValue, n: nat, i: nat)
    requires v.Valid() && i < |v.frames|
    ensures AppliedTimes(v, n).Some? ==> Shows(AppliedTimes(v, n).value, v, i, Power(Requested(v), n))
    decreases n
  {
    if n == 0 {
      ShowsItself(v, i);
    } else {
      AppliedTimesPictures(v, n - 1, i);
      if AppliedTimes(v, n).Some? {
        ShowsNextPass(v, n, i);
      }
    }
  }

  /** Four passes show every picture as it was stored; two do, except for quarter turns. */
  lemma FourPassesRestore(v: ImageValue, i: nat)
    requires v.Valid() && i < |v.frames|
    ensures AppliedTimes(v, 4).Some? ==>
              var r := AppliedTimes(v, 4).value;
              |r.frames| == |v.frames| && r.frames[i].texture.Pixels() == v.frames[i].texture.Pixels()
    ensures AppliedTimes(v, 2).Some? && Requested(v) !in {Rotate90, Rotate270} ==>
              var r := AppliedTimes(v, 2).value;
              |r.frames| == |v.frames| && r.frames[i].texture.Pixels() == v.frames[i].texture.Pixels()
  {
    var o := Requested(v);
    assert v.frames[i] in v.frames;
    OrientNormal(v.frames[i].texture.Pixels());
    PowersOf(o);
    AppliedTimesPictures(v, 4, i);
    AppliedTimesPictures(v, 2, i);
  }

  lemma PowersOf(o: Orientation)
    ensures Power(o, 4) == Normal
    ensures Power(o, 2) == Normal <==> o !in {Rotate90, Rotate270}
  {
    assert Power(o, 1) == Compose(Power(o, 0), o) == o;
    assert Power(o, 2) == Compose(o, o);
    assert Power(o, 3) == Compose(Compose(o, o), o);
    assert Power(o, 4) == Compose(Compose(Compose(o, o), o), o);
  }

  lemma OrientCancels<P>(o: Orientation, g: Grid<P>)
    requires g.Valid()
    ensures Orient(o, Orient(o, g)) == Orient(o, g) <==> Orient(o, g) == g
  {
    if Orient(o, Orient(o, g)) == Orient(o, g) {
      OrientCompose(o, Inverse(o), g);
      OrientCompose(o, Inverse(o), Orient(o, g));
      GroupLaws(o, o, o);
      OrientNormal(g);
      OrientNormal(Orient(o, g));
    }
  }

  /** The condition under which a second pass is harmless: every frame is symmetric under the orientation. */
  ghost predicate Symmetric(v: ImageValue)
    requires v.Valid()
  {
    && (SwapsAxes(Requested(v)) ==> v.width == v.height)
    && forall i :: 0 <= i < |v.frames| ==>
                     v.frames[i].texture.Valid()
                     && Orient(Requested(v), v.frames[i].texture.Pixels()) == v.frames[i].texture.Pixels()
  }

  lemma SameTransform(t: Texture, o: Orientation)
    requires t.Packed()
    ensures Transformed(t, o) == Some(t) <==> Orient(o, t.Pixels()) == t.Pixels()
  {
    TransformPanicsIff(t, o);
    if Transformed(t, o) == Some(t) {
      TransformedPicture(t, o);
    }
    if Orient(o, t.Pixels()) == t.Pixels() {
      TransformNormal(t);
      OrientNormal(t.Pixels());
      assert OutWidth(o, t.width, t.height) == t.width && OutHeight(o, t.width, t.height) == t.height;
    }
  }

  /** The pass is idempotent on exactly the images it would not visibly change. */
  lemma IdempotentIff(v: ImageValue)
    requires v.Valid() && Applied(v, true).Some?
    ensures Applied(v, true).value.Valid()
    ensures Applied(Applied(v, true).value, true) == Applied(v, true) <==> Symmetric(v)
  {
    var o := Requested(v);
    var once := Applied(v, true).value;
    if |v.frames| > 0 {
      AppliedPictures(v, 0);
    }
    assert Requested(once) == o;
    if o == Normal {
      forall i | 0 <= i < |v.frames|
        ensures v.frames[i].texture.Valid() && Orient(o, v.frames[i].texture.Pixels()) == v.frames[i].texture.Pixels()
      {
        assert v.frames[i] in v.frames;
        OrientNormal(v.frames[i].texture.Pixels());
      }
    } else {
      forall i | 0 <= i < |v.frames|
        ensures v.frames[i].texture.Valid() && once.frames[i].texture.Valid()
        ensures Transformed(once.frames[i].texture, o) == Some(once.frames[i].texture)
                <==> Orient(o, v.frames[i].texture.Pixels()) == v.frames[i].texture.Pixels()
      {
        assert v.frames[i] in v.frames;
        TransformPanicsIff(v.frames[i].texture, o);
        TransformedPicture(v.frames[i].texture, o);
        SameTransform(once.frames[i].texture, o);
        OrientCancels(o, v.frames[i].texture.Pixels());
      }
      SecondPass(once, o);
    }
  }

  /** A pass changes nothing exactly when no frame and no reported dimension changes. */
  lemma SecondPass(once: ImageValue, o: Orientation)
    requires once.Valid() && Requested(once) == o != Normal && once.orientation == Normal
    ensures Applied(once, true) == Some(once) <==>
            && (SwapsAxes(o) ==> once.width == once.height)
            && forall i :: 0 <= i < |once.frames| ==>
                             once.frames[i].texture.Valid()
                             && Transformed(once.frames[i].texture, o) == Some(once.frames[i].texture)
  {
    var baked := BakedFrames(once.frames, o);
    if baked.Some? && forall i :: 0 <= i < |once.frames| ==>
                             once.frames[i].texture.Valid()
                             && Transformed(once.frames[i].texture, o) == Some(once.frames[i].texture)
    {
      assert baked.value == once.frames;
    }
  }

  lemma MirrorMoves(g: Grid<seq<byte>>)
    requires g.Valid() && g.w == 2 && g.h == 1 && g.At(0, 0) != g.At(1, 0)
    ensures Orient(FlipHorizontal, g) != g
  {
    OrientAt(FlipHorizontal, g, 1, 0);
  }

  lemma TwoPixels()
    ensures var t := Texture(2, 1, 2, G8, [1, 2]);
            t.Valid() && Orient(FlipHorizontal, t.Pixels()) != t.Pixels()
  {
    var t := Texture(2, 1, 2, G8, [1, 2]);
    var g := t.Pixels();
    assert Offset(1, 1) == 1 && Offset(0, 1) == 0 && Offset(0, 2) == 0;
    ViewAt(t.data, 2, 1, 2, 1, 0, 0);
    ViewAt(t.data, 2, 1, 2, 1, 1, 0);
    assert g.At(0, 0)[0] == 1;
    assert g.At(1, 0)[0] == 2;
    MirrorMoves(g);
  }

  /** A mirrored two-pixel image shows the pass is not idempotent. */
  lemma NotIdempotent()
    ensures var blob := Exif.Print(true, [], [Exif.Entry(0x0112, 3, 1, 2, 0)], []);
            var v := ImageValue(2, 1, Normal, Some(blob), [Frame(Texture(2, 1, 2, G8, [1, 2]), None)]);
            && v.Valid() && Applied(v, true).Some? && Applied(v, true).value.Valid()
            && Applied(Applied(v, true).value, true) != Applied(v, true)
  {
    var es := [Exif.Entry(0x0112, 3, 1, 2, 0)];
    var blob := Exif.Print(true, [], es, []);
    assert Exif.Parse(blob) == Some(2) by {
      Exif.ParsePrinted(true, [], es, []);
    }
    MirroredTwice(blob);
  }

  lemma MirroredTwice(blob: seq<byte>)
    requires Exif.Parse(blob) == Some(2)
    ensures var v := ImageValue(2, 1, Normal, Some(blob), [Frame(Texture(2, 1, 2, G8, [1, 2]), None)]);
            && v.Valid() && Applied(v, true).Some? && Applied(v, true).value.Valid()
            && Applied(Applied(v, true).value, true) != Applied(v, true)
  {
    var t := Texture(2, 1, 2, G8, [1, 2]);
    var v := ImageValue(2, 1, Normal, Some(blob), [Frame(t, None)]);
    TwoPixels();
    AppliedPanicsIff(v);
    IdempotentIff(v);
    assert v.frames[0].texture == t;
  }
}
