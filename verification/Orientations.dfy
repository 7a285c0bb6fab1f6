/** The eight EXIF orientations as the symmetry group of the rectangle. */
module Orientations {
  import opened Common
  import opened Grids

  datatype Orientation =
    | Normal
    | FlipHorizontal
    | Rotate180
    | FlipVertical
    | Transpose
    | Rotate90
    | Transverse
    | Rotate270

  function FromExif(value: u16): Orientation {
    match value
    case 2 => FlipHorizontal
    case 3 => Rotate180
    case 4 => FlipVertical
    case 5 => Transpose
    case 6 => Rotate90
    case 7 => Transverse
    case 8 => Rotate270
    case _ => Normal
  }

  // ----- What the tag values mean -----

  datatype Side = Top | Bottom | LeftSide | RightSide

  /**
   The side of the upright picture that the stored row 0 and column 0 are, by the Orientation field of
   TIFF Revision 6.0 (Section 8): an account of the tags independent of any coordinate map.
   */
  function StoredOrigin(value: u16): (sides: (Side, Side)) {
    match value
    case 2 => (Top, RightSide)
    case 3 => (Bottom, RightSide)
    case 4 => (Bottom, LeftSide)
    case 5 => (LeftSide, Top)
    case 6 => (RightSide, Top)
    case 7 => (RightSide, Bottom)
    case 8 => (LeftSide, Bottom)
    case _ => (Top, LeftSide)
  }

  predicate OnSide(side: Side, x: nat, y: nat, w: nat, h: nat) {
    match side
    case Top => y == 0
    case Bottom => y + 1 == h
    case LeftSide => x == 0
    case RightSide => x + 1 == w
  }

  predicate SwapsAxes(o: Orientation) {
    o in {Transpose, Rotate90, Transverse, Rotate270}
  }

  function OutWidth(o: Orientation, w: nat, h: nat): nat {
    if SwapsAxes(o) then h else w
  }

  function OutHeight(o: Orientation, w: nat, h: nat): nat {
    if SwapsAxes(o) then w else h
  }

  /** Where the pixel at (x, y) of a `w` by `h` picture goes. */
  function MappedCoord(o: Orientation, x: nat, y: nat, w: nat, h: nat): (d: (nat, nat))
    requires x < w && y < h
    ensures d.0 < OutWidth(o, w, h) && d.1 < OutHeight(o, w, h)
  {
    match o
    case Normal => (x, y)
    case FlipHorizontal => (w - 1 - x, y)
    case Rotate180 => (w - 1 - x, h - 1 - y)
    case FlipVertical => (x, h - 1 - y)
    case Transpose => (y, x)
    case Rotate90 => (h - 1 - y, x)
    case Transverse => (h - 1 - y, w - 1 - x)
    case Rotate270 => (y, w - 1 - x)
  }

  /** The coordinate map takes stored row 0 and column 0, and nothing else, to the sides the tag names. */
  lemma TagMeansSides(value: u16, x: nat, y: nat, w: nat, h: nat)
    requires x < w && y < h
    ensures var o := FromExif(value);
            var (dx, dy) := MappedCoord(o, x, y, w, h);
            && (y == 0 <==> OnSide(StoredOrigin(value).0, dx, dy, OutWidth(o, w, h), OutHeight(o, w, h)))
            && (x == 0 <==> OnSide(StoredOrigin(value).1, dx, dy, OutWidth(o, w, h), OutHeight(o, w, h)))
  {
  }

  /** How far (x, y) is from a side. */
  function Distance(side: Side, x: nat, y: nat, w: nat, h: nat): (d: nat)
    requires x < w && y < h
  {
    match side
    case Top => y
    case Bottom => h - 1 - y
    case LeftSide => x
    case RightSide => w - 1 - x
  }

  /**
   `o` is what tag value `tag` asks for: stored row y ends up y rows away from the side the tag names for row 0,
   stored column x likewise, and width and height change places for the tags 5 to 8. No two orientations do that.
   */
  ghost predicate Means(tag: u16, o: Orientation) {
    && (forall w: nat, h: nat :: (OutWidth(o, w, h), OutHeight(o, w, h)) == if 5 <= tag <= 8 then (h, w) else (w, h))
    && (forall x: nat, y: nat, w: nat, h: nat :: x < w && y < h ==>
          var (dx, dy) := MappedCoord(o, x, y, w, h);
          && Distance(StoredOrigin(tag).0, dx, dy, OutWidth(o, w, h), OutHeight(o, w, h)) == y
          && Distance(StoredOrigin(tag).1, dx, dy, OutWidth(o, w, h), OutHeight(o, w, h)) == x)
  }

  /** Each tag value is read as the one orientation it means. */
  lemma TagMeansOrientation(tag: u16, o: Orientation)
    ensures Means(tag, o) <==> o == FromExif(tag)
  {
    var corner, width := MappedCoord(o, 0, 0, 2, 3), OutWidth(o, 2, 3);
  }

  // ----- The group -----

  /** An orientation as an optional transpose followed by optional mirrors of the result. */
  function FromMoves(swap: bool, mirrorX: bool, mirrorY: bool): Orientation {
    if swap then
      if mirrorX then (if mirrorY then Transverse else Rotate90)
      else (if mirrorY then Rotate270 else Transpose)
    else
      if mirrorX then (if mirrorY then Rotate180 else FlipHorizontal)
      else (if mirrorY then FlipVertical else Normal)
  }

  predicate MirrorsX(o: Orientation) {
    o in {FlipHorizontal, Rotate180, Rotate90, Transverse}
  }

  predicate MirrorsY(o: Orientation) {
    o in {FlipVertical, Rotate180, Rotate270, Transverse}
  }

  /** `first`, then `second`. */
  function Compose(first: Orientation, second: Orientation): Orientation {
    if SwapsAxes(second) then
      FromMoves(!SwapsAxes(first), MirrorsY(first) != MirrorsX(second), MirrorsX(first) != MirrorsY(second))
    else
      FromMoves(SwapsAxes(first), MirrorsX(first) != MirrorsX(second), MirrorsY(first) != MirrorsY(second))
  }

  function Inverse(o: Orientation): Orientation {
    match o
    case Rotate90 => Rotate270
    case Rotate270 => Rotate90
    case _ => o
  }

  lemma GroupLaws(a: Orientation, b: Orientation, c: Orientation)
    ensures Compose(Normal, a) == a == Compose(a, Normal)
    ensures Compose(a, Inverse(a)) == Normal == Compose(Inverse(a), a)
    ensures Compose(Compose(a, b), c) == Compose(a, Compose(b, c))
  {
  }

  /** Moving a pixel twice is moving it once, by the composed orientation. */
  lemma CoordsCompose(first: Orientation, second: Orientation, x: nat, y: nat, w: nat, h: nat)
    requires x < w && y < h
    ensures var (dx, dy) := MappedCoord(first, x, y, w, h);
            && MappedCoord(second, dx, dy, OutWidth(first, w, h), OutHeight(first, w, h))
               == MappedCoord(Compose(first, second), x, y, w, h)
            && OutWidth(second, OutWidth(first, w, h), OutHeight(first, w, h))
               == OutWidth(Compose(first, second), w, h)
            && OutHeight(second, OutWidth(first, w, h), OutHeight(first, w, h))
               == OutHeight(Compose(first, second), w, h)
  {
  }

  /** The coordinate of the source pixel that lands on (x, y) of the oriented picture. */
  function SourceCoord(o: Orientation, x: nat, y: nat, w: nat, h: nat): (s: (nat, nat))
    requires x < OutWidth(o, w, h) && y < OutHeight(o, w, h)
    ensures s.0 < w && s.1 < h && MappedCoord(o, s.0, s.1, w, h) == (x, y)
  {
    MappedCoord(Inverse(o), x, y, OutWidth(o, w, h), OutHeight(o, w, h))
  }

  /** Every destination has exactly one source: the map is a bijection between the two rectangles. */
  lemma EachDestinationOnce(o: Orientation, w: nat, h: nat, x: nat, y: nat, x': nat, y': nat)
    requires x < w && y < h && x' < w && y' < h
    ensures MappedCoord(o, x, y, w, h) == MappedCoord(o, x', y', w, h) ==> (x, y) == (x', y')
    ensures var (dx, dy) := MappedCoord(o, x, y, w, h); SourceCoord(o, dx, dy, w, h) == (x, y)
  {
  }

  // ----- Acting on pictures -----

  function Orient<P>(o: Orientation, g: Grid<P>): (r: Grid<P>)
    requires g.Valid()
    ensures r.Valid() && r.w == OutWidth(o, g.w, g.h) && r.h == OutHeight(o, g.w, g.h)
  {
    var w := OutWidth(o, g.w, g.h);
    var h := OutHeight(o, g.w, g.h);
    Grid(w, h, seq(h, y requires 0 <= y < h =>
                     seq(w, x requires 0 <= x < w =>
                           var s := SourceCoord(o, x, y, g.w, g.h); g.At(s.0, s.1))))
  }

  /** The gathered picture is the scattered one. */
  lemma OrientAt<P>(o: Orientation, g: Grid<P>, x: nat, y: nat)
    requires g.Valid() && x < g.w && y < g.h
    ensures var (dx, dy) := MappedCoord(o, x, y, g.w, g.h); Orient(o, g).At(dx, dy) == g.At(x, y)
  {
    EachDestinationOnce(o, g.w, g.h, x, y, x, y);
  }

  /** A picture is the oriented one as soon as every source pixel is where the map sends it. */
  lemma OrientUnique<P>(o: Orientation, g: Grid<P>, r: Grid<P>)
    requires g.Valid() && r.Valid()
    requires r.w == OutWidth(o, g.w, g.h) && r.h == OutHeight(o, g.w, g.h)
    requires forall x, y :: 0 <= x < g.w && 0 <= y < g.h ==>
               var (dx, dy) := MappedCoord(o, x, y, g.w, g.h); r.At(dx, dy) == g.At(x, y)
    ensures r == Orient(o, g)
  {
    forall x, y | 0 <= x < r.w && 0 <= y < r.h
      ensures r.At(x, y) == Orient(o, g).At(x, y)
    {
      var s := SourceCoord(o, x, y, g.w, g.h);
      assert g.At(s.0, s.1) == r.At(x, y);
    }
    SameGrid(r, Orient(o, g));
  }

  lemma OrientCompose<P>(first: Orientation, second: Orientation, g: Grid<P>)
    requires g.Valid()
    ensures Orient(second, Orient(first, g)) == Orient(Compose(first, second), g)
  {
    var m := Orient(first, g);
    var r := Orient(second, m);
    forall x, y | 0 <= x < g.w && 0 <= y < g.h
      ensures var (dx, dy) := MappedCoord(Compose(first, second), x, y, g.w, g.h);
              dx < r.w && dy < r.h && r.At(dx, dy) == g.At(x, y)
    {
      CoordsCompose(first, second, x, y, g.w, g.h);
      OrientAt(first, g, x, y);
      var (mx, my) := MappedCoord(first, x, y, g.w, g.h);
      OrientAt(second, m, mx, my);
    }
    OrientUnique(Compose(first, second), g, r);
  }

  lemma OrientNormal<P>(g: Grid<P>)
    requires g.Valid()
    ensures Orient(Normal, g) == g
  {
    OrientUnique(Normal, g, g);
  }

  /** Per-pixel conversion does not care where the pixel is. */
  lemma OrientMap<P, Q>(o: Orientation, f: P -> Q, g: Grid<P>)
    requires g.Valid()
    ensures Orient(o, MapGrid(f, g)) == MapGrid(f, Orient(o, g))
  {
    SameGrid(Orient(o, MapGrid(f, g)), MapGrid(f, Orient(o, g)));
  }

  lemma OrientPixelSize(o: Orientation, g: Grid<seq<byte>>, bpp: nat)
    requires g.Valid() && PixelSize(g, bpp)
    ensures PixelSize(Orient(o, g), bpp)
  {
  }
}
