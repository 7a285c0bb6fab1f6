/** Orienting a picture keeps its multiset of pixels. */
module PixelBags {
  import opened Grids
  import opened Orientations

  /** All pixels of some rows, with multiplicity. */
  ghost function Bag<P>(rows: seq<seq<P>>): multiset<P> {
    if |rows| == 0 then multiset{} else Bag(rows[..|rows| - 1]) + multiset(rows[|rows| - 1])
  }

  ghost function PixelBag<P>(g: Grid<P>): multiset<P> {
    Bag(g.rows)
  }

  lemma BagPush<P>(rows: seq<seq<P>>, row: seq<P>)
    ensures Bag(rows + [row]) == Bag(rows) + multiset(row)
  {
    assert (rows + [row])[..|rows|] == rows;
  }

  lemma {:induction false} BagCons<P>(row: seq<P>, rows: seq<seq<P>>)
    ensures Bag([row] + rows) == multiset(row) + Bag(rows)
  {
    if |rows| == 0 {
      BagPush([], row);
      assert [row] + rows == [] + [row];
    } else {
      var n := |rows| - 1;
      BagCons(row, rows[..n]);
      assert ([row] + rows)[..|rows|] == [row] + rows[..n];
    }
  }

  lemma {:induction false} BagReversedRows<P>(a: seq<seq<P>>, b: seq<seq<P>>)
    requires |a| == |b| && forall y :: 0 <= y < |a| ==> b[y] == a[|a| - 1 - y]
    ensures Bag(a) == Bag(b)
  {
    if |a| != 0 {
      var n := |a| - 1;
      BagReversedRows(a[..n], b[1..]);
      BagCons(b[0], b[1..]);
      assert b == [b[0]] + b[1..];
    }
  }

  lemma {:induction false} ReversedRow<P>(a: seq<P>, b: seq<P>)
    requires |a| == |b| && forall x :: 0 <= x < |a| ==> b[x] == a[|a| - 1 - x]
    ensures multiset(a) == multiset(b)
  {
    if |a| != 0 {
      var n := |a| - 1;
      ReversedRow(a[..n], b[1..]);
      assert a == a[..n] + [a[n]];
      assert b == [b[0]] + b[1..];
    }
  }

  lemma {:induction false} BagRowwise<P>(a: seq<seq<P>>, b: seq<seq<P>>)
    requires |a| == |b| && forall y :: 0 <= y < |a| ==> multiset(a[y]) == multiset(b[y])
    ensures Bag(a) == Bag(b)
  {
    if |a| != 0 {
      BagRowwise(a[..|a| - 1], b[..|a| - 1]);
    }
  }

  /** Appending one pixel to each column adds exactly those pixels. */
  lemma {:induction false} BagWiden<P>(cols: seq<seq<P>>, last: seq<P>, wide: seq<seq<P>>)
    requires |cols| == |last| == |wide|
    requires forall x :: 0 <= x < |cols| ==> wide[x] == cols[x] + [last[x]]
    ensures Bag(wide) == Bag(cols) + multiset(last)
  {
    if |cols| != 0 {
      var n := |cols| - 1;
      BagWiden(cols[..n], last[..n], wide[..n]);
      assert last == last[..n] + [last[n]];
    }
  }

  lemma {:induction false} BagTransposed<P>(rows: seq<seq<P>>, cols: seq<seq<P>>)
    requires forall y :: 0 <= y < |rows| ==> |rows[y]| == |cols|
    requires forall x :: 0 <= x < |cols| ==> |cols[x]| == |rows|
    requires forall x, y :: 0 <= x < |cols| && 0 <= y < |rows| ==> cols[x][y] == rows[y][x]
    ensures Bag(rows) == Bag(cols)
    decreases |rows|
  {
    if |rows| == 0 {
      EmptyRows(cols);
    } else {
      var n := |rows| - 1;
      var short := seq(|cols|, x requires 0 <= x < |cols| => cols[x][..n]);
      BagTransposed(rows[..n], short);
      forall x | 0 <= x < |cols|
        ensures cols[x] == short[x] + [rows[n][x]]
      {
      }
      BagWiden(short, rows[n], cols);
    }
  }

  lemma {:induction false} EmptyRows<P>(rows: seq<seq<P>>)
    requires forall y :: 0 <= y < |rows| ==> rows[y] == []
    ensures Bag(rows) == multiset{}
  {
    if |rows| != 0 {
      EmptyRows(rows[..|rows| - 1]);
    }
  }

  lemma MirrorXKeepsBag<P>(g: Grid<P>)
    requires g.Valid()
    ensures PixelBag(Orient(FlipHorizontal, g)) == PixelBag(g)
  {
    var r := Orient(FlipHorizontal, g);
    forall y | 0 <= y < g.h
      ensures multiset(g.rows[y]) == multiset(r.rows[y])
    {
      ReversedRow(g.rows[y], r.rows[y]);
    }
    BagRowwise(g.rows, r.rows);
  }

  lemma MirrorYKeepsBag<P>(g: Grid<P>)
    requires g.Valid()
    ensures PixelBag(Orient(FlipVertical, g)) == PixelBag(g)
  {
    var r := Orient(FlipVertical, g);
    forall y | 0 <= y < g.h
      ensures r.rows[y] == g.rows[g.h - 1 - y]
    {
    }
    BagReversedRows(g.rows, r.rows);
  }

  lemma TransposeKeepsBag<P>(g: Grid<P>)
    requires g.Valid()
    ensures PixelBag(Orient(Transpose, g)) == PixelBag(g)
  {
    BagTransposed(g.rows, Orient(Transpose, g).rows);
  }

  lemma SimpleKeepsBag<P>(o: Orientation, g: Grid<P>)
    requires g.Valid() && o in {Normal, FlipHorizontal, FlipVertical, Transpose}
    ensures PixelBag(Orient(o, g)) == PixelBag(g)
  {
    match o
    case Normal => OrientNormal(g);
    case FlipHorizontal => MirrorXKeepsBag(g);
    case FlipVertical => MirrorYKeepsBag(g);
    case Transpose => TransposeKeepsBag(g);
  }

  lemma ThreeMoves(o: Orientation)
    returns (a: Orientation, b: Orientation, c: Orientation)
    ensures {a, b, c} <= {Normal, FlipHorizontal, FlipVertical, Transpose}
    ensures Compose(Compose(a, b), c) == o
  {
    a := if SwapsAxes(o) then Transpose else Normal;
    b := if MirrorsX(o) then FlipHorizontal else Normal;
    c := if MirrorsY(o) then FlipVertical else Normal;
  }

  /** Each orientation is a transpose and mirrors, so all eight are pixel permutations. */
  lemma OrientKeepsBag<P>(o: Orientation, g: Grid<P>)
    requires g.Valid()
    ensures PixelBag(Orient(o, g)) == PixelBag(g)
  {
    var a, b, c := ThreeMoves(o);
    assert a in {a, b, c} && b in {a, b, c} && c in {a, b, c};
    OrientCompose(a, b, g);
    OrientCompose(Compose(a, b), c, g);
    SimpleKeepsBag(a, g);
    SimpleKeepsBag(b, Orient(a, g));
    SimpleKeepsBag(c, Orient(b, Orient(a, g)));
  }
}
