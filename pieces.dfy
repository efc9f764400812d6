/**
 * Polyomino pieces for the 2025/12 packing puzzle: construction with
 * normalisation to the top-left corner, quarter turns, mirror images, a
 * canonical text key for a shape, and the de-duplicated set of orientations.
 * Point (0, 0) is the top-left cell.
 */
module Pieces {
  import GoMath

  datatype Point = Point(x: int, y: int)

  /** A shape: its cells, bounding-box width and height, and its cell count. */
  datatype Piece = Piece(id: int, cells: seq<Point>, width: int, height: int, area: int)

  // ---------------------------------------------------------------------------
  // Extremes of the coordinates
  // ---------------------------------------------------------------------------

  function Xs(cells: seq<Point>): (r: seq<int>)
    ensures |r| == |cells|
  { seq(|cells|, i requires 0 <= i < |cells| => cells[i].x) }

  function Ys(cells: seq<Point>): (r: seq<int>)
    ensures |r| == |cells|
  { seq(|cells|, i requires 0 <= i < |cells| => cells[i].y) }

  /** The smallest value, scanning left to right and replacing on a strictly smaller one. */
  function Lowest(s: seq<int>): int
    requires |s| > 0
  {
    if |s| == 1 then s[0]
    else
      var m0 := Lowest(s[..|s| - 1]);
      if s[|s| - 1] < m0 then s[|s| - 1] else m0
  }

  /** The largest value, scanning left to right and replacing on a strictly larger one. */
  function Highest(s: seq<int>): int
    requires |s| > 0
  {
    if |s| == 1 then s[0]
    else
      var m0 := Highest(s[..|s| - 1]);
      if s[|s| - 1] > m0 then s[|s| - 1] else m0
  }

  /** Lowest is a lower bound of the values and one of them. */
  lemma {:induction false} LowestMeans(s: seq<int>)
    requires |s| > 0
    ensures forall i :: 0 <= i < |s| ==> Lowest(s) <= s[i]
    ensures exists i :: 0 <= i < |s| && s[i] == Lowest(s)
  {
    if |s| > 1 {
      var init := s[..|s| - 1];
      LowestMeans(init);
      forall i | 0 <= i < |s| - 1 ensures Lowest(s) <= s[i] {
        assert s[i] == init[i];
      }
      var k :| 0 <= k < |init| && init[k] == Lowest(init);
      if s[|s| - 1] < Lowest(init) {
        assert s[|s| - 1] == Lowest(s);
      } else {
        assert s[k] == Lowest(s);
      }
    } else {
      assert s[0] == Lowest(s);
    }
  }

  /** Highest is an upper bound of the values and one of them. */
  lemma {:induction false} HighestMeans(s: seq<int>)
    requires |s| > 0
    ensures forall i :: 0 <= i < |s| ==> s[i] <= Highest(s)
    ensures exists i :: 0 <= i < |s| && s[i] == Highest(s)
  {
    if |s| > 1 {
      var init := s[..|s| - 1];
      HighestMeans(init);
      forall i | 0 <= i < |s| - 1 ensures s[i] <= Highest(s) {
        assert s[i] == init[i];
      }
      var k :| 0 <= k < |init| && init[k] == Highest(init);
      if s[|s| - 1] > Highest(init) {
        assert s[|s| - 1] == Highest(s);
      } else {
        assert s[k] == Highest(s);
      }
    } else {
      assert s[0] == Highest(s);
    }
  }

  /** A lower bound that some element reaches is the lowest value. */
  lemma LowestIs(s: seq<int>, v: int, k: int)
    requires 0 <= k < |s| && s[k] == v
    requires forall i :: 0 <= i < |s| ==> v <= s[i]
    ensures Lowest(s) == v
  {
    LowestMeans(s);
  }

  /** An upper bound that some element reaches is the highest value. */
  lemma HighestIs(s: seq<int>, v: int, k: int)
    requires 0 <= k < |s| && s[k] == v
    requires forall i :: 0 <= i < |s| ==> s[i] <= v
    ensures Highest(s) == v
  {
    HighestMeans(s);
  }

  // ---------------------------------------------------------------------------
  // NewPiece
  // ---------------------------------------------------------------------------

  /** Every cell moved by (-dx, -dy). */
  function Shift(cells: seq<Point>, dx: int, dy: int): (r: seq<Point>)
    ensures |r| == |cells|
  { seq(|cells|, i requires 0 <= i < |cells| => Point(cells[i].x - dx, cells[i].y - dy)) }

  /**
   * The piece NewPiece builds: no cells gives a zero-size piece; otherwise
   * the cells are moved so that the smallest X and Y are 0, and the size is
   * the extent of the bounding box.
   */
  function Make(id: int, cells: seq<Point>): Piece
  {
    if |cells| == 0 then Piece(id, [], 0, 0, 0)
    else
      var minX, maxX := Lowest(Xs(cells)), Highest(Xs(cells));
      var minY, maxY := Lowest(Ys(cells)), Highest(Ys(cells));
      Piece(id, Shift(cells, minX, minY), maxX - minX + 1, maxY - minY + 1, |cells|)
  }

  /** Every cell lies inside the bounding box [0, width) x [0, height). */
  predicate InBox(p: Piece)
  {
    forall i :: 0 <= i < |p.cells| ==> 0 <= p.cells[i].x < p.width && 0 <= p.cells[i].y < p.height
  }

  /** Some cell touches each side of the bounding box. */
  predicate Touches(p: Piece)
  {
    && (exists i :: 0 <= i < |p.cells| && p.cells[i].x == 0)
    && (exists i :: 0 <= i < |p.cells| && p.cells[i].x == p.width - 1)
    && (exists i :: 0 <= i < |p.cells| && p.cells[i].y == 0)
    && (exists i :: 0 <= i < |p.cells| && p.cells[i].y == p.height - 1)
  }

  /**
   * A normalised piece: its area is its cell count, an empty piece has size
   * zero, and otherwise its cells fill a bounding box whose top-left corner
   * is (0, 0).
   */
  predicate Normal(p: Piece)
  {
    && p.area == |p.cells|
    && (|p.cells| == 0 ==> p.width == 0 && p.height == 0)
    && InBox(p)
    && (|p.cells| > 0 ==> Touches(p))
  }

  /**
   * NewPiece's result is normal, keeps the id and the cell count, lists the
   * input cells in order each moved by the same offset, and its size is the
   * input's bounding box.
   */
  lemma MakeNormal(id: int, cells: seq<Point>)
    ensures Normal(Make(id, cells))
    ensures Make(id, cells).id == id && |Make(id, cells).cells| == |cells|
    ensures |cells| == 0 ==> Make(id, cells) == Piece(id, [], 0, 0, 0)
    ensures |cells| > 0 ==>
              && Make(id, cells).cells == Shift(cells, Lowest(Xs(cells)), Lowest(Ys(cells)))
              && Make(id, cells).width == Highest(Xs(cells)) - Lowest(Xs(cells)) + 1
              && Make(id, cells).height == Highest(Ys(cells)) - Lowest(Ys(cells)) + 1
  {
    if |cells| > 0 {
      var xs, ys := Xs(cells), Ys(cells);
      LowestMeans(xs);
      HighestMeans(xs);
      LowestMeans(ys);
      HighestMeans(ys);
      var p := Make(id, cells);
      assert InBox(p) by {
        forall i | 0 <= i < |p.cells|
          ensures 0 <= p.cells[i].x < p.width && 0 <= p.cells[i].y < p.height
        {
          assert xs[i] == cells[i].x && ys[i] == cells[i].y;
        }
      }
      var kx :| 0 <= kx < |xs| && xs[kx] == Lowest(xs);
      var hx :| 0 <= hx < |xs| && xs[hx] == Highest(xs);
      var ky :| 0 <= ky < |ys| && ys[ky] == Lowest(ys);
      var hy :| 0 <= hy < |ys| && ys[hy] == Highest(ys);
      assert p.cells[kx].x == 0 && p.cells[hx].x == p.width - 1;
      assert p.cells[ky].y == 0 && p.cells[hy].y == p.height - 1;
    }
  }

  /** The extremes loop of NewPiece, starting from the first cell. */
  method Extremes(cells: seq<Point>) returns (minX: int, maxX: int, minY: int, maxY: int)
    requires |cells| > 0
    ensures minX == Lowest(Xs(cells)) && maxX == Highest(Xs(cells))
    ensures minY == Lowest(Ys(cells)) && maxY == Highest(Ys(cells))
  {
    minX, minY := cells[0].x, cells[0].y;
    maxX, maxY := cells[0].x, cells[0].y;
    assert Xs(cells[..1]) == [cells[0].x] && Ys(cells[..1]) == [cells[0].y];
    var i := 0;
    while i < |cells|
      invariant 0 <= i <= |cells|
      invariant var k := if i == 0 then 1 else i;
                && minX == Lowest(Xs(cells[..k])) && maxX == Highest(Xs(cells[..k]))
                && minY == Lowest(Ys(cells[..k])) && maxY == Highest(Ys(cells[..k]))
    {
      var c := cells[i];
      assert Xs(cells[..i + 1])[..i] == Xs(cells[..i]);
      assert Ys(cells[..i + 1])[..i] == Ys(cells[..i]);
      if c.x < minX {
        minX := c.x;
      }
      if c.x > maxX {
        maxX := c.x;
      }
      if c.y < minY {
        minY := c.y;
      }
      if c.y > maxY {
        maxY := c.y;
      }
      i := i + 1;
    }
    assert cells[..|cells|] == cells;
  }

  /** The normalising loop of NewPiece: every cell moved by (-dx, -dy). */
  method Normalise(cells: seq<Point>, dx: int, dy: int) returns (norm: seq<Point>)
    ensures norm == Shift(cells, dx, dy)
  {
    var a := new Point[|cells|](_ => Point(0, 0));
    var j := 0;
    while j < |cells|
      invariant 0 <= j <= |cells|
      invariant forall k :: 0 <= k < j ==> a[k] == Point(cells[k].x - dx, cells[k].y - dy)
    {
      a[j] := Point(cells[j].x - dx, cells[j].y - dy);
      j := j + 1;
    }
    norm := a[..];
  }

  /** NewPiece: one pass for the extremes, one pass to normalise. */
  method NewPiece(id: int, cells: seq<Point>) returns (p: Piece)
    ensures p == Make(id, cells)
  {
    if |cells| == 0 {
      return Piece(id, [], 0, 0, 0);
    }
    var minX, maxX, minY, maxY := Extremes(cells);
    var width := maxX - minX + 1;
    var height := maxY - minY + 1;

    var norm := Normalise(cells, minX, minY);
    p := Piece(id, norm, width, height, |cells|);
  }

  // ---------------------------------------------------------------------------
  // Rotation and reflection
  // ---------------------------------------------------------------------------

  /** Each cell (x, y) sent to (y, width - 1 - x): a clockwise quarter turn in its box. */
  function Turned(p: Piece): (r: seq<Point>)
    ensures |r| == |p.cells|
  { seq(|p.cells|, i requires 0 <= i < |p.cells| => Point(p.cells[i].y, p.width - 1 - p.cells[i].x)) }

  /** Each cell (x, y) sent to (width - 1 - x, y): the mirror image across a vertical axis. */
  function Mirrored(p: Piece): (r: seq<Point>)
    ensures |r| == |p.cells|
  { seq(|p.cells|, i requires 0 <= i < |p.cells| => Point(p.width - 1 - p.cells[i].x, p.cells[i].y)) }

  /** The piece Rotate90 returns. */
  function Rotated(p: Piece): Piece
  { Make(p.id, Turned(p)) }

  /** The piece FlipHorizontal returns. */
  function Flipped(p: Piece): Piece
  { Make(p.id, Mirrored(p)) }

  /**
   * Rotating a normal piece needs no re-normalisation: the cells are exactly
   * the turned cells, width and height swap, and the area is kept.
   */
  lemma RotatedShape(p: Piece)
    requires Normal(p)
    ensures Rotated(p) == Piece(p.id, Turned(p), p.height, p.width, p.area)
    ensures Normal(Rotated(p))
  {
    var t := Turned(p);
    if |t| > 0 {
      var kx :| 0 <= kx < |p.cells| && p.cells[kx].x == 0;
      var hx :| 0 <= hx < |p.cells| && p.cells[hx].x == p.width - 1;
      var ky :| 0 <= ky < |p.cells| && p.cells[ky].y == 0;
      var hy :| 0 <= hy < |p.cells| && p.cells[hy].y == p.height - 1;
      var xs, ys := Xs(t), Ys(t);
      assert forall i :: 0 <= i < |t| ==> 0 <= xs[i] <= p.height - 1 && 0 <= ys[i] <= p.width - 1;
      LowestIs(xs, 0, ky);
      HighestIs(xs, p.height - 1, hy);
      LowestIs(ys, 0, hx);
      HighestIs(ys, p.width - 1, kx);
      assert Shift(t, 0, 0) == t;
    }
    MakeNormal(p.id, t);
  }

  /**
   * Mirroring a normal piece needs no re-normalisation either: the cells are
   * exactly the mirrored cells and the bounding box is unchanged.
   */
  lemma FlippedShape(p: Piece)
    requires Normal(p)
    ensures Flipped(p) == Piece(p.id, Mirrored(p), p.width, p.height, p.area)
    ensures Normal(Flipped(p))
  {
    var m := Mirrored(p);
    if |m| > 0 {
      var kx :| 0 <= kx < |p.cells| && p.cells[kx].x == 0;
      var hx :| 0 <= hx < |p.cells| && p.cells[hx].x == p.width - 1;
      var ky :| 0 <= ky < |p.cells| && p.cells[ky].y == 0;
      var hy :| 0 <= hy < |p.cells| && p.cells[hy].y == p.height - 1;
      var xs, ys := Xs(m), Ys(m);
      assert forall i :: 0 <= i < |m| ==> 0 <= xs[i] <= p.width - 1 && 0 <= ys[i] <= p.height - 1;
      LowestIs(xs, 0, hx);
      HighestIs(xs, p.width - 1, kx);
      LowestIs(ys, 0, ky);
      HighestIs(ys, p.height - 1, hy);
      assert Shift(m, 0, 0) == m;
    }
    MakeNormal(p.id, m);
  }

  /** Each cell (x, y) sent to (width - 1 - x, height - 1 - y): a half turn in its box. */
  function HalfTurned(p: Piece): (r: seq<Point>)
    ensures |r| == |p.cells|
  {
    seq(|p.cells|, i requires 0 <= i < |p.cells| =>
      Point(p.width - 1 - p.cells[i].x, p.height - 1 - p.cells[i].y))
  }

  /** Two quarter turns of a normal piece are a half turn in the same box. */
  lemma HalfTurn(p: Piece)
    requires Normal(p)
    ensures Rotated(Rotated(p)) == Piece(p.id, HalfTurned(p), p.width, p.height, p.area)
    ensures Normal(Rotated(Rotated(p)))
  {
    RotatedShape(p);
    RotatedShape(Rotated(p));
    assert Turned(Rotated(p)) == HalfTurned(p);
  }

  /** Four quarter turns give back the piece. */
  lemma {:induction false} FourTurns(p: Piece)
    requires Normal(p)
    ensures Rotated(Rotated(Rotated(Rotated(p)))) == p
  {
    HalfTurn(p);
    var h := Rotated(Rotated(p));
    HalfTurn(h);
    HalfTurnedTwice(h, p);
  }

  lemma HalfTurnedTwice(h: Piece, p: Piece)
    requires h == Piece(p.id, HalfTurned(p), p.width, p.height, p.area)
    ensures HalfTurned(h) == p.cells
  {
  }

  /** Mirroring twice gives back the piece. */
  lemma {:induction false} TwoFlips(p: Piece)
    requires Normal(p)
    ensures Flipped(Flipped(p)) == p
  {
    FlippedShape(p);
    FlippedShape(Flipped(p));
    assert Flipped(Flipped(p)).cells == p.cells;
  }

  /** Rotate90: build the turned cells, then normalise them with NewPiece. */
  method Rotate90(p: Piece) returns (r: Piece)
    ensures r == Rotated(p)
  {
    var newCells := new Point[|p.cells|](_ => Point(0, 0));
    var i := 0;
    while i < |p.cells|
      invariant 0 <= i <= |p.cells|
      invariant forall k :: 0 <= k < i ==> newCells[k] == Point(p.cells[k].y, p.width - 1 - p.cells[k].x)
    {
      newCells[i] := Point(p.cells[i].y, p.width - 1 - p.cells[i].x);
      i := i + 1;
    }
    assert newCells[..] == Turned(p);
    r := NewPiece(p.id, newCells[..]);
  }

  /** FlipHorizontal: build the mirrored cells, then normalise them with NewPiece. */
  method FlipHorizontal(p: Piece) returns (r: Piece)
    ensures r == Flipped(p)
  {
    var newCells := new Point[|p.cells|](_ => Point(0, 0));
    var i := 0;
    while i < |p.cells|
      invariant 0 <= i <= |p.cells|
      invariant forall k :: 0 <= k < i ==> newCells[k] == Point(p.width - 1 - p.cells[k].x, p.cells[k].y)
    {
      newCells[i] := Point(p.width - 1 - p.cells[i].x, p.cells[i].y);
      i := i + 1;
    }
    assert newCells[..] == Mirrored(p);
    r := NewPiece(p.id, newCells[..]);
  }

  // ---------------------------------------------------------------------------
  // pieceKey
  // ---------------------------------------------------------------------------

  /** Row-major order: by Y, then by X. */
  predicate Le(p: Point, q: Point)
  { p.y < q.y || (p.y == q.y && p.x <= q.x) }

  predicate SortedCells(s: seq<Point>)
  { forall i, j :: 0 <= i < j < |s| ==> Le(s[i], s[j]) }

  function Insert(c: Point, s: seq<Point>): (r: seq<Point>)
    ensures multiset(r) == multiset(s) + multiset{c}
  {
    if s == [] then [c]
    else if Le(c, s[0]) then [c] + s
    else
      assert s == [s[0]] + s[1..];
      [s[0]] + Insert(c, s[1..])
  }

  /** Inserting into a sorted list keeps it sorted. */
  lemma {:induction false} InsertSorted(c: Point, s: seq<Point>)
    requires SortedCells(s)
    ensures SortedCells(Insert(c, s))
  {
    if s != [] && !Le(c, s[0]) {
      var t := Insert(c, s[1..]);
      InsertSorted(c, s[1..]);
      forall k | 0 <= k < |t| ensures Le(s[0], t[k]) {
        assert t[k] in multiset(t);
        if t[k] != c {
          assert t[k] in multiset(s[1..]);
          var j :| 0 <= j < |s[1..]| && s[1..][j] == t[k];
          assert s[j + 1] == t[k];
        }
      }
    }
  }

  /** The cells in row-major order, as the key's sort puts them. */
  function SortCells(s: seq<Point>): (r: seq<Point>)
    ensures multiset(r) == multiset(s)
  {
    if s == [] then []
    else
      assert s == [s[0]] + s[1..];
      Insert(s[0], SortCells(s[1..]))
  }

  lemma {:induction false} SortCellsSorted(s: seq<Point>)
    ensures SortedCells(SortCells(s))
  {
    if s != [] {
      SortCellsSorted(s[1..]);
      InsertSorted(s[0], SortCells(s[1..]));
    }
  }

  lemma SortedTail(s: seq<Point>)
    requires SortedCells(s) && s != []
    ensures SortedCells(s[1..])
  {
    forall i, j | 0 <= i < j < |s| - 1 ensures Le(s[1..][i], s[1..][j]) {
      assert s[1..][i] == s[i + 1] && s[1..][j] == s[j + 1];
    }
  }

  /** Two sorted arrangements of the same cells start with the same cell. */
  lemma SortedHead(a: seq<Point>, b: seq<Point>)
    requires SortedCells(a) && SortedCells(b) && multiset(a) == multiset(b) && a != []
    ensures b != [] && a[0] == b[0]
  {
    assert a[0] in multiset(b);
    assert b != [] && b[0] in multiset(a);
    var i :| 0 <= i < |a| && a[i] == b[0];
    var j :| 0 <= j < |b| && b[j] == a[0];
    assert Le(a[0], a[i]) && Le(b[0], b[j]);
  }

  lemma TailMultiset(a: seq<Point>, b: seq<Point>)
    requires multiset(a) == multiset(b) && a != [] && b != [] && a[0] == b[0]
    ensures multiset(a[1..]) == multiset(b[1..])
  {
    assert a == [a[0]] + a[1..] && b == [b[0]] + b[1..];
    assert multiset(a[1..]) == multiset(a) - multiset{a[0]};
    assert multiset(b[1..]) == multiset(b) - multiset{b[0]};
  }

  /** Row-major order is total, so a multiset of cells has only one sorted arrangement. */
  lemma {:induction false} SortedUnique(a: seq<Point>, b: seq<Point>)
    requires SortedCells(a) && SortedCells(b) && multiset(a) == multiset(b)
    ensures a == b
    decreases |a|
  {
    if a != [] {
      SortedHead(a, b);
      TailMultiset(a, b);
      SortedTail(a);
      SortedTail(b);
      SortedUnique(a[1..], b[1..]);
      assert a == [a[0]] + a[1..] && b == [b[0]] + b[1..];
    } else {
      assert |b| == |multiset(b)| == 0;
    }
  }

  /** One cell written "x,y". */
  function Entry(p: Point): (r: string)
    ensures |r| >= 3
  { GoMath.Itoa(p.x) + "," + GoMath.Itoa(p.y) }

  /** The entries joined with ';'. */
  function Joined(pts: seq<Point>): string
  {
    if |pts| == 0 then ""
    else if |pts| == 1 then Entry(pts[0])
    else Joined(pts[..|pts| - 1]) + ";" + Entry(pts[|pts| - 1])
  }

  /** The key pieceKey builds for a list of cells. */
  function Key(cells: seq<Point>): string
  { if |cells| == 0 then "" else Joined(SortCells(cells)) }

  /**
   * The key depends only on which cells there are, not on their order, and
   * is empty exactly for an empty cell list.
   */
  lemma KeyOrderFree(c1: seq<Point>, c2: seq<Point>)
    requires multiset(c1) == multiset(c2)
    ensures Key(c1) == Key(c2)
    ensures Key(c1) == "" <==> |c1| == 0
  {
    SortCellsSorted(c1);
    SortCellsSorted(c2);
    SortedUnique(SortCells(c1), SortCells(c2));
    assert |c1| == |multiset(c1)| == |SortCells(c1)|;
    assert |c2| == |multiset(c2)|;
  }

  /** The writing loop of pieceKey: entries separated by ';'. */
  method WriteKey(pts: seq<Point>) returns (s: string)
    ensures s == Joined(pts)
  {
    s := "";
    var i := 0;
    while i < |pts|
      invariant 0 <= i <= |pts|
      invariant s == Joined(pts[..i])
    {
      assert pts[..i + 1][..i] == pts[..i];
      if i > 0 {
        s := s + ";";
      }
      s := s + Entry(pts[i]);
      i := i + 1;
    }
    assert pts[..|pts|] == pts;
  }

  /** pieceKey: sort a copy of the cells, then write them out one by one. */
  method PieceKey(cells: seq<Point>) returns (s: string)
    ensures s == Key(cells)
  {
    if |cells| == 0 {
      return "";
    }
    var pts := SortCells(cells);
    s := WriteKey(pts);
  }

  // ---------------------------------------------------------------------------
  // AllOrientations
  // ---------------------------------------------------------------------------

  /** The eight candidate shapes: the four rotations, then each of them mirrored. */
  function Candidates(p: Piece): (r: seq<Piece>)
    ensures |r| == 8
  {
    seq(8, k requires 0 <= k < 8 => if k < 4 then Turns(p, k) else Flipped(Turns(p, k - 4)))
  }

  /** The key of a piece's shape. */
  function ShapeKey(g: Piece): string
  { Key(g.cells) }

  /** Keep each element whose key has not been seen before, in order. */
  function Dedupe<T>(s: seq<T>, key: T -> string, seen: set<string>): (r: seq<T>)
    ensures |r| <= |s|
  {
    if s == [] then []
    else if key(s[0]) in seen then Dedupe(s[1..], key, seen)
    else [s[0]] + Dedupe(s[1..], key, seen + {key(s[0])})
  }

  /** Dedupe keeps only elements it was given. */
  lemma {:induction false} DedupeFrom<T>(s: seq<T>, key: T -> string, seen: set<string>, g: T)
    requires g in Dedupe(s, key, seen)
    ensures g in s
  {
    if s != [] {
      var k0 := key(s[0]);
      if k0 in seen {
        DedupeFrom(s[1..], key, seen, g);
      } else if g != s[0] {
        DedupeFrom(s[1..], key, seen + {k0}, g);
      }
    }
  }

  /** No kept element has a key that was already seen. */
  lemma {:induction false} DedupeFresh<T>(s: seq<T>, key: T -> string, seen: set<string>)
    ensures forall i :: 0 <= i < |Dedupe(s, key, seen)| ==> key(Dedupe(s, key, seen)[i]) !in seen
  {
    if s != [] {
      var k0 := key(s[0]);
      if k0 in seen {
        DedupeFresh(s[1..], key, seen);
      } else {
        DedupeFresh(s[1..], key, seen + {k0});
      }
    }
  }

  /** The kept elements have pairwise distinct keys. */
  lemma {:induction false} DedupeDistinct<T>(s: seq<T>, key: T -> string, seen: set<string>)
    ensures forall i, j :: 0 <= i < j < |Dedupe(s, key, seen)| ==>
              key(Dedupe(s, key, seen)[i]) != key(Dedupe(s, key, seen)[j])
  {
    if s != [] {
      var k0 := key(s[0]);
      if k0 in seen {
        DedupeDistinct(s[1..], key, seen);
      } else {
        var rest := Dedupe(s[1..], key, seen + {k0});
        DedupeDistinct(s[1..], key, seen + {k0});
        DedupeFresh(s[1..], key, seen + {k0});
        var d := Dedupe(s, key, seen);
        assert d == [s[0]] + rest;
        forall i, j | 0 <= i < j < |d| ensures key(d[i]) != key(d[j]) {
          assert d[j] == rest[j - 1];
          if i > 0 {
            assert d[i] == rest[i - 1];
          }
        }
      }
    }
  }

  /** Every element given whose key was not seen has its key among the kept elements. */
  lemma {:induction false} DedupeComplete<T>(s: seq<T>, key: T -> string, seen: set<string>, g: T)
    requires g in s && key(g) !in seen
    ensures exists k :: 0 <= k < |Dedupe(s, key, seen)| && key(Dedupe(s, key, seen)[k]) == key(g)
  {
    var k0 := key(s[0]);
    var d := Dedupe(s, key, seen);
    if k0 !in seen && key(g) == k0 {
      assert d[0] == s[0];
    } else {
      assert s == [s[0]] + s[1..];
      assert g in s[1..];
      if k0 in seen {
        DedupeComplete(s[1..], key, seen, g);
      } else {
        DedupeComplete(s[1..], key, seen + {k0}, g);
        var rest := Dedupe(s[1..], key, seen + {k0});
        var k :| 0 <= k < |rest| && key(rest[k]) == key(g);
        assert d[k + 1] == rest[k];
      }
    }
  }

  /** One step of Dedupe from position i. */
  lemma DedupeStep<T>(s: seq<T>, key: T -> string, seen: set<string>, i: int)
    requires 0 <= i < |s|
    ensures Dedupe(s[i..], key, seen) ==
              if key(s[i]) in seen then Dedupe(s[i + 1..], key, seen)
              else [s[i]] + Dedupe(s[i + 1..], key, seen + {key(s[i])})
  {
    assert s[i..][1..] == s[i + 1..];
  }

  /**
   * AllOrientations returns at most eight shapes with distinct keys, starting
   * with the piece itself; each is one of the eight candidates, and every
   * candidate's shape is among them.
   */
  lemma OrientationsMeans(p: Piece)
    ensures var u := Dedupe(Candidates(p), ShapeKey, {});
            && 1 <= |u| <= 8 && u[0] == p
            && (forall g :: g in u ==> g in Candidates(p))
            && (forall i, j :: 0 <= i < j < |u| ==> ShapeKey(u[i]) != ShapeKey(u[j]))
            && (forall g :: g in Candidates(p) ==>
                  exists k :: 0 <= k < |u| && ShapeKey(u[k]) == ShapeKey(g))
  {
    var c := Candidates(p);
    var u := Dedupe(c, ShapeKey, {});
    assert u[0] == p;
    forall g | g in u ensures g in c {
      DedupeFrom(c, ShapeKey, {}, g);
    }
    DedupeDistinct(c, ShapeKey, {});
    forall g | g in c ensures exists k :: 0 <= k < |u| && ShapeKey(u[k]) == ShapeKey(g) {
      DedupeComplete(c, ShapeKey, {}, g);
    }
  }

  /** g is a normal piece with p's id and area, and p's size or p's size swapped. */
  predicate OrientationOf(g: Piece, p: Piece)
  {
    && Normal(g) && g.id == p.id && g.area == p.area
    && ((g.width == p.width && g.height == p.height) || (g.width == p.height && g.height == p.width))
  }

  /** Turning or mirroring an orientation of p gives an orientation of p. */
  lemma OrientationSteps(g: Piece, p: Piece)
    requires OrientationOf(g, p)
    ensures OrientationOf(Rotated(g), p) && OrientationOf(Flipped(g), p)
  {
    RotatedShape(g);
    FlippedShape(g);
  }

  /**
   * For a normal piece each of the eight candidates is normal, keeps the id
   * and the area, and has the same or the swapped size.
   */
  lemma CandidateShape(p: Piece, k: int)
    requires Normal(p) && 0 <= k < 8
    ensures OrientationOf(Candidates(p)[k], p)
  {
    var n := if k < 4 then k else k - 4;
    RotationOrientation(p, n);
    if k >= 4 {
      OrientationSteps(Turns(p, n), p);
    }
  }

  /** The piece turned n times. */
  function Turns(p: Piece, n: nat): Piece
  { if n == 0 then p else Rotated(Turns(p, n - 1)) }

  /** Every number of quarter turns of a normal piece gives an orientation of it. */
  lemma {:induction false} RotationOrientation(p: Piece, n: nat)
    requires Normal(p)
    ensures OrientationOf(Turns(p, n), p)
  {
    if n == 0 {
      assert OrientationOf(p, p);
    } else {
      RotationOrientation(p, n - 1);
      OrientationSteps(Turns(p, n - 1), p);
    }
  }

  /** Keep the first piece of each key, tracking the keys in a seen set. */
  method DedupeByKey(all: seq<Piece>) returns (unique: seq<Piece>)
    ensures unique == Dedupe(all, ShapeKey, {})
  {
    var seen: set<string> := {};
    unique := [];
    var i := 0;
    while i < |all|
      invariant 0 <= i <= |all|
      invariant unique + Dedupe(all[i..], ShapeKey, seen) == Dedupe(all, ShapeKey, {})
    {
      var key := PieceKey(all[i].cells);
      DedupeStep(all, ShapeKey, seen, i);
      if key !in seen {
        ghost var later := Dedupe(all[i + 1..], ShapeKey, seen + {key});
        assert (unique + [all[i]]) + later == unique + ([all[i]] + later);
        seen := seen + {key};
        unique := unique + [all[i]];
      }
      i := i + 1;
    }
  }

  /** The mirror-image loop of AllOrientations: the pieces, then each of them mirrored. */
  method AppendFlips(versions: seq<Piece>) returns (all: seq<Piece>)
    ensures all == versions + seq(|versions|, k requires 0 <= k < |versions| => Flipped(versions[k]))
  {
    all := versions;
    var v := 0;
    while v < |versions|
      invariant 0 <= v <= |versions|
      invariant all == versions + seq(v, k requires 0 <= k < v => Flipped(versions[k]))
    {
      var f := FlipHorizontal(versions[v]);
      all := all + [f];
      v := v + 1;
    }
  }

  /** AllOrientations: three turns, a mirror image of each rotation, then de-duplication by key. */
  method AllOrientations(p: Piece) returns (unique: seq<Piece>)
    ensures unique == Dedupe(Candidates(p), ShapeKey, {})
  {
    var r1 := Rotate90(p);
    assert r1 == Turns(p, 1);
    var r2 := Rotate90(r1);
    assert r2 == Turns(p, 2);
    var r3 := Rotate90(r2);
    assert r3 == Turns(p, 3);
    var versions := [p, r1, r2, r3];
    var all := AppendFlips(versions);
    assert versions == seq(4, k requires 0 <= k < 4 => Turns(p, k));
    forall k | 0 <= k < 8 ensures all[k] == Candidates(p)[k] {
      if k >= 4 {
        assert all[k] == Flipped(versions[k - 4]);
      }
    }
    assert all == Candidates(p);
    unique := DedupeByKey(all);
  }
}
