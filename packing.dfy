/**
 * The 2025/12 packing search: every placement of every orientation of every
 * piece on a board, and a backtracking search that places the required
 * number of copies of each piece type on an occupancy grid, marking and
 * clearing cells and counting down the copies still to place.
 */
module Packing {
  import opened Pieces

  /** One way to put a piece on the board: the board cells it covers. */
  datatype Placement = Placement(pieceId: int, covers: seq<Point>)

  /** A board and how many copies of each piece id it must hold. */
  datatype Board = Board(width: int, height: int, pieceCounts: map<int, int>)

  /** A Go map read: a missing key reads as zero. */
  function Count(m: map<int, int>, k: int): int
  { if k in m then m[k] else 0 }

  /** A Go map read: a missing key reads as an empty slice. */
  function IndicesOf(m: map<int, seq<int>>, k: int): seq<int>
  { if k in m then m[k] else [] }

  // ---------------------------------------------------------------------------
  // The occupancy grid
  // ---------------------------------------------------------------------------

  predicate InBounds(p: Point, w: int, h: int)
  { 0 <= p.x < w && 0 <= p.y < h }

  predicate AllInBounds(c: seq<Point>, w: int, h: int)
  { forall i :: 0 <= i < |c| ==> InBounds(c[i], w, h) }

  /** h rows of w cells each, indexed [y][x]. */
  predicate Shaped(g: seq<seq<bool>>, w: int, h: int)
  { |g| == h && forall y :: 0 <= y < |g| ==> |g[y]| == w }

  /** Every covered cell is on the board and not yet occupied. */
  predicate Fits(g: seq<seq<bool>>, c: seq<Point>, w: int, h: int)
    requires Shaped(g, w, h)
  { forall i :: 0 <= i < |c| ==> InBounds(c[i], w, h) && !g[c[i].y][c[i].x] }

  function SetCell(g: seq<seq<bool>>, p: Point, v: bool): seq<seq<bool>>
    requires 0 <= p.y < |g| && 0 <= p.x < |g[p.y]|
  { g[p.y := g[p.y][p.x := v]] }

  /** The grid with every covered cell set to v, one cell after another. */
  function Marked(g: seq<seq<bool>>, c: seq<Point>, v: bool, w: int, h: int): (r: seq<seq<bool>>)
    requires Shaped(g, w, h) && AllInBounds(c, w, h)
    ensures Shaped(r, w, h)
  {
    if c == [] then g
    else SetCell(Marked(g, c[..|c| - 1], v, w, h), c[|c| - 1], v)
  }

  /** After marking, a cell holds v if it is covered and is unchanged otherwise. */
  lemma {:induction false} MarkedAt(g: seq<seq<bool>>, c: seq<Point>, v: bool, w: int, h: int, x: int, y: int)
    requires Shaped(g, w, h) && AllInBounds(c, w, h) && 0 <= x < w && 0 <= y < h
    ensures Marked(g, c, v, w, h)[y][x] == if Point(x, y) in c then v else g[y][x]
  {
    if c != [] {
      var init := c[..|c| - 1];
      MarkedAt(g, init, v, w, h, x, y);
      assert c == init + [c[|c| - 1]];
    }
  }

  /**
   * Clearing the cells a fitting placement marked gives back the grid: the
   * grid half of undoPlacement after applyPlacement.
   */
  lemma ClearAfterMark(g: seq<seq<bool>>, c: seq<Point>, w: int, h: int)
    requires Shaped(g, w, h) && Fits(g, c, w, h)
    ensures Marked(Marked(g, c, true, w, h), c, false, w, h) == g
  {
    var m := Marked(g, c, true, w, h);
    var r := Marked(m, c, false, w, h);
    forall y | 0 <= y < h ensures r[y] == g[y] {
      forall x | 0 <= x < w ensures r[y][x] == g[y][x] {
        MarkedAt(m, c, false, w, h, x, y);
        MarkedAt(g, c, true, w, h, x, y);
        if Point(x, y) in c {
          var i :| 0 <= i < |c| && c[i] == Point(x, y);
        }
      }
    }
  }

  /**
   * Counting a copy down and back up restores the remaining counts, provided
   * the piece had an entry: the count half of undoPlacement after
   * applyPlacement.
   */
  lemma CountBackUp(m: map<int, int>, id: int)
    requires id in m
    ensures var down := m[id := Count(m, id) - 1];
            down[id := Count(down, id) + 1] == m
  {
  }

  // ---------------------------------------------------------------------------
  // PrecomputePlacements
  // ---------------------------------------------------------------------------

  /** The board cells an orientation covers with its top-left corner at (x, y). */
  function Cover(g: Piece, x: int, y: int): (r: seq<Point>)
    ensures |r| == |g.cells|
  { seq(|g.cells|, i requires 0 <= i < |g.cells| => Point(x + g.cells[i].x, y + g.cells[i].y)) }

  /** How many times `for v := 0; v <= last; v++` runs. */
  function Runs(last: int): nat
  { if last < 0 then 0 else last + 1 }

  /** The placements of one orientation along row y, at x = 0 .. n - 1. */
  function Row(id: int, g: Piece, y: int, n: nat): (r: seq<Placement>)
    ensures |r| == n
  { seq(n, x requires 0 <= x < n => Placement(id, Cover(g, x, y))) }

  /** The placements of one orientation in rows 0 .. rows - 1, each row n wide. */
  function Rows(id: int, g: Piece, n: nat, rows: nat): seq<Placement>
  { if rows == 0 then [] else Rows(id, g, n, rows - 1) + Row(id, g, rows - 1, n) }

  /** Every position of one orientation on a w by h board, row by row. */
  function Positions(id: int, g: Piece, w: int, h: int): seq<Placement>
  { Rows(id, g, Runs(w - g.width), Runs(h - g.height)) }

  /** Every position of each orientation in turn. */
  function OrientationPlacements(id: int, os: seq<Piece>, w: int, h: int): seq<Placement>
  {
    if os == [] then []
    else OrientationPlacements(id, os[..|os| - 1], w, h) + Positions(id, os[|os| - 1], w, h)
  }

  /** The orientations AllOrientations returns. */
  function Orientations(p: Piece): seq<Piece>
  { Dedupe(Candidates(p), ShapeKey, {}) }

  /** What PrecomputePlacements returns: for each piece, every position of every orientation. */
  function AllPlacements(pieces: seq<Piece>, w: int, h: int): seq<Placement>
  {
    if pieces == [] then []
    else
      var p := pieces[|pieces| - 1];
      AllPlacements(pieces[..|pieces| - 1], w, h) + OrientationPlacements(p.id, Orientations(p), w, h)
  }

  /** Every cell covered by every placement lies on the board. */
  predicate OnBoard(ps: seq<Placement>, w: int, h: int)
  { forall k :: 0 <= k < |ps| ==> AllInBounds(ps[k].covers, w, h) }

  lemma OnBoardJoin(a: seq<Placement>, b: seq<Placement>, w: int, h: int)
    requires OnBoard(a, w, h) && OnBoard(b, w, h)
    ensures OnBoard(a + b, w, h)
  {
    forall k | 0 <= k < |a + b| ensures AllInBounds((a + b)[k].covers, w, h) {
      if k < |a| {
        assert (a + b)[k] == a[k];
      } else {
        assert (a + b)[k] == b[k - |a|];
      }
    }
  }

  /** A row of a normal orientation that fits vertically lies on the board. */
  lemma RowOnBoard(id: int, g: Piece, y: int, w: int, h: int)
    requires Normal(g) && 0 <= y && y + g.height <= h
    ensures OnBoard(Row(id, g, y, Runs(w - g.width)), w, h)
  {
    var r := Row(id, g, y, Runs(w - g.width));
    forall k | 0 <= k < |r| ensures AllInBounds(r[k].covers, w, h) {
      assert r[k].covers == Cover(g, k, y);
      forall i | 0 <= i < |g.cells| ensures InBounds(Cover(g, k, y)[i], w, h) {
        assert 0 <= g.cells[i].x < g.width && 0 <= g.cells[i].y < g.height;
      }
    }
  }

  lemma {:induction false} RowsOnBoard(id: int, g: Piece, w: int, h: int, rows: nat)
    requires Normal(g) && rows <= Runs(h - g.height)
    ensures OnBoard(Rows(id, g, Runs(w - g.width), rows), w, h)
  {
    if rows > 0 {
      RowsOnBoard(id, g, w, h, rows - 1);
      RowOnBoard(id, g, rows - 1, w, h);
      OnBoardJoin(Rows(id, g, Runs(w - g.width), rows - 1), Row(id, g, rows - 1, Runs(w - g.width)), w, h);
    }
  }

  lemma {:induction false} OrientationPlacementsOnBoard(id: int, os: seq<Piece>, w: int, h: int)
    requires forall k :: 0 <= k < |os| ==> Normal(os[k])
    ensures OnBoard(OrientationPlacements(id, os, w, h), w, h)
  {
    if os != [] {
      var g := os[|os| - 1];
      OrientationPlacementsOnBoard(id, os[..|os| - 1], w, h);
      RowsOnBoard(id, g, w, h, Runs(h - g.height));
      OnBoardJoin(OrientationPlacements(id, os[..|os| - 1], w, h), Positions(id, g, w, h), w, h);
    }
  }

  /** The orientations of a normal piece are normal. */
  lemma OrientationsNormal(p: Piece)
    requires Normal(p)
    ensures forall k :: 0 <= k < |Orientations(p)| ==> Normal(Orientations(p)[k])
  {
    var os := Orientations(p);
    forall k | 0 <= k < |os| ensures Normal(os[k]) {
      DedupeFrom(Candidates(p), ShapeKey, {}, os[k]);
      var j :| 0 <= j < 8 && Candidates(p)[j] == os[k];
      CandidateShape(p, j);
    }
  }

  /**
   * Every cell covered by a precomputed placement lies inside the board,
   * for pieces built by NewPiece.
   */
  lemma {:induction false} AllPlacementsOnBoard(pieces: seq<Piece>, w: int, h: int)
    requires forall k :: 0 <= k < |pieces| ==> Normal(pieces[k])
    ensures OnBoard(AllPlacements(pieces, w, h), w, h)
  {
    if pieces != [] {
      var p := pieces[|pieces| - 1];
      AllPlacementsOnBoard(pieces[..|pieces| - 1], w, h);
      OrientationsNormal(p);
      OrientationPlacementsOnBoard(p.id, Orientations(p), w, h);
      OnBoardJoin(AllPlacements(pieces[..|pieces| - 1], w, h),
                  OrientationPlacements(p.id, Orientations(p), w, h), w, h);
    }
  }

  /** The innermost loop of PrecomputePlacements: the cells covered at (x, y). */
  method CoversAt(g: Piece, x: int, y: int) returns (covers: seq<Point>)
    ensures covers == Cover(g, x, y)
  {
    covers := [];
    var i := 0;
    while i < |g.cells|
      invariant 0 <= i <= |g.cells|
      invariant covers == Cover(g, x, y)[..i]
    {
      covers := covers + [Point(x + g.cells[i].x, y + g.cells[i].y)];
      i := i + 1;
    }
  }

  /** The x loop of PrecomputePlacements. */
  method PlaceRow(id: int, g: Piece, y: int, w: int) returns (ps: seq<Placement>)
    ensures ps == Row(id, g, y, Runs(w - g.width))
  {
    ps := [];
    var x := 0;
    while x <= w - g.width
      invariant 0 <= x <= Runs(w - g.width)
      invariant ps == Row(id, g, y, x)
      decreases w - g.width - x
    {
      var covers := CoversAt(g, x, y);
      ps := ps + [Placement(id, covers)];
      x := x + 1;
    }
  }

  /** The y loop of PrecomputePlacements. */
  method PlaceOrientation(id: int, g: Piece, w: int, h: int) returns (ps: seq<Placement>)
    ensures ps == Positions(id, g, w, h)
  {
    ps := [];
    var y := 0;
    while y <= h - g.height
      invariant 0 <= y <= Runs(h - g.height)
      invariant ps == Rows(id, g, Runs(w - g.width), y)
      decreases h - g.height - y
    {
      var row := PlaceRow(id, g, y, w);
      ps := ps + row;
      y := y + 1;
    }
  }

  /** The orientation loop of PrecomputePlacements. */
  method PlacePiece(piece: Piece, w: int, h: int) returns (ps: seq<Placement>)
    ensures ps == OrientationPlacements(piece.id, Orientations(piece), w, h)
  {
    var os := AllOrientations(piece);
    ps := [];
    var k := 0;
    while k < |os|
      invariant 0 <= k <= |os|
      invariant ps == OrientationPlacements(piece.id, os[..k], w, h)
    {
      assert os[..k + 1][..k] == os[..k];
      var more := PlaceOrientation(piece.id, os[k], w, h);
      ps := ps + more;
      k := k + 1;
    }
    assert os[..|os|] == os;
  }

  /** PrecomputePlacements: every position of every orientation of every piece, piece by piece. */
  method PrecomputePlacements(pieces: seq<Piece>, board: Board) returns (placements: seq<Placement>)
    ensures placements == AllPlacements(pieces, board.width, board.height)
  {
    placements := [];
    var k := 0;
    while k < |pieces|
      invariant 0 <= k <= |pieces|
      invariant placements == AllPlacements(pieces[..k], board.width, board.height)
    {
      assert pieces[..k + 1][..k] == pieces[..k];
      var more := PlacePiece(pieces[k], board.width, board.height);
      placements := placements + more;
      k := k + 1;
    }
    assert pieces[..|pieces|] == pieces;
  }

  // ---------------------------------------------------------------------------
  // Setting up the search
  // ---------------------------------------------------------------------------

  /** An all-free grid of h rows of w cells. */
  function EmptyGrid(w: nat, h: nat): (r: seq<seq<bool>>)
    ensures Shaped(r, w, h)
    ensures forall y, x :: 0 <= y < h && 0 <= x < w ==> !r[y][x]
  { seq(h, _ => seq(w, _ => false)) }

  /** PiecePlacementIdx: for each piece id, the positions of its placements. */
  function IndexByPiece(ps: seq<Placement>): map<int, seq<int>>
  {
    if ps == [] then map[]
    else
      var m := IndexByPiece(ps[..|ps| - 1]);
      var id := ps[|ps| - 1].pieceId;
      m[id := IndicesOf(m, id) + [|ps| - 1]]
  }

  /** Each position listed under a piece id holds a placement of that piece. */
  lemma {:induction false} IndexSound(ps: seq<Placement>, id: int, j: int)
    requires 0 <= j < |IndicesOf(IndexByPiece(ps), id)|
    ensures 0 <= IndicesOf(IndexByPiece(ps), id)[j] < |ps|
    ensures ps[IndicesOf(IndexByPiece(ps), id)[j]].pieceId == id
  {
    if ps != [] {
      var init := ps[..|ps| - 1];
      var m := IndexByPiece(init);
      if !(ps[|ps| - 1].pieceId == id && j == |IndicesOf(m, id)|) {
        IndexSound(init, id, j);
      }
    }
  }

  /** Every placement is listed under its own piece id. */
  lemma {:induction false} IndexComplete(ps: seq<Placement>, k: int)
    requires 0 <= k < |ps|
    ensures k in IndicesOf(IndexByPiece(ps), ps[k].pieceId)
  {
    var init := ps[..|ps| - 1];
    if k < |ps| - 1 {
      IndexComplete(init, k);
      assert init[k] == ps[k];
    }
  }

  /** The positions under each piece id are listed in increasing order. */
  lemma {:induction false} IndexAscending(ps: seq<Placement>, id: int, i: int, j: int)
    requires 0 <= i < j < |IndicesOf(IndexByPiece(ps), id)|
    ensures IndicesOf(IndexByPiece(ps), id)[i] < IndicesOf(IndexByPiece(ps), id)[j]
  {
    if ps != [] {
      var init := ps[..|ps| - 1];
      var m := IndexByPiece(init);
      if ps[|ps| - 1].pieceId == id && j == |IndicesOf(m, id)| {
        IndexSound(init, id, i);
      } else {
        IndexAscending(init, id, i, j);
      }
    }
  }

  lemma IndexByPieceOk(ps: seq<Placement>)
    ensures IndexOk(IndexByPiece(ps), |ps|)
  {
    var idx := IndexByPiece(ps);
    forall id, j | id in idx && 0 <= j < |idx[id]| ensures 0 <= idx[id][j] < |ps| {
      IndexSound(ps, id, j);
    }
  }

  /** The loop of SolveWithBacktracking that builds PiecePlacementIdx. */
  method IndexPlacements(placements: seq<Placement>) returns (idx: map<int, seq<int>>)
    ensures idx == IndexByPiece(placements)
  {
    idx := map[];
    var k := 0;
    while k < |placements|
      invariant 0 <= k <= |placements|
      invariant idx == IndexByPiece(placements[..k])
    {
      assert placements[..k + 1][..k] == placements[..k];
      var id := placements[k].pieceId;
      idx := idx[id := IndicesOf(idx, id) + [k]];
      k := k + 1;
    }
    assert placements[..|placements|] == placements;
  }

  /** The loop of SolveWithBacktracking that collects the ids with a positive count, in map order. */
  method PositiveIds(remaining: map<int, int>) returns (ids: seq<int>)
    ensures forall id :: id in ids <==> id in remaining && remaining[id] > 0
    ensures forall i, j :: 0 <= i < j < |ids| ==> ids[i] != ids[j]
  {
    ids := [];
    var keys := remaining.Keys;
    while keys != {}
      invariant keys <= remaining.Keys
      invariant forall id :: id in ids <==> id in remaining && id !in keys && remaining[id] > 0
      invariant forall i, j :: 0 <= i < j < |ids| ==> ids[i] != ids[j]
      decreases |keys|
    {
      if forall y :: y !in keys {
        // a non-empty set has an element
        assert false;
      }
      var id :| id in keys;
      if remaining[id] > 0 {
        ids := ids + [id];
      }
      keys := keys - {id};
    }
  }

  /** The sort key of PieceOrder: how many placements a piece id has. */
  function Choices(idx: map<int, seq<int>>, id: int): nat
  { |IndicesOf(idx, id)| }

  /** Ordered by non-decreasing number of placements, fewest first. */
  predicate ByChoices(idx: map<int, seq<int>>, s: seq<int>)
  { forall i, j :: 0 <= i < j < |s| ==> Choices(idx, s[i]) <= Choices(idx, s[j]) }

  function InsertByChoices(idx: map<int, seq<int>>, id: int, s: seq<int>): (r: seq<int>)
    ensures multiset(r) == multiset(s) + multiset{id}
  {
    if s == [] then [id]
    else if Choices(idx, id) <= Choices(idx, s[0]) then [id] + s
    else
      assert s == [s[0]] + s[1..];
      [s[0]] + InsertByChoices(idx, id, s[1..])
  }

  /** What is inserted after the head of a sorted list has at least the head's count. */
  lemma InsertedAfterHead(idx: map<int, seq<int>>, id: int, s: seq<int>, k: int)
    requires ByChoices(idx, s) && s != [] && Choices(idx, id) > Choices(idx, s[0])
    requires 0 <= k < |InsertByChoices(idx, id, s[1..])|
    ensures Choices(idx, s[0]) <= Choices(idx, InsertByChoices(idx, id, s[1..])[k])
  {
    var rest := InsertByChoices(idx, id, s[1..]);
    assert rest[k] in multiset(rest);
    if rest[k] != id {
      assert rest[k] in multiset(s[1..]);
      var m :| 0 <= m < |s[1..]| && s[1..][m] == rest[k];
      assert s[m + 1] == rest[k];
    }
  }

  lemma {:induction false} InsertByChoicesSorted(idx: map<int, seq<int>>, id: int, s: seq<int>)
    requires ByChoices(idx, s)
    ensures ByChoices(idx, InsertByChoices(idx, id, s))
  {
    if s != [] && Choices(idx, id) > Choices(idx, s[0]) {
      var rest := InsertByChoices(idx, id, s[1..]);
      InsertByChoicesSorted(idx, id, s[1..]);
      var r := [s[0]] + rest;
      forall i, j | 0 <= i < j < |r| ensures Choices(idx, r[i]) <= Choices(idx, r[j]) {
        assert r[j] == rest[j - 1];
        if i == 0 {
          InsertedAfterHead(idx, id, s, j - 1);
        } else {
          assert r[i] == rest[i - 1];
        }
      }
    } else if s != [] {
      var r := [id] + s;
      forall i, j | 0 <= i < j < |r| ensures Choices(idx, r[i]) <= Choices(idx, r[j]) {
        assert r[j] == s[j - 1];
        if i > 0 {
          assert r[i] == s[i - 1];
        }
      }
    }
  }

  function SortByChoices(idx: map<int, seq<int>>, s: seq<int>): (r: seq<int>)
    ensures multiset(r) == multiset(s)
  {
    if s == [] then []
    else
      assert s == [s[0]] + s[1..];
      InsertByChoices(idx, s[0], SortByChoices(idx, s[1..]))
  }

  lemma {:induction false} SortByChoicesSorted(idx: map<int, seq<int>>, s: seq<int>)
    ensures ByChoices(idx, SortByChoices(idx, s))
  {
    if s != [] {
      SortByChoicesSorted(idx, s[1..]);
      InsertByChoicesSorted(idx, s[0], SortByChoices(idx, s[1..]));
    }
  }

  /**
   * The sort.Slice call of SolveWithBacktracking: some rearrangement of the
   * ids with the fewest placements first. Go's sort is not stable, so only
   * this much is promised about the order of ids with equal counts.
   */
  method OrderPieces(idx: map<int, seq<int>>, ids: seq<int>) returns (order: seq<int>)
    ensures multiset(order) == multiset(ids)
    ensures ByChoices(idx, order)
  {
    order := SortByChoices(idx, ids);
    SortByChoicesSorted(idx, ids);
  }

  /** The cells covered by a list of placements, one placement after another. */
  function Covered(ps: seq<Placement>): seq<Point>
  { if ps == [] then [] else Covered(ps[..|ps| - 1]) + ps[|ps| - 1].covers }

  /** How many of the placements are copies of piece id. */
  function Copies(ps: seq<Placement>, id: int): nat
  {
    if ps == [] then 0
    else Copies(ps[..|ps| - 1], id) + (if ps[|ps| - 1].pieceId == id then 1 else 0)
  }

  /** No placement covers a cell that an earlier placement covers. */
  ghost predicate Disjoint(ps: seq<Placement>)
  {
    forall j, l :: 0 <= j < |ps| && 0 <= l < |ps[j].covers| ==> ps[j].covers[l] !in Covered(ps[..j])
  }

  /**
   * A solution of a board: placements drawn from `all` that stay on the
   * board, never share a cell, and use exactly the required number of
   * copies of each piece id (none of an id whose count is not positive).
   */
  ghost predicate PackingOf(ps: seq<Placement>, all: seq<Placement>, w: int, h: int, counts: map<int, int>)
  {
    && (forall k :: 0 <= k < |ps| ==> ps[k] in all)
    && AllInBounds(Covered(ps), w, h)
    && Disjoint(ps)
    && (forall id :: Copies(ps, id) == if id in counts && counts[id] > 0 then counts[id] else 0)
  }

  /**
   * The bookkeeping the search keeps: the grid marks exactly the cells of
   * the placements applied so far, and the remaining counts are the
   * starting counts less the copies applied, never driven below zero by a
   * piece that has been placed.
   */
  ghost predicate Books(g: seq<seq<bool>>, rem: map<int, int>, placed: seq<Placement>,
                        start: map<int, int>, all: seq<Placement>, w: int, h: int)
  {
    && 0 <= w && 0 <= h
    && AllInBounds(Covered(placed), w, h)
    && g == Marked(EmptyGrid(w, h), Covered(placed), true, w, h)
    && rem.Keys == start.Keys
    && (forall k :: 0 <= k < |placed| ==> placed[k] in all && placed[k].pieceId in start)
    && (forall id :: id in start ==>
          rem[id] == start[id] - Copies(placed, id) && (Copies(placed, id) == 0 || rem[id] >= 0))
    && Disjoint(placed)
  }

  /** Marking two lists of cells one after the other marks their concatenation. */
  lemma {:induction false} MarkedJoin(g: seq<seq<bool>>, a: seq<Point>, b: seq<Point>, w: int, h: int)
    requires Shaped(g, w, h) && AllInBounds(a, w, h) && AllInBounds(b, w, h)
    ensures AllInBounds(a + b, w, h)
    ensures Marked(g, a + b, true, w, h) == Marked(Marked(g, a, true, w, h), b, true, w, h)
  {
    assert forall i :: 0 <= i < |a + b| ==> (a + b)[i] == if i < |a| then a[i] else b[i - |a|];
    if b == [] {
      assert a + b == a;
    } else {
      var init := b[..|b| - 1];
      MarkedJoin(g, a, init, w, h);
      assert (a + b)[..|a + b| - 1] == a + init;
    }
  }

  /** A piece id some placement is a copy of. */
  lemma {:induction false} CopiesFrom(ps: seq<Placement>, id: int)
    requires Copies(ps, id) > 0
    ensures exists k :: 0 <= k < |ps| && ps[k].pieceId == id
  {
    var init := ps[..|ps| - 1];
    if ps[|ps| - 1].pieceId != id {
      CopiesFrom(init, id);
      var k :| 0 <= k < |init| && init[k].pieceId == id;
      assert ps[k] == init[k];
    }
  }

  /**
   * applyPlacement, as the search calls it (the placement fits and a copy
   * remains), keeps the bookkeeping with the placement appended.
   */
  lemma BooksAfterApply(g: seq<seq<bool>>, rem: map<int, int>, placed: seq<Placement>,
                        start: map<int, int>, all: seq<Placement>, w: int, h: int, pl: Placement)
    requires Books(g, rem, placed, start, all, w, h)
    requires pl in all && Fits(g, pl.covers, w, h) && HasRemaining(rem, pl)
    ensures Books(Marked(g, pl.covers, true, w, h), rem[pl.pieceId := Count(rem, pl.pieceId) - 1],
                  placed + [pl], start, all, w, h)
  {
    var p2 := placed + [pl];
    assert p2[..|placed|] == placed;
    assert Covered(p2) == Covered(placed) + pl.covers;
    MarkedJoin(EmptyGrid(w, h), Covered(placed), pl.covers, w, h);
    forall j, l | 0 <= j < |p2| && 0 <= l < |p2[j].covers| ensures p2[j].covers[l] !in Covered(p2[..j]) {
      if j < |placed| {
        assert p2[..j] == placed[..j];
      } else {
        var c := pl.covers[l];
        MarkedAt(EmptyGrid(w, h), Covered(placed), true, w, h, c.x, c.y);
      }
    }
  }

  /** A search that ends with nothing left to place holds a solution of the board. */
  lemma BooksPacking(g: seq<seq<bool>>, rem: map<int, int>, placed: seq<Placement>,
                     start: map<int, int>, all: seq<Placement>, w: int, h: int)
    requires Books(g, rem, placed, start, all, w, h) && AllPlaced(rem)
    ensures PackingOf(placed, all, w, h, start)
  {
    forall id ensures Copies(placed, id) == if id in start && start[id] > 0 then start[id] else 0 {
      if id !in start && Copies(placed, id) > 0 {
        CopiesFrom(placed, id);
      }
    }
  }

  // ---------------------------------------------------------------------------
  // Search state
  // ---------------------------------------------------------------------------

  /** Every listed index is a position in a list of n placements. */
  predicate IndexOk(idx: map<int, seq<int>>, n: int)
  { forall id, j :: id in idx && 0 <= j < |idx[id]| ==> 0 <= idx[id][j] < n }

  /**
   * The mutable state of one board's search. The board size, the placements,
   * the placement index and the piece order are fixed once built; the grid
   * and the remaining counts change as placements are applied and undone.
   */
  class SearchState {
    const boardWidth: int
    const boardHeight: int
    var occupied: seq<seq<bool>>
    var remaining: map<int, int>
    const placements: seq<Placement>
    const piecePlacementIdx: map<int, seq<int>>
    const pieceOrder: seq<int>
    /** The placements applied so far, in order, and the counts the search started from. */
    ghost var placed: seq<Placement>
    ghost const start: map<int, int>

    predicate Valid()
      reads this
    {
      Shaped(occupied, boardWidth, boardHeight) && IndexOk(piecePlacementIdx, |placements|)
    }

    ghost predicate Consistent()
      reads this
    {
      Valid() && Books(occupied, remaining, placed, start, placements, boardWidth, boardHeight)
    }

    /** The search state of a fresh board: an empty grid and the board's counts. */
    constructor (w: nat, h: nat, remaining: map<int, int>,
                 placements: seq<Placement>, idx: map<int, seq<int>>, order: seq<int>)
      requires IndexOk(idx, |placements|)
      ensures Consistent()
      ensures boardWidth == w && boardHeight == h && occupied == EmptyGrid(w, h)
      ensures this.remaining == remaining && this.placements == placements
      ensures piecePlacementIdx == idx && pieceOrder == order
      ensures placed == [] && start == remaining
    {
      boardWidth, boardHeight := w, h;
      occupied, this.remaining := EmptyGrid(w, h), remaining;
      this.placements, piecePlacementIdx, pieceOrder := placements, idx, order;
      placed, start := [], remaining;
    }
  }

  /** placementHasRemaining: at least one copy of the placement's piece is still to place. */
  function HasRemaining(remaining: map<int, int>, pl: Placement): (r: bool)
    ensures r <==> pl.pieceId in remaining && remaining[pl.pieceId] >= 1
  {
    !(Count(remaining, pl.pieceId) < 1)
  }

  /** isValidPlacement: stops at the first covered cell off the board or already occupied. */
  method IsValidPlacement(state: SearchState, placement: Placement) returns (ok: bool)
    requires state.Valid()
    ensures ok <==> Fits(state.occupied, placement.covers, state.boardWidth, state.boardHeight)
  {
    var i := 0;
    while i < |placement.covers|
      invariant 0 <= i <= |placement.covers|
      invariant forall k :: 0 <= k < i ==>
                  InBounds(placement.covers[k], state.boardWidth, state.boardHeight)
                  && !state.occupied[placement.covers[k].y][placement.covers[k].x]
    {
      var point := placement.covers[i];
      if point.x < 0 || point.x >= state.boardWidth || point.y < 0 || point.y >= state.boardHeight {
        return false;
      }
      if state.occupied[point.y][point.x] {
        return false;
      }
      i := i + 1;
    }
    return true;
  }

  /** applyPlacement: mark the covered cells and count one copy of the piece down. */
  method ApplyPlacement(state: SearchState, placement: Placement)
    requires state.Valid() && AllInBounds(placement.covers, state.boardWidth, state.boardHeight)
    modifies state
    ensures state.Valid()
    ensures state.occupied ==
              Marked(old(state.occupied), placement.covers, true, state.boardWidth, state.boardHeight)
    ensures state.remaining ==
              old(state.remaining)[placement.pieceId := Count(old(state.remaining), placement.pieceId) - 1]
    ensures state.placed == old(state.placed)
  {
    var c := placement.covers;
    var i := 0;
    while i < |c|
      invariant 0 <= i <= |c|
      invariant state.occupied == Marked(old(state.occupied), c[..i], true, state.boardWidth, state.boardHeight)
      invariant state.remaining == old(state.remaining) && state.placed == old(state.placed)
    {
      assert c[..i + 1][..i] == c[..i];
      state.occupied := SetCell(state.occupied, c[i], true);
      i := i + 1;
    }
    assert c[..|c|] == c;
    state.remaining := state.remaining[placement.pieceId := Count(state.remaining, placement.pieceId) - 1];
  }

  /** undoPlacement: clear the covered cells and count one copy of the piece back up. */
  method UndoPlacement(state: SearchState, placement: Placement)
    requires state.Valid() && AllInBounds(placement.covers, state.boardWidth, state.boardHeight)
    modifies state
    ensures state.Valid()
    ensures state.occupied ==
              Marked(old(state.occupied), placement.covers, false, state.boardWidth, state.boardHeight)
    ensures state.remaining ==
              old(state.remaining)[placement.pieceId := Count(old(state.remaining), placement.pieceId) + 1]
    ensures state.placed == old(state.placed)
  {
    var c := placement.covers;
    var i := 0;
    while i < |c|
      invariant 0 <= i <= |c|
      invariant state.occupied == Marked(old(state.occupied), c[..i], false, state.boardWidth, state.boardHeight)
      invariant state.remaining == old(state.remaining) && state.placed == old(state.placed)
    {
      assert c[..i + 1][..i] == c[..i];
      state.occupied := SetCell(state.occupied, c[i], false);
      i := i + 1;
    }
    assert c[..|c|] == c;
    state.remaining := state.remaining[placement.pieceId := Count(state.remaining, placement.pieceId) + 1];
  }

  /** Every piece type has nothing left to place. */
  predicate AllPlaced(remaining: map<int, int>)
  { forall id :: id in remaining ==> remaining[id] <= 0 }

  /** The final check of the search: no remaining count is positive, in whatever order the map is read. */
  method NothingRemains(remaining: map<int, int>) returns (ok: bool)
    ensures ok <==> AllPlaced(remaining)
  {
    var keys := remaining.Keys;
    while keys != {}
      invariant keys <= remaining.Keys
      invariant forall id :: id in remaining && id !in keys ==> remaining[id] <= 0
      decreases |keys|
    {
      if forall y :: y !in keys {
        // a non-empty set has an element
        assert false;
      }
      var id :| id in keys;
      if remaining[id] > 0 {
        return false;
      }
      keys := keys - {id};
    }
    return true;
  }

  /**
   * backtrackByPieceType: place the piece types of the piece order from
   * typeIndex on. Success leaves every remaining count at or below zero;
   * failure leaves the grid and the counts as they were.
   */
  method BacktrackByPieceType(state: SearchState, typeIndex: int) returns (r: bool)
    requires state.Consistent() && 0 <= typeIndex
    modifies state
    ensures state.Consistent()
    ensures r ==> AllPlaced(state.remaining)
    ensures !r ==> state.occupied == old(state.occupied) && state.remaining == old(state.remaining)
    ensures !r ==> state.placed == old(state.placed)
    decreases |state.pieceOrder| - typeIndex, 1, 0, 0
  {
    if typeIndex >= |state.pieceOrder| {
      r := NothingRemains(state.remaining);
      return;
    }
    var pieceId := state.pieceOrder[typeIndex];
    var needed := Count(state.remaining, pieceId);
    if needed <= 0 {
      r := BacktrackByPieceType(state, typeIndex + 1);
      return;
    }
    r := PlaceCopiesOfPiece(state, pieceId, typeIndex, 0, needed);
  }

  /**
   * placeCopiesOfPiece: choose placements for the remaining copies of one
   * piece type, each copy only among the placements after the previous
   * copy's, then go on to the next type. Success leaves every remaining
   * count at or below zero; failure undoes every placement it applied.
   */
  method PlaceCopiesOfPiece(state: SearchState, pieceId: int, typeIndex: int, startIdx: int, remaining: int)
    returns (r: bool)
    requires state.Consistent() && 0 <= typeIndex < |state.pieceOrder| && 0 <= startIdx
    modifies state
    ensures state.Consistent()
    ensures r ==> AllPlaced(state.remaining)
    ensures !r ==> state.occupied == old(state.occupied) && state.remaining == old(state.remaining)
    ensures !r ==> state.placed == old(state.placed)
    decreases |state.pieceOrder| - typeIndex, 0,
              if startIdx <= |IndicesOf(state.piecePlacementIdx, pieceId)|
              then |IndicesOf(state.piecePlacementIdx, pieceId)| - startIdx + 1 else 0, 0
  {
    if remaining == 0 {
      r := BacktrackByPieceType(state, typeIndex + 1);
      return;
    }
    var indices := IndicesOf(state.piecePlacementIdx, pieceId);
    var i := startIdx;
    while i < |indices|
      invariant startIdx <= i
      invariant state.Consistent()
      invariant state.occupied == old(state.occupied) && state.remaining == old(state.remaining)
      invariant state.placed == old(state.placed)
    {
      var plIndex := indices[i];
      var placement := state.placements[plIndex];
      if !HasRemaining(state.remaining, placement) {
        i := i + 1;
        continue;
      }
      var fits := IsValidPlacement(state, placement);
      if !fits {
        i := i + 1;
        continue;
      }
      var found := TryPlacement(state, pieceId, typeIndex, i, remaining, placement);
      if found {
        return true;
      }
      i := i + 1;
    }
    return false;
  }

  /**
   * One step of placeCopiesOfPiece: apply a fitting placement of the i-th
   * candidate, place the other copies after it, and undo it if that fails.
   */
  method TryPlacement(state: SearchState, pieceId: int, typeIndex: int, i: int, remaining: int,
                      placement: Placement)
    returns (r: bool)
    requires state.Consistent() && 0 <= typeIndex < |state.pieceOrder| && 0 <= i
    requires placement in state.placements && HasRemaining(state.remaining, placement)
    requires Fits(state.occupied, placement.covers, state.boardWidth, state.boardHeight)
    modifies state
    ensures state.Consistent()
    ensures r ==> AllPlaced(state.remaining)
    ensures !r ==> state.occupied == old(state.occupied) && state.remaining == old(state.remaining)
    ensures !r ==> state.placed == old(state.placed)
    decreases |state.pieceOrder| - typeIndex, 0,
              if i < |IndicesOf(state.piecePlacementIdx, pieceId)|
              then |IndicesOf(state.piecePlacementIdx, pieceId)| - i else 0, 1
  {
    ghost var grid, counts, before := state.occupied, state.remaining, state.placed;
    ApplyRecorded(state, placement);
    r := PlaceCopiesOfPiece(state, pieceId, typeIndex, i + 1, remaining - 1);
    if !r {
      UndoRecorded(state, placement, grid, counts, before);
    }
  }

  /** applyPlacement, with the placement recorded in the ghost list of placements applied. */
  method ApplyRecorded(state: SearchState, placement: Placement)
    requires state.Consistent()
    requires placement in state.placements && HasRemaining(state.remaining, placement)
    requires Fits(state.occupied, placement.covers, state.boardWidth, state.boardHeight)
    modifies state
    ensures state.Consistent()
    ensures state.occupied ==
              Marked(old(state.occupied), placement.covers, true, state.boardWidth, state.boardHeight)
    ensures state.remaining ==
              old(state.remaining)[placement.pieceId := Count(old(state.remaining), placement.pieceId) - 1]
    ensures state.placed == old(state.placed) + [placement]
  {
    BooksAfterApply(state.occupied, state.remaining, state.placed, state.start, state.placements,
                    state.boardWidth, state.boardHeight, placement);
    ApplyPlacement(state, placement);
    state.placed := state.placed + [placement];
  }

  /** undoPlacement after ApplyRecorded: everything is as before the placement was applied. */
  method UndoRecorded(state: SearchState, placement: Placement,
                      ghost grid: seq<seq<bool>>, ghost counts: map<int, int>, ghost before: seq<Placement>)
    requires Books(grid, counts, before, state.start, state.placements, state.boardWidth, state.boardHeight)
    requires state.Valid() && Shaped(grid, state.boardWidth, state.boardHeight)
    requires HasRemaining(counts, placement)
    requires Fits(grid, placement.covers, state.boardWidth, state.boardHeight)
    requires state.occupied == Marked(grid, placement.covers, true, state.boardWidth, state.boardHeight)
    requires state.remaining == counts[placement.pieceId := Count(counts, placement.pieceId) - 1]
    modifies state
    ensures state.Consistent()
    ensures state.occupied == grid && state.remaining == counts && state.placed == before
  {
    UndoPlacement(state, placement);
    ClearAfterMark(grid, placement.covers, state.boardWidth, state.boardHeight);
    CountBackUp(counts, placement.pieceId);
    state.placed := before;
  }

  /**
   * SolveWithBacktracking: build the search state for a board (an empty
   * grid, the board's counts, every placement, the placements of each piece
   * id, and the ids to place with the fewest placements first), then search.
   * A true answer comes with a solution of the board.
   */
  method SolveWithBacktracking(pieces: seq<Piece>, board: Board) returns (r: bool, ghost packing: seq<Placement>)
    requires 0 <= board.width && 0 <= board.height
    ensures r ==> PackingOf(packing, AllPlacements(pieces, board.width, board.height),
                            board.width, board.height, board.pieceCounts)
  {
    var placements := PrecomputePlacements(pieces, board);
    var idx := IndexPlacements(placements);
    IndexByPieceOk(placements);
    var ids := PositiveIds(board.pieceCounts);
    var order := OrderPieces(idx, ids);
    var state := new SearchState(board.width, board.height, board.pieceCounts, placements, idx, order);
    r := BacktrackByPieceType(state, 0);
    packing := state.placed;
    if r {
      BooksPacking(state.occupied, state.remaining, state.placed, state.start, state.placements,
                   state.boardWidth, state.boardHeight);
    }
  }
}
