/**
 * The paper-roll grid of 2025 day 4: '@' marks a roll of paper. A roll can
 * be taken by a forklift when fewer than four of the eight cells around it
 * hold rolls. The heat map stores, for every cell, how many rolls touch it.
 * The grid is a list of equally long rows, indexed grid[y][x].
 */
module PaperRolls {
  import opened Wrappers
  import GoMath

  datatype Coord = Coord(x: int, y: int)

  /** The eight offsets in the order Nearby tries them. */
  const Deltas: seq<Coord> := [
    Coord(-1, -1), Coord(0, -1), Coord(1, -1),
    Coord(-1, 0), Coord(1, 0),
    Coord(-1, 1), Coord(0, 1), Coord(1, 1)]

  predicate IsPaper(r: char) { r == '@' }

  /** q is one of the eight cells around c. */
  predicate Adjacent(c: Coord, q: Coord)
  {
    q != c && -1 <= q.x - c.x <= 1 && -1 <= q.y - c.y <= 1
  }

  /** q lies in [0, maxX] x [0, maxY]. */
  predicate Within(q: Coord, maxX: int, maxY: int)
  {
    0 <= q.x <= maxX && 0 <= q.y <= maxY
  }

  // ------------------------------------------------------------ Nearby

  /** The in-range cells c + Deltas[k] for k < i, in order. */
  function Around(c: Coord, maxX: int, maxY: int, i: nat): seq<Coord>
    requires i <= |Deltas|
  {
    if i == 0 then []
    else
      var q := Coord(c.x + Deltas[i - 1].x, c.y + Deltas[i - 1].y);
      Around(c, maxX, maxY, i - 1) + (if Within(q, maxX, maxY) then [q] else [])
  }

  /** The position of an offset in Deltas, or 8 when it is not one of them. */
  function DeltaIndex(d: Coord): (k: nat)
    ensures k <= |Deltas| && (k < |Deltas| ==> Deltas[k] == d)
  {
    if d == Coord(-1, -1) then 0 else if d == Coord(0, -1) then 1
    else if d == Coord(1, -1) then 2 else if d == Coord(-1, 0) then 3
    else if d == Coord(1, 0) then 4 else if d == Coord(-1, 1) then 5
    else if d == Coord(0, 1) then 6 else if d == Coord(1, 1) then 7
    else 8
  }

  lemma IndexOfDelta(k: nat)
    requires k < |Deltas|
    ensures DeltaIndex(Deltas[k]) == k
  {
  }

  function Offset(c: Coord, q: Coord): Coord
  {
    Coord(q.x - c.x, q.y - c.y)
  }

  lemma {:induction false} AroundFrom(c: Coord, maxX: int, maxY: int, i: nat)
    requires i <= |Deltas|
    ensures |Around(c, maxX, maxY, i)| <= i
    ensures forall q :: q in Around(c, maxX, maxY, i) ==> Within(q, maxX, maxY) && DeltaIndex(Offset(c, q)) < i
  {
    if i > 0 {
      AroundFrom(c, maxX, maxY, i - 1);
      var q := Coord(c.x + Deltas[i - 1].x, c.y + Deltas[i - 1].y);
      assert Offset(c, q) == Deltas[i - 1];
      IndexOfDelta(i - 1);
    }
  }

  lemma {:induction false} AroundHas(c: Coord, maxX: int, maxY: int, i: nat, k: nat)
    requires k < i <= |Deltas|
    requires Within(Coord(c.x + Deltas[k].x, c.y + Deltas[k].y), maxX, maxY)
    ensures Coord(c.x + Deltas[k].x, c.y + Deltas[k].y) in Around(c, maxX, maxY, i)
  {
    if k < i - 1 { AroundHas(c, maxX, maxY, i - 1, k); }
  }

  lemma {:induction false} AroundDistinct(c: Coord, maxX: int, maxY: int, i: nat)
    requires i <= |Deltas|
    ensures Distinct(Around(c, maxX, maxY, i))
  {
    if i > 0 {
      var s := Around(c, maxX, maxY, i - 1);
      var q := Coord(c.x + Deltas[i - 1].x, c.y + Deltas[i - 1].y);
      AroundDistinct(c, maxX, maxY, i - 1);
      assert q !in s by {
        AroundFrom(c, maxX, maxY, i - 1);
        assert Offset(c, q) == Deltas[i - 1];
        IndexOfDelta(i - 1);
      }
      DistinctAppend(s, q);
      assert Around(c, maxX, maxY, i) == s + (if Within(q, maxX, maxY) then [q] else []);
      assert s + [] == s;
    }
  }

  lemma DistinctAppend(s: seq<Coord>, q: Coord)
    requires Distinct(s) && q !in s
    ensures Distinct(s + [q])
  {
  }

  /** The cells around c are exactly c shifted by one of the eight offsets. */
  lemma DeltaOf(c: Coord, q: Coord)
    requires Adjacent(c, q)
    ensures DeltaIndex(Offset(c, q)) < |Deltas|
  {
  }

  lemma AroundMeans(c: Coord, maxX: int, maxY: int)
    ensures |Around(c, maxX, maxY, 8)| <= 8 && Distinct(Around(c, maxX, maxY, 8))
    ensures forall q :: q in Around(c, maxX, maxY, 8) <==> Within(q, maxX, maxY) && Adjacent(c, q)
  {
    AroundFrom(c, maxX, maxY, 8);
    AroundDistinct(c, maxX, maxY, 8);
    forall q | Within(q, maxX, maxY) && Adjacent(c, q)
      ensures q in Around(c, maxX, maxY, 8)
    {
      DeltaOf(c, q);
      AroundHas(c, maxX, maxY, 8, DeltaIndex(Offset(c, q)));
    }
  }

  /**
   * Nearby: the cells around c that lie in [0, maxX] x [0, maxY], each
   * once, c itself never among them.
   */
  method Nearby(c: Coord, maxX: int, maxY: int) returns (result: seq<Coord>)
    ensures |result| <= 8 && Distinct(result)
    ensures forall q :: q in result <==> Within(q, maxX, maxY) && Adjacent(c, q)
  {
    result := [];
    var i := 0;
    while i < |Deltas|
      invariant 0 <= i <= |Deltas| && result == Around(c, maxX, maxY, i)
    {
      var d := Deltas[i];
      var nx := c.x + d.x;
      var ny := c.y + d.y;
      if nx >= 0 && ny >= 0 && nx <= maxX && ny <= maxY {
        result := result + [Coord(nx, ny)];
      }
      i := i + 1;
    }
    AroundMeans(c, maxX, maxY);
  }

  // ------------------------------------------------------------ counting over the grid

  /** Every row as long as the first. */
  predicate Rectangular(g: seq<seq<char>>)
  {
    forall y :: 0 <= y < |g| ==> |g[y]| == |g[0]|
  }

  function Width(g: seq<seq<char>>): nat
  {
    if |g| == 0 then 0 else |g[0]|
  }

  /** Rolls adjacent to c among the first x cells of row y. */
  function RowNear(g: seq<seq<char>>, c: Coord, y: nat, x: nat): nat
    requires y < |g| && x <= |g[y]|
  {
    if x == 0 then 0
    else RowNear(g, c, y, x - 1) + (if IsPaper(g[y][x - 1]) && Adjacent(c, Coord(x - 1, y)) then 1 else 0)
  }

  /** Rolls adjacent to c in the first y rows. */
  function GridNear(g: seq<seq<char>>, c: Coord, y: nat): nat
    requires y <= |g|
  {
    if y == 0 then 0 else GridNear(g, c, y - 1) + RowNear(g, c, y - 1, |g[y - 1]|)
  }

  /** The number of rolls among the eight cells around c. */
  function Heat(g: seq<seq<char>>, c: Coord): nat
  {
    GridNear(g, c, |g|)
  }

  /** A roll the forklifts can reach: fewer than four rolls around it. */
  predicate Accessible(g: seq<seq<char>>, x: nat, y: nat)
    requires y < |g| && x < |g[y]|
  {
    IsPaper(g[y][x]) && Heat(g, Coord(x, y)) < 4
  }

  function RowAccessible(g: seq<seq<char>>, y: nat, x: nat): nat
    requires y < |g| && x <= |g[y]|
  {
    if x == 0 then 0 else RowAccessible(g, y, x - 1) + (if Accessible(g, x - 1, y) then 1 else 0)
  }

  function GridAccessible(g: seq<seq<char>>, y: nat): nat
    requires y <= |g|
  {
    if y == 0 then 0 else GridAccessible(g, y - 1) + RowAccessible(g, y - 1, |g[y - 1]|)
  }

  /** The rolls that can be taken right now. */
  function Removable(g: seq<seq<char>>): nat
  {
    GridAccessible(g, |g|)
  }

  function RowPaper(row: seq<char>, x: nat): nat
    requires x <= |row|
  {
    if x == 0 then 0 else RowPaper(row, x - 1) + (if IsPaper(row[x - 1]) then 1 else 0)
  }

  function GridPaper(g: seq<seq<char>>, y: nat): nat
    requires y <= |g|
  {
    if y == 0 then 0 else GridPaper(g, y - 1) + RowPaper(g[y - 1], |g[y - 1]|)
  }

  /** The rolls on the grid. */
  function PaperCount(g: seq<seq<char>>): nat
  {
    GridPaper(g, |g|)
  }

  // ------------------------------------------------------------ the heat map

  /** A width-w, height-h grid of numbers. */
  predicate Shaped(m: seq<seq<int>>, h: nat, w: nat)
  {
    |m| == h && forall b :: 0 <= b < h ==> |m[b]| == w
  }

  /** The heat map after the cells before (x, y), in row order, have spread their rolls. */
  function Partial(g: seq<seq<char>>, y: nat, x: nat): (m: seq<seq<int>>)
    requires Rectangular(g) && y <= |g| && (y < |g| ==> x <= Width(g))
    ensures Shaped(m, |g|, Width(g))
  {
    seq(|g|, b => seq(Width(g), a =>
      GridNear(g, Coord(a, b), y) + (if y < |g| then RowNear(g, Coord(a, b), y, x) else 0)))
  }

  /** Add one at c. */
  function Bump(m: seq<seq<int>>, c: Coord): seq<seq<int>>
    requires 0 <= c.y < |m| && 0 <= c.x < |m[c.y]|
  {
    m[c.y := m[c.y][c.x := m[c.y][c.x] + 1]]
  }

  predicate AllIn(s: seq<Coord>, h: nat, w: nat)
  {
    forall k :: 0 <= k < |s| ==> 0 <= s[k].y < h && 0 <= s[k].x < w
  }

  /** Add one at every cell of s. */
  function Spread(m: seq<seq<int>>, s: seq<Coord>, h: nat, w: nat): (r: seq<seq<int>>)
    requires Shaped(m, h, w) && AllIn(s, h, w)
    ensures Shaped(r, h, w)
  {
    if s == [] then m else Bump(Spread(m, s[..|s| - 1], h, w), s[|s| - 1])
  }

  lemma SpreadMore(m: seq<seq<int>>, s: seq<Coord>, j: nat, h: nat, w: nat)
    requires Shaped(m, h, w) && AllIn(s, h, w) && j < |s|
    ensures AllIn(s[..j], h, w) && AllIn(s[..j + 1], h, w)
    ensures Spread(m, s[..j + 1], h, w) == Bump(Spread(m, s[..j], h, w), s[j])
  {
    assert s[..j + 1][..j] == s[..j];
  }

  lemma {:induction false} SpreadAt(m: seq<seq<int>>, s: seq<Coord>, h: nat, w: nat, a: nat, b: nat)
    requires Shaped(m, h, w) && AllIn(s, h, w) && Distinct(s) && b < h && a < w
    ensures Spread(m, s, h, w)[b][a] == m[b][a] + (if Coord(a, b) in s then 1 else 0)
  {
    if s != [] {
      var p := s[..|s| - 1];
      assert AllIn(p, h, w) && Distinct(p);
      SpreadAt(m, p, h, w, a, b);
      assert Coord(a, b) in s <==> Coord(a, b) in p || Coord(a, b) == s[|s| - 1];
      if Coord(a, b) == s[|s| - 1] {
        assert Coord(a, b) !in p;
      }
    }
  }

  /** Two maps of one shape that agree on every cell are equal. */
  lemma SameMaps(m: seq<seq<int>>, n: seq<seq<int>>, h: nat, w: nat)
    requires Shaped(m, h, w) && Shaped(n, h, w)
    requires forall b, a :: 0 <= b < h && 0 <= a < w ==> m[b][a] == n[b][a]
    ensures m == n
  {
    forall b | 0 <= b < h
      ensures m[b] == n[b]
    {
      assert forall a :: 0 <= a < w ==> m[b][a] == n[b][a];
    }
  }

  /** The cell (a, b) of the partial map after the cells before (x, y). */
  lemma PartialAt(g: seq<seq<char>>, y: nat, x: nat, a: nat, b: nat)
    requires Rectangular(g) && y < |g| && x <= Width(g) && b < |g| && a < Width(g)
    ensures Partial(g, y, x)[b][a] == GridNear(g, Coord(a, b), y) + RowNear(g, Coord(a, b), y, x)
  {
  }

  /** Spreading a roll at (x, y) to its neighbours moves the partial map one cell on. */
  lemma SpreadStep(g: seq<seq<char>>, y: nat, x: nat, s: seq<Coord>)
    requires Rectangular(g) && y < |g| && x < Width(g) && IsPaper(g[y][x])
    requires AllIn(s, |g|, Width(g)) && Distinct(s)
    requires forall q :: q in s <==> Within(q, Width(g) - 1, |g| - 1) && Adjacent(Coord(x, y), q)
    ensures Spread(Partial(g, y, x), s, |g|, Width(g)) == Partial(g, y, x + 1)
  {
    var r := Spread(Partial(g, y, x), s, |g|, Width(g));
    forall b, a | 0 <= b < |g| && 0 <= a < Width(g)
      ensures r[b][a] == Partial(g, y, x + 1)[b][a]
    {
      assert Coord(a, b) in s <==> Adjacent(Coord(x, y), Coord(a, b));
      SpreadCell(g, y, x, s, a, b);
    }
    SameMaps(r, Partial(g, y, x + 1), |g|, Width(g));
  }

  lemma SpreadCell(g: seq<seq<char>>, y: nat, x: nat, s: seq<Coord>, a: nat, b: nat)
    requires Rectangular(g) && y < |g| && x < Width(g) && IsPaper(g[y][x])
    requires AllIn(s, |g|, Width(g)) && Distinct(s) && b < |g| && a < Width(g)
    requires Coord(a, b) in s <==> Adjacent(Coord(x, y), Coord(a, b))
    ensures Spread(Partial(g, y, x), s, |g|, Width(g))[b][a] == Partial(g, y, x + 1)[b][a]
  {
    SpreadAt(Partial(g, y, x), s, |g|, Width(g), a, b);
    PartialAt(g, y, x, a, b);
    PartialAt(g, y, x + 1, a, b);
    assert Adjacent(Coord(x, y), Coord(a, b)) <==> Adjacent(Coord(a, b), Coord(x, y));
  }

  /** A cell without a roll spreads nothing. */
  lemma EmptyStep(g: seq<seq<char>>, y: nat, x: nat)
    requires Rectangular(g) && y < |g| && x < Width(g) && !IsPaper(g[y][x])
    ensures Partial(g, y, x) == Partial(g, y, x + 1)
  {
    forall b, a | 0 <= b < |g| && 0 <= a < Width(g)
      ensures Partial(g, y, x)[b][a] == Partial(g, y, x + 1)[b][a]
    {
      PartialAt(g, y, x, a, b);
      PartialAt(g, y, x + 1, a, b);
    }
    SameMaps(Partial(g, y, x), Partial(g, y, x + 1), |g|, Width(g));
  }

  lemma RowDone(g: seq<seq<char>>, y: nat)
    requires Rectangular(g) && y < |g|
    ensures Partial(g, y, Width(g)) == Partial(g, y + 1, 0)
  {
    forall b, a | 0 <= b < |g| && 0 <= a < Width(g)
      ensures Partial(g, y, Width(g))[b][a] == Partial(g, y + 1, 0)[b][a]
    {
      PartialAt(g, y, Width(g), a, b);
      assert |g[y]| == Width(g);
      if y + 1 < |g| { PartialAt(g, y + 1, 0, a, b); }
    }
    SameMaps(Partial(g, y, Width(g)), Partial(g, y + 1, 0), |g|, Width(g));
  }

  /** A height-h, width-w map of zeros. */
  function Zeros(h: nat, w: nat): (m: seq<seq<int>>)
    ensures Shaped(m, h, w)
  {
    seq(h, _ => seq(w, _ => 0))
  }

  lemma Started(g: seq<seq<char>>)
    requires Rectangular(g)
    ensures Partial(g, 0, 0) == Zeros(|g|, Width(g))
  {
    var z := Zeros(|g|, Width(g));
    forall b, a | 0 <= b < |g| && 0 <= a < Width(g)
      ensures Partial(g, 0, 0)[b][a] == z[b][a]
    {
      PartialAt(g, 0, 0, a, b);
    }
    SameMaps(Partial(g, 0, 0), z, |g|, Width(g));
  }

  lemma Finished(g: seq<seq<char>>)
    requires Rectangular(g)
    ensures forall b, a :: 0 <= b < |g| && 0 <= a < Width(g) ==> Partial(g, |g|, 0)[b][a] == Heat(g, Coord(a, b))
  {
  }

  /** Cells inside [0, w-1] x [0, h-1] index a height-h, width-w map. */
  lemma NearbyIn(s: seq<Coord>, w: nat, h: nat)
    requires forall q :: q in s ==> Within(q, w - 1, h - 1)
    ensures AllIn(s, h, w)
  {
    forall k | 0 <= k < |s|
      ensures 0 <= s[k].y < h && 0 <= s[k].x < w
    {
      assert s[k] in s;
    }
  }

  /**
   * The roll at (x, y) adds one to every cell around it: the body of
   * CalculateHeatmap's loop for a cell holding paper.
   */
  method SpreadRoll(g: seq<seq<char>>, y: nat, x: nat, m: seq<seq<int>>) returns (h: seq<seq<int>>)
    requires Rectangular(g) && y < |g| && x < Width(g) && IsPaper(g[y][x])
    requires m == Partial(g, y, x)
    ensures h == Partial(g, y, x + 1)
  {
    var current := Coord(x, y);
    var surrounding := Nearby(current, Width(g) - 1, |g| - 1);
    NearbyIn(surrounding, Width(g), |g|);
    h := m;
    var j := 0;
    while j < |surrounding|
      invariant 0 <= j <= |surrounding|
      invariant h == Spread(m, surrounding[..j], |g|, Width(g))
    {
      var c := surrounding[j];
      SpreadMore(m, surrounding, j, |g|, Width(g));
      h := h[c.y := h[c.y][c.x := h[c.y][c.x] + 1]];
      j := j + 1;
    }
    assert surrounding[..j] == surrounding;
    SpreadStep(g, y, x, surrounding);
  }

  /**
   * CalculateHeatmap: every roll adds one to each cell around it, so each
   * cell ends up holding the number of rolls around it.
   */
  method CalculateHeatmap(g: seq<seq<char>>) returns (h: seq<seq<int>>)
    requires Rectangular(g)
    ensures Shaped(h, |g|, Width(g))
    ensures forall b, a :: 0 <= b < |g| && 0 <= a < Width(g) ==> h[b][a] == Heat(g, Coord(a, b))
  {
    h := Zeros(|g|, Width(g));
    Started(g);
    var y := 0;
    while y < |g|
      invariant 0 <= y <= |g| && h == Partial(g, y, 0)
    {
      var x := 0;
      while x < |g[y]|
        invariant 0 <= x <= |g[y]| == Width(g) && h == Partial(g, y, x)
      {
        if IsPaper(g[y][x]) {
          h := SpreadRoll(g, y, x, h);
        } else {
          EmptyStep(g, y, x);
        }
        x := x + 1;
      }
      RowDone(g, y);
      y := y + 1;
    }
    Finished(g);
  }

  // ------------------------------------------------------------ taking rolls

  /** Solve1: count the rolls with fewer than four rolls around them. */
  method Solve1(grid: seq<seq<char>>) returns (result: string, total: nat)
    requires Rectangular(grid)
    ensures total == Removable(grid) && total <= PaperCount(grid)
    ensures result == GoMath.Itoa(total)
  {
    total := 0;
    var h := CalculateHeatmap(grid);
    var y := 0;
    while y < |grid|
      invariant 0 <= y <= |grid| && total == GridAccessible(grid, y)
    {
      var x := 0;
      while x < |grid[y]|
        invariant 0 <= x <= |grid[y]| == Width(grid)
        invariant total == GridAccessible(grid, y) + RowAccessible(grid, y, x)
      {
        if IsPaper(grid[y][x]) && h[y][x] < 4 {
          total := total + 1;
        }
        x := x + 1;
      }
      y := y + 1;
    }
    TakenPaper(grid);
    result := GoMath.Itoa(total);
  }

  /** One pass of Solve2: every roll reachable at the start of the pass becomes '.'. */
  function Pass(g: seq<seq<char>>): (r: seq<seq<char>>)
    ensures |r| == |g| && forall y :: 0 <= y < |g| ==> |r[y]| == |g[y]|
  {
    seq(|g|, y requires 0 <= y < |g| => seq(|g[y]|, x requires 0 <= x < |g[y]| =>
      if Accessible(g, x, y) then '.' else g[y][x]))
  }

  /** A pass only ever turns a roll into an empty cell. */
  lemma PassOnlyTakes(g: seq<seq<char>>, x: nat, y: nat)
    requires y < |g| && x < |g[y]|
    ensures Pass(g)[y][x] != g[y][x] ==> IsPaper(g[y][x]) && Pass(g)[y][x] == '.'
    ensures Pass(g)[y][x] == '.' <==> g[y][x] == '.' || Accessible(g, x, y)
  {
  }

  lemma {:induction false} RowTaken(g: seq<seq<char>>, y: nat, x: nat)
    requires y < |g| && x <= |g[y]|
    ensures RowPaper(Pass(g)[y], x) + RowAccessible(g, y, x) == RowPaper(g[y], x)
  {
    if x > 0 { RowTaken(g, y, x - 1); }
  }

  lemma {:induction false} GridTaken(g: seq<seq<char>>, y: nat)
    requires y <= |g|
    ensures GridPaper(Pass(g), y) + GridAccessible(g, y) == GridPaper(g, y)
  {
    if y > 0 {
      GridTaken(g, y - 1);
      RowTaken(g, y - 1, |g[y - 1]|);
    }
  }

  /** A pass takes exactly the reachable rolls: the roll count drops by Removable. */
  lemma TakenPaper(g: seq<seq<char>>)
    ensures PaperCount(Pass(g)) + Removable(g) == PaperCount(g)
  {
    GridTaken(g, |g|);
  }

  /**
   * The rolls Solve2 takes: pass after pass, each on the grid the previous
   * pass left, until a pass finds nothing to take. Each productive pass
   * lowers the roll count, so this ends.
   */
  function Cleared(g: seq<seq<char>>): nat
    decreases PaperCount(g)
  {
    if Removable(g) == 0 then 0
    else
      TakenPaper(g);
      Removable(g) + Cleared(Pass(g))
  }

  /** Solve2 takes at least what Solve1 counts, since its first pass is Solve1's count. */
  lemma ClearedCoversFirst(g: seq<seq<char>>)
    ensures Removable(g) <= Cleared(g) <= PaperCount(g)
    decreases PaperCount(g)
  {
    if Removable(g) > 0 {
      TakenPaper(g);
      ClearedCoversFirst(Pass(g));
    }
  }

  /** The grid in the middle of a pass: the cells before (x, y) already updated. */
  function PassUpTo(g: seq<seq<char>>, y: nat, x: nat): (r: seq<seq<char>>)
    ensures |r| == |g| && forall b :: 0 <= b < |g| ==> |r[b]| == |g[b]|
  {
    seq(|g|, b requires 0 <= b < |g| => seq(|g[b]|, a requires 0 <= a < |g[b]| =>
      if b < y || (b == y && a < x) then Pass(g)[b][a] else g[b][a]))
  }

  /** Two grids of one shape that agree on every cell are equal. */
  lemma SameGrids(p: seq<seq<char>>, q: seq<seq<char>>)
    requires |p| == |q| && forall b :: 0 <= b < |p| ==> |p[b]| == |q[b]|
    requires forall b, a :: 0 <= b < |p| && 0 <= a < |p[b]| ==> p[b][a] == q[b][a]
    ensures p == q
  {
    forall b | 0 <= b < |p|
      ensures p[b] == q[b]
    {
      assert forall a :: 0 <= a < |p[b]| ==> p[b][a] == q[b][a];
    }
  }

  lemma PassStart(g: seq<seq<char>>)
    ensures PassUpTo(g, 0, 0) == g
  {
    SameGrids(PassUpTo(g, 0, 0), g);
  }

  lemma PassEnd(g: seq<seq<char>>)
    ensures PassUpTo(g, |g|, 0) == Pass(g)
  {
    SameGrids(PassUpTo(g, |g|, 0), Pass(g));
  }

  lemma PassRow(g: seq<seq<char>>, y: nat)
    requires y < |g|
    ensures PassUpTo(g, y, |g[y]|) == PassUpTo(g, y + 1, 0)
  {
    SameGrids(PassUpTo(g, y, |g[y]|), PassUpTo(g, y + 1, 0));
  }

  /** Visiting (x, y): a reachable roll becomes '.', any other cell stays. */
  lemma PassCell(g: seq<seq<char>>, y: nat, x: nat)
    requires y < |g| && x < |g[y]|
    ensures PassUpTo(g, y, x)[y][x] == g[y][x]
    ensures Accessible(g, x, y) ==>
      PassUpTo(g, y, x + 1) == PassUpTo(g, y, x)[y := PassUpTo(g, y, x)[y][x := '.']]
    ensures !Accessible(g, x, y) ==> PassUpTo(g, y, x + 1) == PassUpTo(g, y, x)
  {
    var p := PassUpTo(g, y, x);
    var q := PassUpTo(g, y, x + 1);
    var r := if Accessible(g, x, y) then p[y := p[y][x := '.']] else p;
    forall b, a | 0 <= b < |q| && 0 <= a < |q[b]|
      ensures q[b][a] == r[b][a]
    {
      if b == y && a == x {
        assert q[b][a] == Pass(g)[y][x];
      }
    }
    SameGrids(q, r);
  }

  lemma PassShape(g: seq<seq<char>>)
    requires Rectangular(g)
    ensures Rectangular(Pass(g)) && Width(Pass(g)) == Width(g)
  {
  }

  /**
   * The body of Solve2's loop: one sweep over the grid with the heat map
   * of the grid as it was when the sweep began.
   */
  method RemovePass(grid: seq<seq<char>>, h: seq<seq<int>>, total: nat)
    returns (next: seq<seq<char>>, newTotal: nat, paperRemoved: bool)
    requires Rectangular(grid) && Shaped(h, |grid|, Width(grid))
    requires forall b, a :: 0 <= b < |grid| && 0 <= a < Width(grid) ==> h[b][a] == Heat(grid, Coord(a, b))
    ensures next == Pass(grid) && newTotal == total + Removable(grid)
    ensures paperRemoved <==> Removable(grid) > 0
  {
    next := grid;
    newTotal := total;
    paperRemoved := false;
    PassStart(grid);
    var y := 0;
    while y < |grid|
      invariant 0 <= y <= |grid| && next == PassUpTo(grid, y, 0)
      invariant newTotal == total + GridAccessible(grid, y)
      invariant paperRemoved <==> GridAccessible(grid, y) > 0
    {
      var x := 0;
      while x < |next[y]|
        invariant next == PassUpTo(grid, y, x)
        invariant 0 <= x <= |next[y]| == |grid[y]| == Width(grid)
        invariant newTotal == total + GridAccessible(grid, y) + RowAccessible(grid, y, x)
        invariant paperRemoved <==> GridAccessible(grid, y) + RowAccessible(grid, y, x) > 0
      {
        PassCell(grid, y, x);
        assert IsPaper(next[y][x]) && h[y][x] < 4 <==> Accessible(grid, x, y);
        if IsPaper(next[y][x]) && h[y][x] < 4 {
          next := next[y := next[y][x := '.']];
          newTotal := newTotal + 1;
          paperRemoved := true;
        }
        x := x + 1;
      }
      PassRow(grid, y);
      y := y + 1;
    }
    PassEnd(grid);
  }

  /**
   * Solve2: keep sweeping, recomputing the heat map after every sweep that
   * took something, and count every roll taken.
   */
  method Solve2(grid: seq<seq<char>>) returns (result: string, total: nat)
    requires Rectangular(grid)
    ensures total == Cleared(grid) && Removable(grid) <= total <= PaperCount(grid)
    ensures result == GoMath.Itoa(total)
  {
    total := 0;
    var g := grid;
    var h := CalculateHeatmap(g);
    while true
      invariant Rectangular(g) && Shaped(h, |g|, Width(g))
      invariant forall b, a :: 0 <= b < |g| && 0 <= a < Width(g) ==> h[b][a] == Heat(g, Coord(a, b))
      invariant total + Cleared(g) == Cleared(grid)
      decreases PaperCount(g)
    {
      var paperRemoved;
      var next;
      next, total, paperRemoved := RemovePass(g, h, total);
      if !paperRemoved {
        break;
      }
      TakenPaper(g);
      PassShape(g);
      g := next;
      h := CalculateHeatmap(g);
    }
    ClearedCoversFirst(grid);
    result := GoMath.Itoa(total);
  }
}
