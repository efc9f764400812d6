/**
 * The grid simulation of 2024 day 20: entities with an ID, a list of cells
 * and a direction live on a width-by-height map whose cells keep the IDs
 * of the entities on them. Adding, removing and moving an entity edit the
 * cells one by one and undo the edits when a later cell refuses.
 */
module Simulations {
  import opened Wrappers
  import opened GoMath

  // ---------------------------------------------------------------------------
  // Coordinates and directions
  // ---------------------------------------------------------------------------

  datatype Coord = Coord(x: int, y: int)

  datatype Direction = Direction(vx: int, vy: int)

  const North := Direction(0, -1)
  const East := Direction(1, 0)
  const South := Direction(0, 1)
  const West := Direction(-1, 0)

  predicate Cardinal(d: Direction)
  { d == North || d == East || d == South || d == West }

  function Move(c: Coord, d: Direction): Coord
  { Coord(c.x + d.vx, c.y + d.vy) }

  /** The cell count between two coordinates, moving along rows and columns. */
  function Distance(c: Coord, q: Coord): nat
  { Abs(q.x - c.x) + Abs(q.y - c.y) }

  /** TurnLeft: a quarter turn counter-clockwise; anything but a cardinal stays as it is. */
  function TurnLeft(d: Direction): (r: Direction)
    ensures Cardinal(r) <==> Cardinal(d)
    ensures !Cardinal(d) ==> r == d
  {
    if d == North then West
    else if d == East then North
    else if d == South then East
    else if d == West then South
    else d
  }

  /** TurnRight: a quarter turn clockwise; anything but a cardinal stays as it is. */
  function TurnRight(d: Direction): (r: Direction)
    ensures Cardinal(r) <==> Cardinal(d)
    ensures !Cardinal(d) ==> r == d
  {
    if d == North then East
    else if d == East then South
    else if d == South then West
    else if d == West then North
    else d
  }

  /** The two turns undo each other, for every direction. */
  lemma TurnsInverse(d: Direction)
    ensures TurnLeft(TurnRight(d)) == d && TurnRight(TurnLeft(d)) == d
  {
  }

  /**
   * With y growing downwards, a right turn of a cardinal is the rotation
   * (vx, vy) -> (-vy, vx), and a left turn the rotation the other way.
   */
  lemma TurnsRotate(d: Direction)
    requires Cardinal(d)
    ensures TurnRight(d) == Direction(-d.vy, d.vx)
    ensures TurnLeft(d) == Direction(d.vy, -d.vx)
  {
  }

  /** Four right turns come back to the start. */
  lemma FourTurns(d: Direction)
    ensures TurnRight(TurnRight(TurnRight(TurnRight(d)))) == d
  {
  }

  /** Coord.GetNeighbors: the cells one step north, east, south and west, unchecked. */
  function Neighbors(c: Coord): (r: seq<Coord>)
    ensures |r| == 4
    ensures forall i :: 0 <= i < 4 ==> Distance(c, r[i]) == 1
    ensures forall q :: Distance(c, q) == 1 <==> q in r
  {
    [Move(c, North), Move(c, East), Move(c, South), Move(c, West)]
  }

  /**
   * DirectionTo: east or west while the columns differ, then south or
   * north; the zero direction once there. One step along it brings the
   * cursor one cell closer.
   */
  function DirectionTo(c: Coord, q: Coord): (r: Direction)
    ensures Cardinal(r) || r == Direction(0, 0)
    ensures r == Direction(0, 0) <==> c == q
    ensures c != q ==> Distance(Move(c, r), q) + 1 == Distance(c, q)
  {
    var dx := q.x - c.x;
    var dy := q.y - c.y;
    if dx > 0 then East
    else if dx < 0 then West
    else if dy > 0 then South
    else if dy < 0 then North
    else Direction(0, 0)
  }

  /** The direction to a neighbour is the step that led there. */
  lemma DirectionToStep(c: Coord, d: Direction)
    requires Cardinal(d)
    ensures DirectionTo(c, Move(c, d)) == d
  {
  }

  // ---------------------------------------------------------------------------
  // Cells
  // ---------------------------------------------------------------------------

  /** Entity IDs; the zero UUID is 0. */
  type Id = nat

  const ZeroId: Id := 0

  /** What a cell's ID list always looks like: no zero ID, no ID twice. */
  predicate Clean(ids: seq<Id>)
  { ZeroId !in ids && Distinct(ids) }

  /** The list without the first occurrence of id. */
  function Without(ids: seq<Id>, id: Id): (r: seq<Id>)
    decreases ids
  {
    if ids == [] then []
    else if ids[0] == id then ids[1..]
    else [ids[0]] + Without(ids[1..], id)
  }

  /** Removing the first occurrence takes exactly one copy of id out of the multiset. */
  lemma {:induction false} WithoutMultiset(ids: seq<Id>, id: Id)
    ensures id in ids ==> multiset(Without(ids, id)) == multiset(ids) - multiset{id}
    ensures id !in ids ==> Without(ids, id) == ids
    decreases ids
  {
    if ids != [] {
      WithoutMultiset(ids[1..], id);
      assert ids == [ids[0]] + ids[1..];
    }
  }

  /** The first occurrence at position i: the list with position i cut out. */
  lemma {:induction false} WithoutAt(ids: seq<Id>, id: Id, i: int)
    requires 0 <= i < |ids| && ids[i] == id && id !in ids[..i]
    ensures Without(ids, id) == ids[..i] + ids[i + 1..]
    decreases i
  {
    if i > 0 {
      assert ids[1..][..i - 1] == ids[1..i];
      assert id !in ids[1..][..i - 1];
      WithoutAt(ids[1..], id, i - 1);
      assert ids[1..][..i - 1] + ids[1..][i..] == ids[1..i] + ids[i + 1..];
      assert ids[..i] == [ids[0]] + ids[1..i];
    }
  }

  /** Appending an ID the list lacks and then removing it gives the list back. */
  lemma {:induction false} WithoutAppended(ids: seq<Id>, id: Id)
    requires id !in ids
    ensures Without(ids + [id], id) == ids
    decreases ids
  {
    if ids == [] {
      assert ids + [id] == [id];
    } else {
      assert (ids + [id])[1..] == ids[1..] + [id];
      WithoutAppended(ids[1..], id);
      assert ids == [ids[0]] + ids[1..];
    }
  }

  /** Adding a new non-zero ID and removing one keep a list clean. */
  lemma CleanEdits(ids: seq<Id>, id: Id)
    requires Clean(ids)
    ensures id != ZeroId && id !in ids ==> Clean(ids + [id])
    ensures Clean(Without(ids, id)) && id !in Without(ids, id)
  {
    WithoutClean(ids, id);
  }

  lemma {:induction false} WithoutClean(ids: seq<Id>, id: Id)
    requires Clean(ids)
    ensures Clean(Without(ids, id)) && id !in Without(ids, id)
    ensures forall c :: c in Without(ids, id) ==> c in ids
    decreases ids
  {
    if ids != [] && ids[0] != id {
      var rest := Without(ids[1..], id);
      assert Clean(ids[1..]);
      WithoutClean(ids[1..], id);
      var w := [ids[0]] + rest;
      forall a, b | 0 <= a < b < |w| ensures w[a] != w[b] {
        if a == 0 {
          assert w[b] == rest[b - 1] && w[b] in ids[1..];
        } else {
          assert w[a] == rest[a - 1] && w[b] == rest[b - 1];
        }
      }
    }
  }

  /** One cell of the map: the IDs of the entities standing on it. */
  class Cell {
    var ids: seq<Id>

    /** NewSpatialMapCell: no entity yet. */
    constructor ()
      ensures ids == []
    {
      ids := [];
    }

    /** GetEntityIds: a copy of the list, in order. */
    method GetEntityIds() returns (r: seq<Id>)
      ensures r == ids
    {
      r := [] + ids;
    }

    /** addEntityId: refuse the zero ID and an ID already present; otherwise append. */
    method AddId(id: Id) returns (r: Outcome)
      modifies this
      ensures r.Pass? <==> id != ZeroId && id !in old(ids)
      ensures ids == if r.Pass? then old(ids) + [id] else old(ids)
    {
      if id == ZeroId {
        return Fail("cannot add zero-value UUID to cell");
      }
      var i := 0;
      while i < |ids|
        invariant 0 <= i <= |ids|
        invariant id !in ids[..i]
      {
        if ids[i] == id {
          return Fail("entity already exists in the cell");
        }
        assert ids[..i + 1] == ids[..i] + [ids[i]];
        i := i + 1;
      }
      assert ids[..i] == ids;
      ids := ids + [id];
      r := Pass;
    }

    /** removeEntityId: cut out the first occurrence; an ID that is not there is an error. */
    method RemoveId(id: Id) returns (r: Outcome)
      modifies this
      ensures r.Pass? <==> id in old(ids)
      ensures ids == if r.Pass? then Without(old(ids), id) else old(ids)
    {
      var i := 0;
      while i < |ids|
        invariant 0 <= i <= |ids|
        invariant id !in ids[..i]
      {
        if ids[i] == id {
          WithoutAt(ids, id, i);
          ids := ids[..i] + ids[i + 1..];
          return Pass;
        }
        assert ids[..i + 1] == ids[..i] + [ids[i]];
        i := i + 1;
      }
      assert ids[..i] == ids;
      r := Fail("entity not found in the cell");
    }
  }

  // ---------------------------------------------------------------------------
  // The layout of the map
  // ---------------------------------------------------------------------------

  /** ValidateCoord: the coordinate lies on a width-by-height map. */
  predicate InBounds(c: Coord, width: int, height: int)
  { 0 <= c.x < width && 0 <= c.y < height }

  /** GetIndex: row-major position of a cell in the map's cell list. */
  function Index(c: Coord, width: int): int
  { c.y * width + c.x }

  /** Every coordinate on the map has a slot in the cell list. */
  lemma IndexInRange(c: Coord, width: int, height: int)
    requires InBounds(c, width, height)
    ensures 0 <= Index(c, width) < width * height
  {
    assert c.y * width <= (height - 1) * width;
  }

  /** No two coordinates on the map share a slot. */
  lemma IndexInjective(c: Coord, q: Coord, width: int, height: int)
    requires InBounds(c, width, height) && InBounds(q, width, height)
    requires Index(c, width) == Index(q, width)
    ensures c == q
  {
    if c.y < q.y {
      RowsApart(c.y, q.y, width);
    } else if q.y < c.y {
      RowsApart(q.y, c.y, width);
    }
  }

  /** A later row starts at least a whole row further on. */
  lemma RowsApart(a: int, b: int, width: int)
    requires a < b && width >= 0
    ensures a * width + width <= b * width
  {
    var d := b - a - 1;
    assert d * width >= 0;
    assert b * width == a * width + width + d * width;
  }

  /** Every slot of the cell list belongs to a coordinate on the map. */
  lemma IndexOnto(k: int, width: int, height: int)
    requires 0 <= k < width * height && width >= 0
    ensures width > 0 && InBounds(Coord(k % width, k / width), width, height)
    ensures Index(Coord(k % width, k / width), width) == k
  {
    if width > 0 {
      assert k / width * width + k % width == k;
    }
  }

  // ---------------------------------------------------------------------------
  // The contents of the map, as values
  // ---------------------------------------------------------------------------

  /** The IDs on the cell at c. */
  function IdsAt(s: seq<seq<Id>>, c: Coord, width: int, height: int): seq<Id>
    requires |s| == width * height && InBounds(c, width, height)
  {
    IndexInRange(c, width, height);
    s[Index(c, width)]
  }

  /** The slots of a list of coordinates. */
  function Indices(cs: seq<Coord>, width: int): set<int>
  { set c | c in cs :: Index(c, width) }

  /** The map with id appended on the slots in k. */
  function AddAt(s: seq<seq<Id>>, k: set<int>, id: Id): (r: seq<seq<Id>>)
    ensures |r| == |s|
  {
    seq(|s|, i requires 0 <= i < |s| => if i in k then s[i] + [id] else s[i])
  }

  /** The map with the first occurrence of id cut from the slots in k. */
  function RemoveAt(s: seq<seq<Id>>, k: set<int>, id: Id): (r: seq<seq<Id>>)
    ensures |r| == |s|
  {
    seq(|s|, i requires 0 <= i < |s| => if i in k then Without(s[i], id) else s[i])
  }

  predicate AllClean(s: seq<seq<Id>>)
  { forall i :: 0 <= i < |s| ==> Clean(s[i]) }

  /** The same entities on every cell, whatever their order. */
  predicate SameMembers(s: seq<seq<Id>>, t: seq<seq<Id>>)
  { |s| == |t| && forall i :: 0 <= i < |s| ==> multiset(s[i]) == multiset(t[i]) }

  /** The j-th coordinate accepts id: on the map, not the zero ID, not there yet, not listed before. */
  predicate AddableAt(s: seq<seq<Id>>, width: int, height: int, id: Id, cs: seq<Coord>, j: int)
    requires |s| == width * height && 0 <= j < |cs|
  {
    && InBounds(cs[j], width, height)
    && id != ZeroId
    && id !in IdsAt(s, cs[j], width, height)
    && cs[j] !in cs[..j]
  }

  /** The j-th coordinate gives id up: on the map, holding id, not listed before. */
  predicate RemovableAt(s: seq<seq<Id>>, width: int, height: int, id: Id, cs: seq<Coord>, j: int)
    requires |s| == width * height && 0 <= j < |cs|
  {
    && InBounds(cs[j], width, height)
    && id in IdsAt(s, cs[j], width, height)
    && cs[j] !in cs[..j]
  }

  predicate Addable(s: seq<seq<Id>>, width: int, height: int, id: Id, cs: seq<Coord>, n: int)
    requires |s| == width * height && 0 <= n <= |cs|
  { forall j :: 0 <= j < n ==> AddableAt(s, width, height, id, cs, j) }

  predicate Removable(s: seq<seq<Id>>, width: int, height: int, id: Id, cs: seq<Coord>, n: int)
    requires |s| == width * height && 0 <= n <= |cs|
  { forall j :: 0 <= j < n ==> RemovableAt(s, width, height, id, cs, j) }

  /** One more coordinate adds its slot. */
  lemma IndicesSnoc(cs: seq<Coord>, n: int, width: int)
    requires 0 <= n < |cs|
    ensures Indices(cs[..n + 1], width) == Indices(cs[..n], width) + {Index(cs[n], width)}
  {
    assert cs[..n + 1] == cs[..n] + [cs[n]];
  }

  /** One coordinate fewer at the front drops its slot, when it is not listed again. */
  lemma IndicesDrop(cs: seq<Coord>, t: int, n: int, width: int, height: int)
    requires 0 <= t < n <= |cs|
    requires forall j :: 0 <= j < n ==> InBounds(cs[j], width, height)
    requires cs[t] !in cs[t + 1..n]
    ensures Indices(cs[t + 1..n], width) == Indices(cs[t..n], width) - {Index(cs[t], width)}
  {
    assert cs[t..n] == [cs[t]] + cs[t + 1..n];
    forall c | c in cs[t + 1..n] ensures Index(c, width) != Index(cs[t], width) {
      if Index(c, width) == Index(cs[t], width) {
        var u :| t + 1 <= u < n && cs[u] == c;
        IndexInjective(c, cs[t], width, height);
      }
    }
  }

  /** For coordinates on the map, a slot is taken exactly when its coordinate is listed. */
  lemma IndexListed(cs: seq<Coord>, c: Coord, width: int, height: int)
    requires forall j :: 0 <= j < |cs| ==> InBounds(cs[j], width, height)
    requires InBounds(c, width, height)
    ensures Index(c, width) in Indices(cs, width) <==> c in cs
  {
    if Index(c, width) in Indices(cs, width) {
      var j :| 0 <= j < |cs| && Index(cs[j], width) == Index(c, width);
      IndexInjective(cs[j], c, width, height);
    }
  }

  /** A list accepted by Addable names distinct cells on the map. */
  lemma AddableDistinct(s: seq<seq<Id>>, width: int, height: int, id: Id, cs: seq<Coord>, t: int, n: int)
    requires |s| == width * height && 0 <= t < n <= |cs|
    requires Addable(s, width, height, id, cs, n)
    ensures cs[t] !in cs[t + 1..n]
  {
    forall u | t + 1 <= u < n ensures cs[u] != cs[t] {
      assert AddableAt(s, width, height, id, cs, u);
      assert cs[..u][t] == cs[t];
    }
  }

  /** Adding id where Addable allows it and then removing it again restores the map. */
  lemma AddThenRemove(s: seq<seq<Id>>, width: int, height: int, id: Id, cs: seq<Coord>)
    requires |s| == width * height && Addable(s, width, height, id, cs, |cs|)
    ensures RemoveAt(AddAt(s, Indices(cs, width), id), Indices(cs, width), id) == s
  {
    var k := Indices(cs, width);
    forall i | 0 <= i < |s| && i in k
      ensures Without(s[i] + [id], id) == s[i]
    {
      var j :| 0 <= j < |cs| && Index(cs[j], width) == i;
      assert AddableAt(s, width, height, id, cs, j);
      WithoutAppended(s[i], id);
    }
  }

  /** Removing id and putting it back leaves every cell with the same entities. */
  lemma RemoveThenAdd(s: seq<seq<Id>>, width: int, height: int, id: Id, cs: seq<Coord>, n: int, k: set<int>)
    requires |s| == width * height && 0 <= n <= |cs| && Removable(s, width, height, id, cs, n)
    requires k == Indices(cs[..n], width)
    ensures SameMembers(AddAt(RemoveAt(s, k, id), k, id), s)
  {
    forall i | 0 <= i < |s| && i in k
      ensures multiset(Without(s[i], id) + [id]) == multiset(s[i])
    {
      var j :| 0 <= j < n && Index(cs[..n][j], width) == i;
      assert RemovableAt(s, width, height, id, cs, j);
      WithoutMultiset(s[i], id);
    }
  }

  /** A clean map stays clean under the edits the cells allow. */
  lemma AllCleanEdits(s: seq<seq<Id>>, k: set<int>, id: Id)
    requires AllClean(s)
    ensures AllClean(RemoveAt(s, k, id))
    ensures id != ZeroId && (forall i :: 0 <= i < |s| && i in k ==> id !in s[i]) ==> AllClean(AddAt(s, k, id))
  {
    forall i | 0 <= i < |s| {
      CleanEdits(s[i], id);
    }
  }

  // ---------------------------------------------------------------------------
  // The spatial map
  // ---------------------------------------------------------------------------

  /** The map: width, height and one cell per coordinate, row by row. */
  class SpatialMap {
    const width: int
    const height: int
    const cells: seq<Cell>

    /** What every cell holds, slot by slot. */
    ghost function Contents(): (s: seq<seq<Id>>)
      reads cells
      ensures |s| == |cells| && forall i :: 0 <= i < |cells| ==> s[i] == cells[i].ids
    {
      seq(|cells|, i requires 0 <= i < |cells| reads cells => cells[i].ids)
    }

    /** One cell per slot, no cell shared by two slots, and every cell clean. */
    ghost predicate Valid()
      reads cells
    {
      |cells| == width * height && Distinct(cells) && AllClean(Contents())
    }

    /** NewSpatialMap: width times height empty cells. */
    constructor (width: int, height: int)
      requires width * height >= 0
      ensures this.width == width && this.height == height
      ensures Valid() && forall i :: 0 <= i < |cells| ==> fresh(cells[i]) && cells[i].ids == []
    {
      var cs: seq<Cell> := [];
      while |cs| < width * height
        invariant |cs| <= width * height && Distinct(cs)
        invariant forall i :: 0 <= i < |cs| ==> fresh(cs[i]) && cs[i].ids == []
      {
        var c := new Cell();
        cs := cs + [c];
      }
      this.width := width;
      this.height := height;
      cells := cs;
    }

    /** The cell object at an on-map coordinate. */
    function CellAt(c: Coord): Cell
      requires |cells| == width * height && InBounds(c, width, height)
    {
      IndexInRange(c, width, height);
      cells[Index(c, width)]
    }

    /** GetCell: the cell at an on-map coordinate; anything else is an error. */
    function GetCell(c: Coord): (r: Option<Cell>)
      requires Valid()
      reads cells
      ensures r.Some? <==> InBounds(c, width, height)
      ensures r.Some? ==> r.value == CellAt(c) && r.value.ids == IdsAt(Contents(), c, width, height)
    {
      if InBounds(c, width, height) then
        IndexInRange(c, width, height);
        Some(cells[Index(c, width)])
      else None
    }

    /** GetNeighbors: the neighbours of c that lie on the map, north, east, south, west. */
    method GetNeighbors(c: Coord) returns (r: seq<Coord>)
      ensures forall q :: q in r <==> q in Neighbors(c) && InBounds(q, width, height)
      ensures Distinct(r) && |r| <= 4
    {
      var candidates := Neighbors(c);
      r := [];
      var i := 0;
      while i < |candidates|
        invariant 0 <= i <= |candidates|
        invariant forall q :: q in r <==> q in candidates[..i] && InBounds(q, width, height)
        invariant Distinct(r) && |r| <= i
      {
        assert candidates[..i + 1] == candidates[..i] + [candidates[i]];
        if InBounds(candidates[i], width, height) {
          r := r + [candidates[i]];
        }
        i := i + 1;
      }
      assert candidates[..i] == candidates;
    }

    /**
     * addEntity: add id to the cell at each coordinate in turn; at the first
     * coordinate off the map or cell that refuses, take id back out of the
     * cells already changed, which restores the map exactly.
     */
    method AddEntity(id: Id, coords: seq<Coord>) returns (r: Outcome)
      requires Valid()
      modifies cells
      ensures Valid()
      ensures r.Pass? <==> old(Addable(Contents(), width, height, id, coords, |coords|))
      ensures r.Pass? ==> Contents() == AddAt(old(Contents()), Indices(coords, width), id)
      ensures r.Fail? ==> Contents() == old(Contents())
    {
      ghost var s0 := Contents();
      var n, modified := AddEach(id, coords);
      if n < |coords| {
        var rolledBack := TakeBack(id, coords, n, modified, s0);
        return Fail(if rolledBack then "error adding entity to cell" else "error adding entity to cell; rollback failed");
      }
      assert coords[..n] == coords;
      r := Pass;
    }

    /** The first loop of addEntity: add until a coordinate fails, and report how far it got. */
    method AddEach(id: Id, coords: seq<Coord>) returns (n: int, modified: seq<Cell>)
      requires Valid()
      modifies cells
      ensures Valid()
      ensures Tracked(coords, n, modified)
      ensures old(Addable(Contents(), width, height, id, coords, n))
      ensures n < |coords| ==> !old(AddableAt(Contents(), width, height, id, coords, n))
      ensures Contents() == AddAt(old(Contents()), Indices(coords[..n], width), id)
    {
      ghost var s0 := Contents();
      n, modified := 0, [];
      while n < |coords|
        invariant Valid() && |s0| == |cells|
        invariant Tracked(coords, n, modified)
        invariant Addable(s0, width, height, id, coords, n)
        invariant Contents() == AddAt(s0, Indices(coords[..n], width), id)
      {
        var next, stop := AddNext(id, coords, n, modified, s0);
        if stop {
          return;
        }
        modified := next;
        n := n + 1;
      }
    }

    /** The body of addEntity's first loop: the cell at coords[n] takes id, or the loop stops. */
    method AddNext(id: Id, coords: seq<Coord>, n: int, modified: seq<Cell>, ghost s0: seq<seq<Id>>)
      returns (next: seq<Cell>, stop: bool)
      requires Valid() && |s0| == |cells| && 0 <= n < |coords|
      requires Tracked(coords, n, modified)
      requires Addable(s0, width, height, id, coords, n)
      requires Contents() == AddAt(s0, Indices(coords[..n], width), id)
      modifies cells
      ensures Valid()
      ensures stop <==> !AddableAt(s0, width, height, id, coords, n)
      ensures !stop ==>
        && Tracked(coords, n + 1, next)
        && Addable(s0, width, height, id, coords, n + 1)
        && Contents() == AddAt(s0, Indices(coords[..n + 1], width), id)
      ensures stop ==> Contents() == old(Contents())
    {
      var cell := GetCell(coords[n]);
      if cell.None? {
        return modified, true;
      }
      ghost var k, cur := Index(coords[n], width), Contents();
      AddStep(s0, width, height, id, coords, n);
      var res := AddToCell(cell.value, k, id);
      next, stop := modified + [cell.value], res.Fail?;
      assert res.Pass? <==> id != ZeroId && id !in cur[k];
      assert Tracked(coords, n + 1, next) by {
        assert next[n] == CellAt(coords[n]);
      }
    }

    /** The rollback loop of addEntity: take id back out of each changed cell. */
    method TakeBack(id: Id, coords: seq<Coord>, n: int, modified: seq<Cell>, ghost s0: seq<seq<Id>>)
      returns (ok: bool)
      requires Valid() && 0 <= n <= |coords| && |modified| == n && |s0| == width * height
      requires Addable(s0, width, height, id, coords, n)
      requires Contents() == AddAt(s0, Indices(coords[..n], width), id)
      requires Tracked(coords, n, modified)
      modifies cells
      ensures Valid() && Contents() == s0 && ok
    {
      ok := true;
      var t := 0;
      assert coords[0..n] == coords[..n];
      while t < n
        invariant 0 <= t <= n && Valid() && ok
        invariant Contents() == AddAt(s0, Indices(coords[t..n], width), id)
      {
        var res := TakeNext(id, coords, n, modified, s0, t);
        if res.Fail? {
          ok := false;
        }
        t := t + 1;
      }
    }

    /** The body of addEntity's rollback loop: modified[t] gives id up. */
    method TakeNext(id: Id, coords: seq<Coord>, n: int, modified: seq<Cell>, ghost s0: seq<seq<Id>>, t: int)
      returns (res: Outcome)
      requires Valid() && 0 <= t < n <= |coords| && |s0| == width * height
      requires Addable(s0, width, height, id, coords, n)
      requires Tracked(coords, n, modified)
      requires Contents() == AddAt(s0, Indices(coords[t..n], width), id)
      modifies cells
      ensures Valid() && res.Pass?
      ensures Contents() == AddAt(s0, Indices(coords[t + 1..n], width), id)
    {
      ghost var k := Index(coords[t], width);
      assert AddableAt(s0, width, height, id, coords, t);
      IndexInRange(coords[t], width, height);
      AddableDistinct(s0, width, height, id, coords, t, n);
      IndicesDrop(coords, t, n, width, height);
      res := RemoveFromCell(modified[t], k, id);
      TakeOne(s0, Indices(coords[t..n], width), k, id);
    }

    /**
     * removeEntity: take id out of the cell at each coordinate in turn; at
     * the first coordinate off the map or cell without it, put id back into
     * the cells already changed. The rollback appends, so a cell keeps the
     * same entities but id may move to the end of its list.
     */
    method RemoveEntity(id: Id, coords: seq<Coord>) returns (r: Outcome)
      requires Valid()
      modifies cells
      ensures Valid()
      ensures r.Pass? <==> old(Removable(Contents(), width, height, id, coords, |coords|))
      ensures r.Pass? ==> Contents() == RemoveAt(old(Contents()), Indices(coords, width), id)
      ensures r.Fail? ==> SameMembers(Contents(), old(Contents()))
    {
      ghost var s0 := Contents();
      var n, modified := RemoveEach(id, coords);
      if n < |coords| {
        var rolledBack := PutBack(id, coords, n, modified, s0);
        RemoveThenAdd(s0, width, height, id, coords, n, Indices(coords[..n], width));
        return Fail(if rolledBack then "error removing entity from cell" else "error removing entity from cell; rollback failed");
      }
      assert coords[..n] == coords;
      r := Pass;
    }

    /** The cells a loop has changed so far: modified[t] is the cell of coords[t]. */
    ghost predicate Tracked(coords: seq<Coord>, n: int, modified: seq<Cell>)
    {
      && 0 <= n <= |coords| && |modified| == n && |cells| == width * height
      && forall t :: 0 <= t < n ==> InBounds(coords[t], width, height) && modified[t] == CellAt(coords[t])
    }

    /** The first loop of removeEntity: remove until a coordinate fails, and report how far it got. */
    method RemoveEach(id: Id, coords: seq<Coord>) returns (n: int, modified: seq<Cell>)
      requires Valid()
      modifies cells
      ensures Valid()
      ensures Tracked(coords, n, modified)
      ensures old(Removable(Contents(), width, height, id, coords, n))
      ensures n < |coords| ==> !old(RemovableAt(Contents(), width, height, id, coords, n))
      ensures Contents() == RemoveAt(old(Contents()), Indices(coords[..n], width), id)
    {
      ghost var s0 := Contents();
      n, modified := 0, [];
      while n < |coords|
        invariant Valid() && AllClean(s0) && |s0| == |cells|
        invariant Tracked(coords, n, modified)
        invariant Removable(s0, width, height, id, coords, n)
        invariant Contents() == RemoveAt(s0, Indices(coords[..n], width), id)
      {
        var next, stop := RemoveNext(id, coords, n, modified, s0);
        if stop {
          return;
        }
        modified := next;
        n := n + 1;
      }
    }

    /** The body of removeEntity's first loop: the cell at coords[n] gives id up, or the loop stops. */
    method RemoveNext(id: Id, coords: seq<Coord>, n: int, modified: seq<Cell>, ghost s0: seq<seq<Id>>)
      returns (next: seq<Cell>, stop: bool)
      requires Valid() && AllClean(s0) && |s0| == |cells| && 0 <= n < |coords|
      requires Tracked(coords, n, modified)
      requires Removable(s0, width, height, id, coords, n)
      requires Contents() == RemoveAt(s0, Indices(coords[..n], width), id)
      modifies cells
      ensures Valid()
      ensures stop <==> !RemovableAt(s0, width, height, id, coords, n)
      ensures !stop ==>
        && Tracked(coords, n + 1, next)
        && Removable(s0, width, height, id, coords, n + 1)
        && Contents() == RemoveAt(s0, Indices(coords[..n + 1], width), id)
      ensures stop ==> Contents() == old(Contents())
    {
      var cell := GetCell(coords[n]);
      if cell.None? {
        return modified, true;
      }
      ghost var k, cur := Index(coords[n], width), Contents();
      RemoveStep(s0, width, height, id, coords, n);
      var res := RemoveFromCell(cell.value, k, id);
      next, stop := modified + [cell.value], res.Fail?;
      assert res.Pass? <==> id in cur[k];
      assert Tracked(coords, n + 1, next) by {
        assert next[n] == CellAt(coords[n]);
      }
    }

    /** The rollback loop of removeEntity: add id back to each changed cell. */
    method PutBack(id: Id, coords: seq<Coord>, n: int, modified: seq<Cell>, ghost s0: seq<seq<Id>>)
      returns (ok: bool)
      requires Valid() && 0 <= n <= |coords| && |modified| == n && |s0| == width * height
      requires AllClean(s0) && Removable(s0, width, height, id, coords, n)
      requires Contents() == RemoveAt(s0, Indices(coords[..n], width), id)
      requires Tracked(coords, n, modified)
      modifies cells
      ensures Valid() && ok
      ensures Contents() == AddAt(RemoveAt(s0, Indices(coords[..n], width), id), Indices(coords[..n], width), id)
    {
      ghost var k := Indices(coords[..n], width);
      ghost var rest := RemoveAt(s0, k, id);
      ok := true;
      var t := 0;
      while t < n
        invariant 0 <= t <= n && Valid() && ok
        invariant Contents() == AddAt(rest, Indices(coords[..t], width), id)
      {
        var res := PutNext(id, coords, n, modified, s0, t);
        if res.Fail? {
          ok := false;
        }
        t := t + 1;
      }
      assert coords[..t] == coords[..n];
    }

    /** The body of removeEntity's rollback loop: modified[t] takes id back. */
    method PutNext(id: Id, coords: seq<Coord>, n: int, modified: seq<Cell>, ghost s0: seq<seq<Id>>, t: int)
      returns (res: Outcome)
      requires Valid() && 0 <= t < n <= |coords| && |s0| == width * height
      requires AllClean(s0) && Removable(s0, width, height, id, coords, n)
      requires Tracked(coords, n, modified)
      requires Contents() == AddAt(RemoveAt(s0, Indices(coords[..n], width), id), Indices(coords[..t], width), id)
      modifies cells
      ensures Valid() && res.Pass?
      ensures Contents() == AddAt(RemoveAt(s0, Indices(coords[..n], width), id), Indices(coords[..t + 1], width), id)
    {
      ghost var rest := RemoveAt(s0, Indices(coords[..n], width), id);
      ghost var i := Index(coords[t], width);
      assert RemovableAt(s0, width, height, id, coords, t);
      IndexInRange(coords[t], width, height);
      assert forall j :: 0 <= j < t ==> RemovableAt(s0, width, height, id, coords, j);
      IndexListed(coords[..t], coords[t], width, height);
      assert coords[t] in coords[..n];
      CleanEdits(s0[i], id);
      res := AddToCell(modified[t], i, id);
      AddOne(rest, Indices(coords[..t], width), i, id);
      IndicesSnoc(coords, t, width);
    }

    /** addEntityId on the cell in slot k, seen from the map. */
    method AddToCell(cell: Cell, ghost k: int, id: Id) returns (r: Outcome)
      requires Valid() && 0 <= k < |cells| && cells[k] == cell
      modifies cell
      ensures Valid()
      ensures r.Pass? <==> id != ZeroId && id !in old(Contents())[k]
      ensures Contents() == if r.Pass? then old(Contents())[k := old(Contents())[k] + [id]] else old(Contents())
    {
      ghost var s := Contents();
      r := cell.AddId(id);
      CleanEdits(s[k], id);
      forall j | 0 <= j < |cells| && j != k ensures cells[j].ids == s[j] {
        assert cells[j] != cell;
      }
    }

    /** removeEntityId on the cell in slot k, seen from the map. */
    method RemoveFromCell(cell: Cell, ghost k: int, id: Id) returns (r: Outcome)
      requires Valid() && 0 <= k < |cells| && cells[k] == cell
      modifies cell
      ensures Valid()
      ensures r.Pass? <==> id in old(Contents())[k]
      ensures Contents() == if r.Pass? then old(Contents())[k := Without(old(Contents())[k], id)] else old(Contents())
    {
      ghost var s := Contents();
      r := cell.RemoveId(id);
      CleanEdits(s[k], id);
      forall j | 0 <= j < |cells| && j != k ensures cells[j].ids == s[j] {
        assert cells[j] != cell;
      }
    }
  }

  /** Once id has been taken out of each listed cell, each accepts it again. */
  lemma RemovedAddable(s: seq<seq<Id>>, width: int, height: int, id: Id, cs: seq<Coord>)
    requires |s| == width * height && AllClean(s) && Removable(s, width, height, id, cs, |cs|)
    ensures Addable(RemoveAt(s, Indices(cs, width), id), width, height, id, cs, |cs|)
  {
    var k := Indices(cs, width);
    var t := RemoveAt(s, k, id);
    forall j | 0 <= j < |cs| ensures AddableAt(t, width, height, id, cs, j) {
      assert RemovableAt(s, width, height, id, cs, j);
      var i := Index(cs[j], width);
      IndexInRange(cs[j], width, height);
      assert i in k;
      CleanEdits(s[i], id);
      assert ZeroId !in s[i];
    }
  }

  // ---------------------------------------------------------------------------
  // Entities and the simulation
  // ---------------------------------------------------------------------------

  /** Every coordinate of the list lies on the map. */
  predicate OnMap(cs: seq<Coord>, width: int, height: int)
  { forall j :: 0 <= j < |cs| ==> InBounds(cs[j], width, height) }

  /** Go's ((v % n) + n) % n with its truncating remainder. */
  function Wrap(v: int, n: int): int
    requires n != 0
  {
    GoRem(GoRem(v, n) + n, n)
  }

  /** On a positive size the double remainder is the mathematical modulus. */
  lemma WrapIsModulus(v: int, n: int)
    requires n > 0
    ensures Wrap(v, n) == v % n && 0 <= Wrap(v, n) < n
  {
    var q, r := GoDiv(v, n), GoRem(v, n);
    var m := if r >= 0 then r else r + n;
    assert 0 <= m < n;
    ModulusOf(v, if r >= 0 then q else q - 1, m, n);
    ModulusOf(r + n, if r >= 0 then 1 else 0, m, n);
    GoRemNonNegative(r + n, n);
  }

  /** A remainder in [0, n) that completes a multiple of n to v is v % n. */
  lemma ModulusOf(v: int, q: int, m: int, n: int)
    requires n > 0 && 0 <= m < n && v == q * n + m
    ensures v % n == m
  {
    var d := v / n - q;
    assert d * n == m - v % n;
    assert d >= 1 ==> d * n >= n;
    assert d <= -1 ==> d * n <= -n;
  }

  /** Where one cell of a moving entity lands: a step along d, wrapped around the map when asked. */
  function Shift(c: Coord, d: Direction, wrapping: bool, width: int, height: int): Coord
    requires wrapping ==> width != 0 && height != 0
  {
    var m := Move(c, d);
    if wrapping then Coord(Wrap(m.x, width), Wrap(m.y, height)) else m
  }

  function Targets(cs: seq<Coord>, d: Direction, wrapping: bool, width: int, height: int): (r: seq<Coord>)
    requires wrapping && |cs| > 0 ==> width != 0 && height != 0
    ensures |r| == |cs|
  {
    seq(|cs|, i requires 0 <= i < |cs| => Shift(cs[i], d, wrapping, width, height))
  }

  /** With wrapping on a non-empty map, every target lies on the map, so validation never refuses. */
  lemma WrappedTargetsOnMap(cs: seq<Coord>, d: Direction, width: int, height: int)
    requires width > 0 && height > 0
    ensures OnMap(Targets(cs, d, true, width, height), width, height)
  {
    forall i | 0 <= i < |cs| ensures InBounds(Targets(cs, d, true, width, height)[i], width, height) {
      var m := Move(cs[i], d);
      WrapIsModulus(m.x, width);
      WrapIsModulus(m.y, height);
    }
  }

  /** The loop of moveEntity that computes where each cell goes. */
  method ShiftAll(cs: seq<Coord>, d: Direction, wrapping: bool, width: int, height: int) returns (r: seq<Coord>)
    requires wrapping && |cs| > 0 ==> width != 0 && height != 0
    ensures r == Targets(cs, d, wrapping, width, height)
  {
    r := [];
    var i := 0;
    while i < |cs|
      invariant 0 <= i <= |cs| && |r| == i
      invariant forall j :: 0 <= j < i ==> r[j] == Shift(cs[j], d, wrapping, width, height)
    {
      var m := Move(cs[i], d);
      if wrapping {
        m := Coord(GoRem(GoRem(m.x, width) + width, width), GoRem(GoRem(m.y, height) + height, height));
      }
      r := r + [m];
      i := i + 1;
    }
  }

  /** ValidateCoord applied to every coordinate, stopping at the first one off the map. */
  method ValidateAll(cs: seq<Coord>, width: int, height: int) returns (ok: bool)
    ensures ok <==> OnMap(cs, width, height)
    ensures !ok ==> exists j :: 0 <= j < |cs| && !InBounds(cs[j], width, height)
  {
    var i := 0;
    while i < |cs|
      invariant 0 <= i <= |cs|
      invariant forall j :: 0 <= j < i ==> InBounds(cs[j], width, height)
    {
      if !InBounds(cs[i], width, height) {
        return false;
      }
      i := i + 1;
    }
    return true;
  }

  /** The index map and the list agree: each ID maps to the one position that holds it. */
  ghost predicate IndexedBy(es: seq<Entity>, m: map<Id, int>)
  {
    && (forall id :: id in m ==> 0 <= m[id] < |es| && es[m[id]].id == id)
    && (forall i :: 0 <= i < |es| ==> es[i].id in m && m[es[i].id] == i)
  }

  /**
   * Removing by swapping the last entity into the freed slot keeps the
   * index map exact and drops exactly the removed entity.
   */
  lemma SwapRemove(es: seq<Entity>, m: map<Id, int>, id: Id)
    requires IndexedBy(es, m) && id in m
    ensures var i, last := m[id], |es| - 1;
      var es', m' := es[i := es[last]][..last], m[es[last].id := i] - {id};
      && IndexedBy(es', m')
      && id !in m'
      && multiset(es') == multiset(es) - multiset{es[i]}
      && forall j :: 0 <= j < |es'| ==> es'[j] == es[if j == i then last else j]
  {
    var i, last := m[id], |es| - 1;
    var es', m' := es[i := es[last]][..last], m[es[last].id := i] - {id};
    forall k | k in m' ensures 0 <= m'[k] < |es'| && es'[m'[k]].id == k {
      if k != es[last].id {
        assert m[k] != i && m[k] != last;
      }
    }
    forall j | 0 <= j < |es'| ensures es'[j].id in m' && m'[es'[j].id] == j {
      if j != i {
        assert es[j].id != id && es[j].id != es[last].id;
      }
    }
    SwapRemoveMultiset(es, i);
  }

  /** Overwriting slot i with the last element and dropping the last removes one copy of es[i]. */
  lemma SwapRemoveMultiset<T>(es: seq<T>, i: int)
    requires 0 <= i < |es|
    ensures multiset(es[i := es[|es| - 1]][..|es| - 1]) == multiset(es) - multiset{es[i]}
  {
    var last := |es| - 1;
    var es' := es[i := es[last]][..last];
    assert es == es[..last] + [es[last]];
    if i < last {
      assert es[..last] == es[..i] + [es[i]] + es[i + 1..last];
      assert es' == es[..i] + [es[last]] + es[i + 1..last];
    } else {
      assert es' == es[..last];
    }
  }

  /** An entity: its ID and type never change; its cells and direction do. */
  class Entity {
    const id: Id
    const entityType: string
    var coords: seq<Coord>
    var direction: Direction

    /**
     * NewEntity: the new entity stands at the origin and faces nowhere.
     * The UUID is handed in, since generating it is outside the model.
     */
    constructor (entityType: string, id: Id)
      ensures this.id == id && this.entityType == entityType
      ensures coords == [Coord(0, 0)] && direction == Direction(0, 0)
    {
      this.id := id;
      this.entityType := entityType;
      coords := [Coord(0, 0)];
      direction := Direction(0, 0);
    }
  }

  /** The simulation: a map, the list of entities, and each entity's position in that list. */
  class Simulation {
    const spatialMap: SpatialMap
    var entities: seq<Entity>
    var entityMap: map<Id, int>

    /** entityMap and the list agree: each ID maps to the one position that holds it. */
    ghost predicate Indexed()
      reads this
    {
      IndexedBy(entities, entityMap)
    }

    ghost predicate Valid()
      reads this, spatialMap.cells, entities
    {
      && spatialMap.Valid()
      && Indexed()
      && Placed()
    }

    /** Every entity stands on the map. */
    ghost predicate Placed()
      reads this, entities
    {
      forall i :: 0 <= i < |entities| ==> OnMap(entities[i].coords, spatialMap.width, spatialMap.height)
    }

    /** NewSimulation: an empty map and no entities. */
    constructor (width: int, height: int)
      requires width * height >= 0
      ensures spatialMap.width == width && spatialMap.height == height
      ensures Valid() && entities == [] && entityMap == map[]
      ensures forall i :: 0 <= i < |spatialMap.cells| ==> spatialMap.cells[i].ids == []
    {
      spatialMap := new SpatialMap(width, height);
      entities := [];
      entityMap := map[];
    }

    /** GetEntity: the entity with this ID, when there is one. */
    function GetEntity(id: Id): (r: Option<Entity>)
      requires Indexed()
      reads this
      ensures r.Some? <==> id in entityMap
      ensures r.Some? ==> r.value in entities && r.value.id == id
    {
      if id in entityMap then Some(entities[entityMap[id]]) else None
    }

    /**
     * AddEntity: checks every coordinate, lists the entity on its cells,
     * places it and appends it. A refusal changes nothing.
     */
    method AddEntity(e: Entity, coords: seq<Coord>, direction: Direction) returns (r: Result<Entity>)
      requires Valid()
      modifies this, spatialMap.cells, e
      ensures r.Ok? <==> old(Addable(spatialMap.Contents(), spatialMap.width, spatialMap.height, e.id, coords, |coords|))
      ensures r.Ok? ==>
        && r.value == e && e.coords == coords && e.direction == direction
        && entities == old(entities) + [e]
        && entityMap == old(entityMap)[e.id := |old(entities)|]
        && spatialMap.Contents() == AddAt(old(spatialMap.Contents()), Indices(coords, spatialMap.width), e.id)
      ensures r.Err? ==>
        && entities == old(entities) && entityMap == old(entityMap)
        && spatialMap.Contents() == old(spatialMap.Contents())
        && e.coords == old(e.coords) && e.direction == old(e.direction)
      ensures r.Err? || e.id !in old(entityMap) ==> Valid()
    {
      var valid := ValidateAll(coords, spatialMap.width, spatialMap.height);
      if !valid {
        var j :| 0 <= j < |coords| && !InBounds(coords[j], spatialMap.width, spatialMap.height);
        assert !AddableAt(spatialMap.Contents(), spatialMap.width, spatialMap.height, e.id, coords, j);
        return Err("invalid coordinates for new entity");
      }
      var added := spatialMap.AddEntity(e.id, coords);
      if added.Fail? {
        return Err("failed to add entity at coordinates");
      }
      Append(e, coords, direction);
      return Ok(e);
    }

    /** The second half of addEntity: place the entity and list it at the end. */
    method Append(e: Entity, coords: seq<Coord>, direction: Direction)
      requires Indexed() && Placed() && OnMap(coords, spatialMap.width, spatialMap.height)
      modifies this, e
      ensures e.coords == coords && e.direction == direction
      ensures entities == old(entities) + [e] && entityMap == old(entityMap)[e.id := |old(entities)|]
      ensures Placed()
      ensures old(e.id !in entityMap) ==> Indexed()
    {
      e.coords := coords;
      e.direction := direction;
      entities := entities + [e];
      entityMap := entityMap[e.id := |entities| - 1];
    }

    /**
     * RemoveEntity: takes the entity off its cells, then moves the last
     * entity into its slot and shortens the list.
     */
    method RemoveEntity(id: Id) returns (r: Outcome)
      requires Valid()
      modifies this, spatialMap.cells
      ensures Valid()
      ensures r.Pass? <==> id in old(entityMap) && old(
        var cs := entities[entityMap[id]].coords;
        Removable(spatialMap.Contents(), spatialMap.width, spatialMap.height, id, cs, |cs|))
      ensures r.Pass? ==> id in old(entityMap)
      ensures r.Pass? ==>
        var i, last := old(entityMap)[id], |old(entities)| - 1;
        && entities == old(entities)[i := old(entities)[last]][..last]
        && entityMap == old(entityMap)[old(entities)[last].id := i] - {id}
        && spatialMap.Contents() == RemoveAt(old(spatialMap.Contents()), Indices(old(entities[i].coords), spatialMap.width), id)
      ensures r.Pass? ==> id !in entityMap && multiset(entities) == old(multiset(entities) - multiset{entities[entityMap[id]]})
      ensures r.Fail? ==> entities == old(entities) && entityMap == old(entityMap)
      ensures r.Fail? ==> SameMembers(spatialMap.Contents(), old(spatialMap.Contents()))
      ensures id !in old(entityMap) ==> r.Fail? && spatialMap.Contents() == old(spatialMap.Contents())
    {
      if id !in entityMap {
        return Fail("entity not found");
      }
      var index := entityMap[id];
      var coords := entities[index].coords;
      var removed := spatialMap.RemoveEntity(id, coords);
      if removed.Fail? {
        return Fail("error removing entity from spatial map");
      }
      Forget(id);
      return Pass;
    }

    /** Where the entity with this ID goes on its next move. */
    ghost function Destination(id: Id, wrapping: bool): seq<Coord>
      requires Indexed() && Placed() && id in entityMap
      reads this, entities
    {
      var e := entities[entityMap[id]];
      assert |e.coords| > 0 ==> InBounds(e.coords[0], spatialMap.width, spatialMap.height);
      Targets(e.coords, e.direction, wrapping, spatialMap.width, spatialMap.height)
    }

    /** A move goes through when the current cells list the entity and the targets accept it once it has left. */
    ghost predicate CanMove(id: Id, wrapping: bool)
      requires Valid() && id in entityMap
      reads this, spatialMap.cells, entities
    {
      var cur, tgt := entities[entityMap[id]].coords, Destination(id, wrapping);
      var s, w, h := spatialMap.Contents(), spatialMap.width, spatialMap.height;
      && Removable(s, w, h, id, cur, |cur|)
      && Addable(RemoveAt(s, Indices(cur, w), id), w, h, id, tgt, |tgt|)
    }

    /**
     * MoveEntity: every cell of the entity takes one step along its
     * direction, wrapped around the map when asked. A target off the map
     * leaves everything as it was; a failure after the entity has left
     * its cells puts it back.
     */
    method MoveEntity(id: Id, wrapping: bool) returns (r: Outcome)
      requires Valid()
      modifies spatialMap.cells, entities
      ensures Valid()
      ensures forall j :: 0 <= j < |entities| ==> entities[j].direction == old(entities[j].direction)
      ensures forall j :: 0 <= j < |entities| && entities[j].id != id ==> entities[j].coords == old(entities[j].coords)
      ensures id !in entityMap ==> r.Fail? && spatialMap.Contents() == old(spatialMap.Contents())
      ensures id in entityMap ==> (r.Pass? <==> old(CanMove(id, wrapping)))
      ensures id in entityMap && old(!OnMap(Destination(id, wrapping), spatialMap.width, spatialMap.height)) ==>
        r.Fail? && spatialMap.Contents() == old(spatialMap.Contents())
      ensures r.Pass? ==> id in entityMap
      ensures r.Pass? ==>
        var e, cur, tgt := entities[entityMap[id]], old(entities[entityMap[id]].coords), old(Destination(id, wrapping));
        && e.coords == tgt
        && spatialMap.Contents() == AddAt(RemoveAt(old(spatialMap.Contents()), Indices(cur, spatialMap.width), id), Indices(tgt, spatialMap.width), id)
      ensures r.Fail? && id in entityMap ==>
        && entities[entityMap[id]].coords == old(entities[entityMap[id]].coords)
        && SameMembers(spatialMap.Contents(), old(spatialMap.Contents()))
    {
      var found, index, newCoords, valid := Plan(id, wrapping);
      if !found {
        return Fail("error accessing entity");
      }
      if !valid {
        return Fail("can not move entity to invalid coordinates");
      }
      r := MoveTo(index, newCoords);
    }

    /** The part of moveEntity before anything changes: find the entity, compute its targets, check them. */
    method Plan(id: Id, wrapping: bool) returns (found: bool, index: int, newCoords: seq<Coord>, valid: bool)
      requires Valid()
      ensures found <==> id in entityMap
      ensures found ==> index == entityMap[id] && newCoords == Destination(id, wrapping)
      ensures found ==> (valid <==> OnMap(newCoords, spatialMap.width, spatialMap.height))
      ensures found && !valid ==> !CanMove(id, wrapping)
      ensures found ==> (CanMove(id, wrapping) <==>
        var cur, s, w, h := entities[index].coords, spatialMap.Contents(), spatialMap.width, spatialMap.height;
        && Removable(s, w, h, id, cur, |cur|)
        && Addable(RemoveAt(s, Indices(cur, w), id), w, h, id, newCoords, |newCoords|))
    {
      var entity := GetEntity(id);
      if entity.None? {
        return false, 0, [], false;
      }
      found := true;
      var e := entity.value;
      var w, h := spatialMap.width, spatialMap.height;
      assert |e.coords| > 0 ==> InBounds(e.coords[0], w, h);
      newCoords := ShiftAll(e.coords, e.direction, wrapping, w, h);
      valid := ValidateAll(newCoords, w, h);
      index := entityMap[id];
      if !valid {
        var j :| 0 <= j < |newCoords| && !InBounds(newCoords[j], w, h);
        assert !AddableAt(RemoveAt(spatialMap.Contents(), Indices(e.coords, w), id), w, h, id, newCoords, j);
      }
    }

    /** The part of moveEntity after validation: move on the map, then update the entity in slot index. */
    method MoveTo(index: int, newCoords: seq<Coord>) returns (r: Outcome)
      requires Valid() && 0 <= index < |entities| && OnMap(newCoords, spatialMap.width, spatialMap.height)
      modifies spatialMap.cells, entities[index]
      ensures Valid()
      ensures forall j :: 0 <= j < |entities| ==> entities[j].direction == old(entities[j].direction)
      ensures forall j :: 0 <= j < |entities| && j != index ==> entities[j].coords == old(entities[j].coords)
      ensures
        var id, cur, w, h := entities[index].id, old(entities[index].coords), spatialMap.width, spatialMap.height;
        var s0 := old(spatialMap.Contents());
        && (r.Pass? <==> Removable(s0, w, h, id, cur, |cur|) && Addable(RemoveAt(s0, Indices(cur, w), id), w, h, id, newCoords, |newCoords|))
        && (r.Pass? ==> entities[index].coords == newCoords && spatialMap.Contents() == AddAt(RemoveAt(s0, Indices(cur, w), id), Indices(newCoords, w), id))
        && (r.Fail? ==> entities[index].coords == cur && SameMembers(spatialMap.Contents(), s0))
    {
      r := Relocate(entities[index].id, entities[index].coords, newCoords);
      if r.Pass? {
        SetCoords(index, newCoords);
      }
    }

    /** setPosition on the entity in slot index; the others keep their cells. */
    method SetCoords(index: int, coords: seq<Coord>)
      requires Indexed() && Placed() && 0 <= index < |entities|
      requires OnMap(coords, spatialMap.width, spatialMap.height)
      modifies entities[index]
      ensures Placed() && entities[index].coords == coords
      ensures forall j :: 0 <= j < |entities| ==> entities[j].direction == old(entities[j].direction)
      ensures forall j :: 0 <= j < |entities| && j != index ==> entities[j].coords == old(entities[j].coords)
    {
      forall j | 0 <= j < |entities| && j != index ensures entities[j] != entities[index] {
        assert entityMap[entities[j].id] != entityMap[entities[index].id];
      }
      entities[index].coords := coords;
    }

    /** The map half of moveEntity: leave the current cells, join the new ones, and rejoin the old ones on failure. */
    method Relocate(id: Id, currentCoords: seq<Coord>, newCoords: seq<Coord>) returns (r: Outcome)
      requires spatialMap.Valid()
      modifies spatialMap.cells
      ensures spatialMap.Valid()
      ensures r.Pass? <==>
        var s, w, h := old(spatialMap.Contents()), spatialMap.width, spatialMap.height;
        && Removable(s, w, h, id, currentCoords, |currentCoords|)
        && Addable(RemoveAt(s, Indices(currentCoords, w), id), w, h, id, newCoords, |newCoords|)
      ensures r.Pass? ==>
        spatialMap.Contents() == AddAt(RemoveAt(old(spatialMap.Contents()), Indices(currentCoords, spatialMap.width), id), Indices(newCoords, spatialMap.width), id)
      ensures r.Fail? ==> SameMembers(spatialMap.Contents(), old(spatialMap.Contents()))
    {
      var w, h := spatialMap.width, spatialMap.height;
      ghost var s0 := spatialMap.Contents();
      var removed := spatialMap.RemoveEntity(id, currentCoords);
      if removed.Fail? {
        return Fail("failed to remove entity from current location");
      }
      var added := spatialMap.AddEntity(id, newCoords);
      if added.Fail? {
        RemovedAddable(s0, w, h, id, currentCoords);
        var rollback := spatialMap.AddEntity(id, currentCoords);
        assert currentCoords[..|currentCoords|] == currentCoords;
        RemoveThenAdd(s0, w, h, id, currentCoords, |currentCoords|, Indices(currentCoords, w));
        return if rollback.Fail? then Fail("failed to move entity and failed to rollback")
          else Fail("failed to move entity and successfully rolled back");
      }
      return Pass;
    }

    /** SetEntityDirection: only the named entity turns, and nothing moves. */
    method SetEntityDirection(id: Id, direction: Direction) returns (r: Outcome)
      requires Valid()
      modifies entities
      ensures Valid()
      ensures r.Pass? <==> id in entityMap
      ensures r.Pass? ==> entities[entityMap[id]].direction == direction
      ensures forall j :: 0 <= j < |entities| ==> entities[j].coords == old(entities[j].coords)
      ensures forall j :: 0 <= j < |entities| && entities[j].id != id ==> entities[j].direction == old(entities[j].direction)
    {
      if id !in entityMap {
        return Fail("entity not found");
      }
      var index := entityMap[id];
      entities[index].direction := direction;
      return Pass;
    }

    /** The second half of removeEntity: the last entity fills the freed slot and the list shrinks. */
    method Forget(id: Id)
      requires Indexed() && Placed() && id in entityMap
      modifies this
      ensures
        var i, last := old(entityMap)[id], |old(entities)| - 1;
        && entities == old(entities)[i := old(entities)[last]][..last]
        && entityMap == old(entityMap)[old(entities)[last].id := i] - {id}
      ensures Indexed() && Placed() && id !in entityMap
      ensures multiset(entities) == old(multiset(entities) - multiset{entities[entityMap[id]]})
    {
      var index := entityMap[id];
      var lastIndex := |entities| - 1;
      SwapRemove(entities, entityMap, id);
      if index != lastIndex {
        entities := entities[index := entities[lastIndex]];
        entityMap := entityMap[entities[lastIndex].id := index];
      }
      entityMap := entityMap - {id};
      entities := entities[..lastIndex];
    }
  }

  /**
   * One step of addEntity's first loop, on values: the cell at the next
   * coordinate accepts id exactly when AddableAt holds, and then the map
   * covers one more coordinate.
   */
  lemma AddStep(s0: seq<seq<Id>>, width: int, height: int, id: Id, cs: seq<Coord>, n: int)
    requires |s0| == width * height && 0 <= n < |cs| && InBounds(cs[n], width, height)
    requires Addable(s0, width, height, id, cs, n)
    ensures 0 <= Index(cs[n], width) < |s0|
    ensures var k, cur := Index(cs[n], width), AddAt(s0, Indices(cs[..n], width), id);
      && (id != ZeroId && id !in cur[k] <==> AddableAt(s0, width, height, id, cs, n))
      && (AddableAt(s0, width, height, id, cs, n) ==>
            Addable(s0, width, height, id, cs, n + 1)
            && cur[k := cur[k] + [id]] == AddAt(s0, Indices(cs[..n + 1], width), id))
  {
    var k := Index(cs[n], width);
    IndexInRange(cs[n], width, height);
    forall j | 0 <= j < n ensures InBounds(cs[..n][j], width, height) {
      assert AddableAt(s0, width, height, id, cs, j);
    }
    IndexListed(cs[..n], cs[n], width, height);
    if AddableAt(s0, width, height, id, cs, n) {
      AddOne(s0, Indices(cs[..n], width), k, id);
      IndicesSnoc(cs, n, width);
    }
  }

  /**
   * One step of removeEntity's first loop, on values: the cell at the next
   * coordinate gives id up exactly when RemovableAt holds, and then the map
   * covers one more coordinate.
   */
  lemma RemoveStep(s0: seq<seq<Id>>, width: int, height: int, id: Id, cs: seq<Coord>, n: int)
    requires |s0| == width * height && 0 <= n < |cs| && InBounds(cs[n], width, height)
    requires AllClean(s0) && Removable(s0, width, height, id, cs, n)
    ensures 0 <= Index(cs[n], width) < |s0|
    ensures var k, cur := Index(cs[n], width), RemoveAt(s0, Indices(cs[..n], width), id);
      && (id in cur[k] <==> RemovableAt(s0, width, height, id, cs, n))
      && (RemovableAt(s0, width, height, id, cs, n) ==>
            Removable(s0, width, height, id, cs, n + 1)
            && cur[k := Without(cur[k], id)] == RemoveAt(s0, Indices(cs[..n + 1], width), id))
  {
    var k := Index(cs[n], width);
    IndexInRange(cs[n], width, height);
    forall j | 0 <= j < n ensures InBounds(cs[..n][j], width, height) {
      assert RemovableAt(s0, width, height, id, cs, j);
    }
    IndexListed(cs[..n], cs[n], width, height);
    CleanEdits(s0[k], id);
    if RemovableAt(s0, width, height, id, cs, n) {
      RemoveOne(s0, Indices(cs[..n], width), k, id);
      IndicesSnoc(cs, n, width);
    }
  }

  /** One more slot gets id appended: the map adds that slot to the set. */
  lemma AddOne(s0: seq<seq<Id>>, k: set<int>, i: int, id: Id)
    requires 0 <= i < |s0| && i !in k
    ensures AddAt(s0, k, id)[i := AddAt(s0, k, id)[i] + [id]] == AddAt(s0, k + {i}, id)
  {
  }

  /** One more slot loses id: the map adds that slot to the set. */
  lemma RemoveOne(s0: seq<seq<Id>>, k: set<int>, i: int, id: Id)
    requires 0 <= i < |s0| && i !in k
    ensures RemoveAt(s0, k, id)[i := Without(RemoveAt(s0, k, id)[i], id)] == RemoveAt(s0, k + {i}, id)
  {
  }

  /** One slot gives its appended id back: the map drops that slot from the set. */
  lemma TakeOne(s0: seq<seq<Id>>, k: set<int>, i: int, id: Id)
    requires 0 <= i < |s0| && i in k && id !in s0[i]
    ensures AddAt(s0, k, id)[i := Without(AddAt(s0, k, id)[i], id)] == AddAt(s0, k - {i}, id)
  {
    WithoutAppended(s0[i], id);
  }
}
