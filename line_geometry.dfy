/**
 * Axis-aligned lines between two grid points (2025/9 geometry.Line).
 *
 * A line holds two point pointers; either may be nil. Validate accepts a
 * line whose points are present, differ, and share an X or a Y. The
 * lower-case operations do not validate and need only present points; the
 * exported ones panic on an invalid line, which is modelled as None.
 */
module LineGeometry {
  import opened Wrappers
  import GoMath

  datatype Point = Point(x: int, y: int)

  /** A line from A to B; None stands for a nil point pointer. */
  datatype Line = Line(a: Option<Point>, b: Option<Point>)

  datatype LineError = NilPoint | NotAxisAligned | ZeroLength

  /** Both endpoints are present: what the unvalidated operations dereference. */
  predicate Present(l: Line)
  { l.a.Some? && l.b.Some? }

  /**
   * Validate: the first failing check, or None when the line is valid. Nil
   * points are reported first, then a line that moves along both axes, then
   * a line whose endpoints coincide.
   */
  function Validate(l: Line): (r: Option<LineError>)
    ensures r == Some(NilPoint) <==> !Present(l)
    ensures r == Some(NotAxisAligned) <==> Present(l) && l.a.value.x != l.b.value.x && l.a.value.y != l.b.value.y
    ensures r == Some(ZeroLength) <==> Present(l) && l.a.value == l.b.value
    ensures r.None? <==> Present(l) && (l.a.value.x == l.b.value.x) != (l.a.value.y == l.b.value.y)
  {
    if l.a.None? || l.b.None? then Some(NilPoint)
    else if l.a.value.x != l.b.value.x && l.a.value.y != l.b.value.y then Some(NotAxisAligned)
    else if l.a.value.x == l.b.value.x && l.a.value.y == l.b.value.y then Some(ZeroLength)
    else None
  }

  predicate Valid(l: Line)
  { Validate(l).None? }

  /** NewLine: the line from a to b, or None where the source panics. */
  function NewLine(a: Option<Point>, b: Option<Point>): (r: Option<Line>)
    ensures r.Some? <==> Valid(Line(a, b))
    ensures r.Some? ==> r.value.a == a && r.value.b == b
  {
    var line := Line(a, b);
    if Validate(line).Some? then None else Some(line)
  }

  // ---------------------------------------------------------------------------
  // Unvalidated operations
  // ---------------------------------------------------------------------------

  function IsVerticalRaw(l: Line): (r: bool)
    requires Present(l)
    ensures Valid(l) ==> (r <==> l.a.value.y != l.b.value.y)
  { l.a.value.x == l.b.value.x }

  function IsHorizontalRaw(l: Line): (r: bool)
    requires Present(l)
    ensures Valid(l) ==> (r <==> l.a.value.x != l.b.value.x)
  { l.a.value.y == l.b.value.y }

  /** A valid line is exactly one of vertical and horizontal. */
  lemma OneOrientation(l: Line)
    requires Valid(l)
    ensures IsVerticalRaw(l) != IsHorizontalRaw(l)
  {
  }

  /** The Manhattan distance between two points. */
  function Manhattan(p: Point, q: Point): nat
  { GoMath.Abs(p.x - q.x) + GoMath.Abs(p.y - q.y) }

  /** length: the number of grid points along the line, both endpoints included. */
  function LengthRaw(l: Line): (r: int)
    requires Present(l)
    ensures r >= 1
    ensures Valid(l) ==> r == Manhattan(l.a.value, l.b.value) + 1 && r >= 2
  {
    if IsVerticalRaw(l) then GoMath.Abs(l.a.value.y - l.b.value.y) + 1
    else GoMath.Abs(l.a.value.x - l.b.value.x) + 1
  }

  /**
   * On a valid line the length is one more than the distance between the
   * endpoints, so at least 2, and it does not depend on the direction.
   */
  lemma LengthIsDistance(l: Line)
    requires Valid(l)
    ensures LengthRaw(l) == Manhattan(l.a.value, l.b.value) + 1
    ensures LengthRaw(l) >= 2
    ensures LengthRaw(Line(l.b, l.a)) == LengthRaw(l)
  {
  }

  /** The smaller and the larger of two coordinates. */
  function Lo(p: int, q: int): int { if p <= q then p else q }
  function Hi(p: int, q: int): int { if p <= q then q else p }

  /** The grid points of a line, endpoints included. */
  ghost predicate OnLine(p: Point, l: Line)
    requires Present(l)
  {
    var a, b := l.a.value, l.b.value;
    Lo(a.x, b.x) <= p.x <= Hi(a.x, b.x) && Lo(a.y, b.y) <= p.y <= Hi(a.y, b.y)
  }

  /** The grid points a valid line covers. */
  function Cells(l: Line): set<Point>
    requires Valid(l)
  {
    var a, b := l.a.value, l.b.value;
    if IsVerticalRaw(l) then ColumnPoints(a.x, Lo(a.y, b.y), Hi(a.y, b.y))
    else RowPoints(a.y, Lo(a.x, b.x), Hi(a.x, b.x))
  }

  /**
   * The cells of a valid line are exactly the grid points between its
   * endpoints, and there are as many of them as its length.
   */
  lemma CellsMeans(l: Line, p: Point)
    requires Valid(l)
    ensures p in Cells(l) <==> OnLine(p, l)
    ensures |Cells(l)| == LengthRaw(l)
  {
    var a, b := l.a.value, l.b.value;
    if IsVerticalRaw(l) {
      ColumnPointsHas(a.x, Lo(a.y, b.y), Hi(a.y, b.y), p);
      ColumnPointsCount(a.x, Lo(a.y, b.y), Hi(a.y, b.y));
    } else {
      RowPointsHas(a.y, Lo(a.x, b.x), Hi(a.x, b.x), p);
      RowPointsCount(a.y, Lo(a.x, b.x), Hi(a.x, b.x));
    }
  }

  /** The points (x, lo) .. (x, hi). */
  function ColumnPoints(x: int, lo: int, hi: int): set<Point>
    decreases hi - lo
  { if hi < lo then {} else ColumnPoints(x, lo, hi - 1) + {Point(x, hi)} }

  lemma {:induction false} ColumnPointsHas(x: int, lo: int, hi: int, p: Point)
    ensures p in ColumnPoints(x, lo, hi) <==> p.x == x && lo <= p.y <= hi
    decreases hi - lo
  {
    if hi >= lo {
      ColumnPointsHas(x, lo, hi - 1, p);
    }
  }

  lemma {:induction false} ColumnPointsCount(x: int, lo: int, hi: int)
    requires lo <= hi + 1
    ensures |ColumnPoints(x, lo, hi)| == hi - lo + 1
    decreases hi - lo
  {
    if hi >= lo {
      ColumnPointsCount(x, lo, hi - 1);
      ColumnPointsHas(x, lo, hi - 1, Point(x, hi));
    }
  }

  /** The points (lo, y) .. (hi, y). */
  function RowPoints(y: int, lo: int, hi: int): set<Point>
    decreases hi - lo
  { if hi < lo then {} else RowPoints(y, lo, hi - 1) + {Point(hi, y)} }

  lemma {:induction false} RowPointsHas(y: int, lo: int, hi: int, p: Point)
    ensures p in RowPoints(y, lo, hi) <==> p.y == y && lo <= p.x <= hi
    decreases hi - lo
  {
    if hi >= lo {
      RowPointsHas(y, lo, hi - 1, p);
    }
  }

  lemma {:induction false} RowPointsCount(y: int, lo: int, hi: int)
    requires lo <= hi + 1
    ensures |RowPoints(y, lo, hi)| == hi - lo + 1
    decreases hi - lo
  {
    if hi >= lo {
      RowPointsCount(y, lo, hi - 1);
      RowPointsHas(y, lo, hi - 1, Point(hi, y));
    }
  }

  /** areCollinear: same orientation and the same fixed coordinate. */
  function AreCollinearRaw(l1: Line, l2: Line): (r: bool)
    requires Present(l1) && Present(l2)
    ensures Valid(l1) && Valid(l2) ==>
              (r <==> (l1.a.value.x == l1.b.value.x == l2.a.value.x == l2.b.value.x)
                      || (l1.a.value.y == l1.b.value.y == l2.a.value.y == l2.b.value.y))
  {
    if IsVerticalRaw(l1) != IsVerticalRaw(l2) then false
    else if IsVerticalRaw(l1) then l1.a.value.x == l2.a.value.x
    else l1.a.value.y == l2.a.value.y
  }

  /** Two valid lines are collinear exactly when all four endpoints share an X, or all share a Y. */
  lemma CollinearMeans(l1: Line, l2: Line)
    requires Valid(l1) && Valid(l2)
    ensures AreCollinearRaw(l1, l2) <==>
              (l1.a.value.x == l1.b.value.x == l2.a.value.x == l2.b.value.x)
              || (l1.a.value.y == l1.b.value.y == l2.a.value.y == l2.b.value.y)
    ensures AreCollinearRaw(l1, l2) == AreCollinearRaw(l2, l1)
  {
  }

  /** The coordinates a line spans along its own axis: Y for a vertical line, X otherwise. */
  function Span(l: Line): (int, int)
    requires Present(l)
  {
    if IsVerticalRaw(l) then (l.a.value.y, l.b.value.y) else (l.a.value.x, l.b.value.x)
  }

  /**
   * doesOverlap: collinear, and after ordering each span and putting the one
   * that starts first in front, the second starts before the first ends.
   */
  function DoesOverlapRaw(l1: Line, l2: Line): (r: bool)
    requires Present(l1) && Present(l2)
    ensures r ==> AreCollinearRaw(l1, l2)
    ensures Valid(l1) && Valid(l2) ==>
              (r <==> AreCollinearRaw(l1, l2)
                      && MaxOf(Lo(Span(l1).0, Span(l1).1), Lo(Span(l2).0, Span(l2).1))
                         < MinOf(Hi(Span(l1).0, Span(l1).1), Hi(Span(l2).0, Span(l2).1)))
  {
    if !AreCollinearRaw(l1, l2) then false
    else
      var (ls0, le0) := Span(l1);
      var (os0, oe0) := Span(l2);
      var (ls1, le1) := if ls0 > le0 then (le0, ls0) else (ls0, le0);
      var (os1, oe1) := if os0 > oe0 then (oe0, os0) else (os0, oe0);
      var (ls, le, os, oe) := if ls1 > os1 then (os1, oe1, ls1, le1) else (ls1, le1, os1, oe1);
      os < le
  }

  /**
   * Two valid lines overlap exactly when they are collinear and the common
   * part of their spans has positive length: sharing only an endpoint is not
   * an overlap. Overlap is symmetric.
   */
  lemma OverlapMeans(l1: Line, l2: Line)
    requires Valid(l1) && Valid(l2)
    ensures DoesOverlapRaw(l1, l2) <==>
              AreCollinearRaw(l1, l2)
              && MaxOf(Lo(Span(l1).0, Span(l1).1), Lo(Span(l2).0, Span(l2).1))
                 < MinOf(Hi(Span(l1).0, Span(l1).1), Hi(Span(l2).0, Span(l2).1))
    ensures DoesOverlapRaw(l1, l2) == DoesOverlapRaw(l2, l1)
  {
    CollinearMeans(l1, l2);
  }

  function MaxOf(p: int, q: int): int { if p >= q then p else q }
  function MinOf(p: int, q: int): int { if p <= q then p else q }

  /** Collinear lines that meet end to end share a single point and do not overlap. */
  lemma TouchingDoNotOverlap(l1: Line, l2: Line)
    requires Valid(l1) && Valid(l2) && AreCollinearRaw(l1, l2)
    requires Hi(Span(l1).0, Span(l1).1) == Lo(Span(l2).0, Span(l2).1)
    ensures !DoesOverlapRaw(l1, l2)
  {
    OverlapMeans(l1, l2);
  }

  /**
   * doesCross: with the vertical line first (swapping when the first is
   * horizontal and the second vertical), the vertical line's X lies strictly
   * inside the horizontal line's X range and the horizontal line's Y
   * strictly inside the vertical line's Y range.
   */
  function DoesCrossRaw(l1: Line, l2: Line): (r: bool)
    requires Present(l1) && Present(l2)
    ensures Valid(l1) && Valid(l2) ==>
              (r <==> (IsVerticalRaw(l1) && IsHorizontalRaw(l2) && CrossInside(l1, l2))
                      || (IsHorizontalRaw(l1) && IsVerticalRaw(l2) && CrossInside(l2, l1)))
  {
    var (v, h) := if IsHorizontalRaw(l1) && IsVerticalRaw(l2) then (l2, l1) else (l1, l2);
    var x := v.a.value.x;
    var y := h.a.value.y;
    var (hx1, hx2) := if h.a.value.x > h.b.value.x then (h.b.value.x, h.a.value.x) else (h.a.value.x, h.b.value.x);
    var (vy1, vy2) := if v.a.value.y > v.b.value.y then (v.b.value.y, v.a.value.y) else (v.a.value.y, v.b.value.y);
    hx1 < x && x < hx2 && vy1 < y && y < vy2
  }

  /** The vertical line v and the horizontal line h meet at a point strictly inside both. */
  predicate CrossInside(v: Line, h: Line)
    requires Present(v) && Present(h)
  {
    var x, y := v.a.value.x, h.a.value.y;
    Lo(h.a.value.x, h.b.value.x) < x < Hi(h.a.value.x, h.b.value.x)
    && Lo(v.a.value.y, v.b.value.y) < y < Hi(v.a.value.y, v.b.value.y)
  }

  /**
   * Two valid lines cross exactly when one is vertical, the other horizontal,
   * and they meet strictly inside both; touching at an endpoint, parallel
   * and collinear lines never cross. Crossing is symmetric.
   */
  lemma CrossMeans(l1: Line, l2: Line)
    requires Valid(l1) && Valid(l2)
    ensures DoesCrossRaw(l1, l2) <==>
              (IsVerticalRaw(l1) && IsHorizontalRaw(l2) && CrossInside(l1, l2))
              || (IsHorizontalRaw(l1) && IsVerticalRaw(l2) && CrossInside(l2, l1))
    ensures DoesCrossRaw(l1, l2) == DoesCrossRaw(l2, l1)
  {
  }

  // ---------------------------------------------------------------------------
  // Validated operations: None where the source panics on an invalid line
  // ---------------------------------------------------------------------------

  function Length(l: Line): (r: Option<int>)
    ensures r.None? <==> !Valid(l)
    ensures r.Some? ==> r.value == Manhattan(l.a.value, l.b.value) + 1
  {
    if Validate(l).Some? then None
    else
      LengthIsDistance(l);
      Some(LengthRaw(l))
  }

  function IsVertical(l: Line): (r: Option<bool>)
    ensures r.None? <==> !Valid(l)
    ensures r.Some? ==> (r.value <==> l.a.value.x == l.b.value.x && l.a.value.y != l.b.value.y)
  {
    if Validate(l).Some? then None else Some(IsVerticalRaw(l))
  }

  function IsHorizontal(l: Line): (r: Option<bool>)
    ensures r.None? <==> !Valid(l)
    ensures r.Some? ==> (r.value <==> l.a.value.y == l.b.value.y && l.a.value.x != l.b.value.x)
  {
    if Validate(l).Some? then None else Some(IsHorizontalRaw(l))
  }

  function AreCollinear(l1: Line, l2: Line): (r: Option<bool>)
    ensures r.None? <==> !Valid(l1) || !Valid(l2)
    ensures r.Some? ==> r.value == AreCollinearRaw(l1, l2)
  {
    if Validate(l1).Some? || Validate(l2).Some? then None else Some(AreCollinearRaw(l1, l2))
  }

  function DoesOverlap(l1: Line, l2: Line): (r: Option<bool>)
    ensures r.None? <==> !Valid(l1) || !Valid(l2)
    ensures r.Some? ==> r.value == DoesOverlapRaw(l1, l2)
  {
    if Validate(l1).Some? || Validate(l2).Some? then None else Some(DoesOverlapRaw(l1, l2))
  }

  function DoesCross(l1: Line, l2: Line): (r: Option<bool>)
    ensures r.None? <==> !Valid(l1) || !Valid(l2)
    ensures r.Some? ==> r.value == DoesCrossRaw(l1, l2)
  {
    if Validate(l1).Some? || Validate(l2).Some? then None else Some(DoesCrossRaw(l1, l2))
  }
}
