/**
 * The interval search tree of 2025 day 5. Nodes hold an interval
 * [start, end] and max, meant to be the largest end in the node's subtree.
 * Insert keeps a binary search tree on start; InsertWithoutOverlap only adds
 * the parts of an interval that no node it meets already covers, restarting
 * from the root for the parts left and right of an overlapping node; Search
 * lists the nodes whose interval contains a value, skipping a left subtree
 * whose max is below it. Node pointers are modelled as a tree value.
 */
module Interval {
  import opened Wrappers

  datatype Tree = Nil | Node(start: int, end: int, max: int, left: Tree, right: Tree)

  datatype Span = Span(start: int, end: int)

  datatype Dir = Left | Right

  function Leaf(s: int, e: int): Tree { Node(s, e, e, Nil, Nil) }

  function Max(a: int, b: int): int { if a < b then b else a }

  /** The intervals of t in pre-order. */
  function Intervals(t: Tree): seq<Span>
  {
    if t.Nil? then [] else [Span(t.start, t.end)] + Intervals(t.left) + Intervals(t.right)
  }

  /** Some node of t contains v. */
  predicate Covered(t: Tree, v: int)
  {
    t.Node? && (t.start <= v <= t.end || Covered(t.left, v) || Covered(t.right, v))
  }

  /** Every node's max is at least every end in its subtree. */
  predicate MaxBound(t: Tree)
  {
    t.Nil? || (MaxBound(t.left) && MaxBound(t.right) && t.max >= t.end
               && (t.left.Node? ==> t.max >= t.left.max) && (t.right.Node? ==> t.max >= t.right.max))
  }

  /** Every node's max is exactly the largest end in its subtree. */
  predicate MaxExact(t: Tree)
  {
    t.Nil? || (MaxExact(t.left) && MaxExact(t.right)
               && t.max == Max(t.end, Max(if t.left.Node? then t.left.max else t.end,
                                          if t.right.Node? then t.right.max else t.end)))
  }

  /** Every start in t is below b. */
  predicate StartsBelow(t: Tree, b: int)
  {
    t.Nil? || (t.start < b && StartsBelow(t.left, b) && StartsBelow(t.right, b))
  }

  /** Every start in t is at least b. */
  predicate StartsFrom(t: Tree, b: int)
  {
    t.Nil? || (t.start >= b && StartsFrom(t.left, b) && StartsFrom(t.right, b))
  }

  /** Intervals with a smaller start are on the left, the others on the right. */
  predicate StartOrdered(t: Tree)
  {
    t.Nil? || (StartOrdered(t.left) && StartOrdered(t.right)
               && StartsBelow(t.left, t.start) && StartsFrom(t.right, t.start))
  }

  /** Every interval in t lies wholly below b. */
  predicate Before(t: Tree, b: int)
  {
    t.Nil? || (t.start < b && t.end < b && Before(t.left, b) && Before(t.right, b))
  }

  /** Every interval in t lies wholly above b. */
  predicate After(t: Tree, b: int)
  {
    t.Nil? || (t.start > b && t.end > b && After(t.left, b) && After(t.right, b))
  }

  /** No interval of t is inverted. */
  predicate Proper(t: Tree)
  {
    t.Nil? || (t.start <= t.end && Proper(t.left) && Proper(t.right))
  }

  /** Left subtrees lie wholly before a node's interval and right subtrees wholly after it. */
  predicate Separated(t: Tree)
  {
    t.Nil? || (Separated(t.left) && Separated(t.right)
               && Before(t.left, t.start) && After(t.right, t.end))
  }

  lemma {:induction false} MaxExactBound(t: Tree)
    requires MaxExact(t)
    ensures MaxBound(t)
  {
    if t.Node? {
      MaxExactBound(t.left);
      MaxExactBound(t.right);
    }
  }

  lemma {:induction false} MaxBoundEnds(t: Tree)
    requires MaxBound(t) && t.Node?
    ensures forall x :: x in Intervals(t) ==> x.end <= t.max
  {
    if t.left.Node? { MaxBoundEnds(t.left); }
    if t.right.Node? { MaxBoundEnds(t.right); }
  }

  // ---------------------------------------------------------------- Insert

  /** Insert / _insert: a plain search-tree insertion on start, raising max on the way back. */
  function InsertNode(t: Tree, s: int, e: int): (r: Tree)
    ensures r.Node?
    ensures t.Nil? ==> r == Leaf(s, e)
    ensures t.Node? ==> r.start == t.start && r.end == t.end && r.max == Max(t.max, e)
  {
    if t.Nil? then Leaf(s, e)
    else if s < t.start then Node(t.start, t.end, Max(t.max, e), InsertNode(t.left, s, e), t.right)
    else Node(t.start, t.end, Max(t.max, e), t.left, InsertNode(t.right, s, e))
  }

  lemma {:induction false} InsertIntervals(t: Tree, s: int, e: int)
    ensures multiset(Intervals(InsertNode(t, s, e))) == multiset(Intervals(t)) + multiset{Span(s, e)}
  {
    if t.Node? {
      if s < t.start { InsertIntervals(t.left, s, e); } else { InsertIntervals(t.right, s, e); }
    }
  }

  lemma {:induction false} InsertBounds(t: Tree, s: int, e: int, b: int)
    ensures StartsBelow(t, b) && s < b ==> StartsBelow(InsertNode(t, s, e), b)
    ensures StartsFrom(t, b) && s >= b ==> StartsFrom(InsertNode(t, s, e), b)
  {
    if t.Node? {
      if s < t.start { InsertBounds(t.left, s, e, b); } else { InsertBounds(t.right, s, e, b); }
    }
  }

  /** InsertNode keeps the search-tree order on start. */
  lemma {:induction false} InsertStartOrdered(t: Tree, s: int, e: int)
    requires StartOrdered(t)
    ensures StartOrdered(InsertNode(t, s, e))
  {
    if t.Node? {
      if s < t.start {
        InsertStartOrdered(t.left, s, e);
        InsertBounds(t.left, s, e, t.start);
      } else {
        InsertStartOrdered(t.right, s, e);
        InsertBounds(t.right, s, e, t.start);
      }
    }
  }

  lemma {:induction false} InsertMaxExact(t: Tree, s: int, e: int)
    requires MaxExact(t)
    ensures MaxExact(InsertNode(t, s, e))
  {
    if t.Node? {
      if s < t.start { InsertMaxExact(t.left, s, e); } else { InsertMaxExact(t.right, s, e); }
    }
  }

  // ---------------------------------------------------- InsertWithoutOverlap

  /** Where an interval stops on its way down: an empty child slot, or a node it overlaps. */
  datatype Landing =
    | Attach(path: seq<Dir>, side: Dir)
    | Overlap(path: seq<Dir>, start: int, end: int)

  function Prepend(d: Dir, l: Landing): Landing
  {
    match l
    case Attach(p, side) => Attach([d] + p, side)
    case Overlap(p, a, b) => Overlap([d] + p, a, b)
  }

  /** The descent of _insertWithoutOverlap from node t. */
  function Locate(t: Tree, s: int, e: int): (l: Landing)
    requires t.Node?
    ensures l.Overlap? ==> !(s < l.start && e < l.start) && !(s > l.end && e > l.end)
  {
    if s < t.start && e < t.start then
      if t.left.Nil? then Attach([], Left) else Prepend(Left, Locate(t.left, s, e))
    else if s > t.end && e > t.end then
      if t.right.Nil? then Attach([], Right) else Prepend(Right, Locate(t.right, s, e))
    else Overlap([], t.start, t.end)
  }

  /** Follows path, raising every max on it to e, and hangs the leaf [s, e] on side of the last node. */
  function Graft(t: Tree, path: seq<Dir>, side: Dir, s: int, e: int): Tree
  {
    if t.Nil? then t
    else if path == [] then
      if side == Left then Node(t.start, t.end, Max(t.max, e), Leaf(s, e), t.right)
      else Node(t.start, t.end, Max(t.max, e), t.left, Leaf(s, e))
    else if path[0] == Left then Node(t.start, t.end, Max(t.max, e), Graft(t.left, path[1..], side, s, e), t.right)
    else Node(t.start, t.end, Max(t.max, e), t.left, Graft(t.right, path[1..], side, s, e))
  }

  /** Raises max to e on the nodes along path; the last node too only when last is set. */
  function Bump(t: Tree, path: seq<Dir>, e: int, last: bool): (r: Tree)
    ensures Intervals(r) == Intervals(t)
  {
    if t.Nil? then t
    else if path == [] then (if last then Node(t.start, t.end, Max(t.max, e), t.left, t.right) else t)
    else if path[0] == Left then Node(t.start, t.end, Max(t.max, e), Bump(t.left, path[1..], e, last), t.right)
    else Node(t.start, t.end, Max(t.max, e), t.left, Bump(t.right, path[1..], e, last))
  }

  function Width(s: int, e: int): nat { if e >= s then e - s else 0 }

  /**
   * InsertWithoutOverlap. At an overlapping node [ns, ne] the part
   * [s, ns - 1] and then the part [ne + 1, e] are inserted again from the
   * root; after the second part the node itself keeps its max, while its
   * ancestors still raise theirs to e.
   */
  function InsertNodeWithoutOverlap(t: Tree, s: int, e: int): Tree
    decreases Width(s, e), 1
  {
    if t.Nil? then Leaf(s, e)
    else
      var l := Locate(t, s, e);
      if l.Attach? then Grafted(t, s, e)
      else InsertAround(t, s, e, l.path, l.start, l.end)
  }

  /** The overlap case, at the node [ns, ne] that path leads to. */
  function InsertAround(t: Tree, s: int, e: int, path: seq<Dir>, ns: int, ne: int): Tree
    requires s < ns ==> ns <= e
    requires e > ne ==> s <= ne
    decreases Width(s, e), 0
  {
    var t1 := if s < ns then InsertNodeWithoutOverlap(t, s, ns - 1) else t;
    var t2 := if e > ne then InsertNodeWithoutOverlap(t1, ne + 1, e) else t1;
    Bump(t2, path, e, !(e > ne))
  }

  lemma {:induction false} BumpMaxBound(t: Tree, path: seq<Dir>, e: int, last: bool)
    requires MaxBound(t)
    ensures MaxBound(Bump(t, path, e, last))
    ensures t.Node? ==> Bump(t, path, e, last).Node? && Bump(t, path, e, last).max >= t.max
  {
    if t.Node? && path != [] {
      if path[0] == Left { BumpMaxBound(t.left, path[1..], e, last); }
      else { BumpMaxBound(t.right, path[1..], e, last); }
    }
  }

  lemma {:induction false} BumpShape(t: Tree, path: seq<Dir>, e: int, last: bool)
    ensures Separated(Bump(t, path, e, last)) == Separated(t)
    ensures forall b :: Before(Bump(t, path, e, last), b) == Before(t, b)
    ensures forall b :: After(Bump(t, path, e, last), b) == After(t, b)
  {
    if t.Node? && path != [] {
      if path[0] == Left { BumpShape(t.left, path[1..], e, last); }
      else { BumpShape(t.right, path[1..], e, last); }
    }
  }

  /** The graft InsertNodeWithoutOverlap performs when Locate finds an empty slot. */
  function Grafted(t: Tree, s: int, e: int): Tree
    requires t.Node? && Locate(t, s, e).Attach?
  {
    Graft(t, Locate(t, s, e).path, Locate(t, s, e).side, s, e)
  }

  lemma GraftUnfold(t: Tree, s: int, e: int)
    requires t.Node? && Locate(t, s, e).Attach?
    ensures s < t.start && e < t.start ==>
      Grafted(t, s, e) == Node(t.start, t.end, Max(t.max, e),
                               if t.left.Nil? then Leaf(s, e) else Grafted(t.left, s, e), t.right)
    ensures !(s < t.start && e < t.start) ==>
      (s > t.end && e > t.end &&
       Grafted(t, s, e) == Node(t.start, t.end, Max(t.max, e), t.left,
                                if t.right.Nil? then Leaf(s, e) else Grafted(t.right, s, e)))
  {
    if s < t.start && e < t.start {
      if t.left.Node? {
        var l := Locate(t.left, s, e);
        assert ([Left] + l.path)[1..] == l.path;
      }
    } else if t.right.Node? {
      var l := Locate(t.right, s, e);
      assert ([Right] + l.path)[1..] == l.path;
    }
  }

  /** Grafting at the slot Locate found adds exactly the interval [s, e]. */
  /** Replacing the left child by one with one interval more adds that interval. */
  lemma SwapLeft(t: Tree, l: Tree, mx: int, x: Span)
    requires t.Node? && multiset(Intervals(l)) == multiset(Intervals(t.left)) + multiset{x}
    ensures multiset(Intervals(Node(t.start, t.end, mx, l, t.right))) == multiset(Intervals(t)) + multiset{x}
  {
  }

  /** Replacing the right child by one with one interval more adds that interval. */
  lemma SwapRight(t: Tree, r: Tree, mx: int, x: Span)
    requires t.Node? && multiset(Intervals(r)) == multiset(Intervals(t.right)) + multiset{x}
    ensures multiset(Intervals(Node(t.start, t.end, mx, t.left, r))) == multiset(Intervals(t)) + multiset{x}
  {
  }

  lemma {:induction false} GraftIntervals(t: Tree, s: int, e: int)
    requires t.Node? && Locate(t, s, e).Attach?
    ensures multiset(Intervals(Grafted(t, s, e))) == multiset(Intervals(t)) + multiset{Span(s, e)}
  {
    GraftUnfold(t, s, e);
    if s < t.start && e < t.start {
      var l := if t.left.Nil? then Leaf(s, e) else Grafted(t.left, s, e);
      if t.left.Node? { GraftIntervals(t.left, s, e); }
      SwapLeft(t, l, Max(t.max, e), Span(s, e));
    } else {
      var r := if t.right.Nil? then Leaf(s, e) else Grafted(t.right, s, e);
      if t.right.Node? { GraftIntervals(t.right, s, e); }
      SwapRight(t, r, Max(t.max, e), Span(s, e));
    }
  }

  lemma {:induction false} GraftCovers(t: Tree, s: int, e: int, v: int)
    requires t.Node? && Locate(t, s, e).Attach?
    ensures Covered(Grafted(t, s, e), v) <==> Covered(t, v) || s <= v <= e
  {
    GraftUnfold(t, s, e);
    if s < t.start && e < t.start {
      if t.left.Node? { GraftCovers(t.left, s, e, v); }
    } else {
      if t.right.Node? { GraftCovers(t.right, s, e, v); }
    }
  }

  lemma {:induction false} GraftMaxBound(t: Tree, s: int, e: int)
    requires t.Node? && Locate(t, s, e).Attach? && MaxBound(t)
    ensures Grafted(t, s, e).Node? && Grafted(t, s, e).max == Max(t.max, e)
    ensures MaxBound(Grafted(t, s, e))
  {
    GraftUnfold(t, s, e);
    if s < t.start && e < t.start {
      if t.left.Node? { GraftMaxBound(t.left, s, e); }
    } else {
      if t.right.Node? { GraftMaxBound(t.right, s, e); }
    }
  }

  /** A graft keeps every upper bound the new interval also respects. */
  lemma {:induction false} GraftBefore(t: Tree, s: int, e: int, b: int)
    requires t.Node? && Locate(t, s, e).Attach?
    requires Before(t, b) && s < b && e < b
    ensures Before(Grafted(t, s, e), b)
  {
    GraftUnfold(t, s, e);
    if s < t.start && e < t.start {
      if t.left.Node? { GraftBefore(t.left, s, e, b); }
    } else {
      if t.right.Node? { GraftBefore(t.right, s, e, b); }
    }
  }

  /** A graft keeps every lower bound the new interval also respects. */
  lemma {:induction false} GraftAfter(t: Tree, s: int, e: int, b: int)
    requires t.Node? && Locate(t, s, e).Attach?
    requires After(t, b) && s > b && e > b
    ensures After(Grafted(t, s, e), b)
  {
    GraftUnfold(t, s, e);
    if s < t.start && e < t.start {
      if t.left.Node? { GraftAfter(t.left, s, e, b); }
    } else {
      if t.right.Node? { GraftAfter(t.right, s, e, b); }
    }
  }

  /** A graft keeps the tree separated. */
  lemma {:induction false} GraftSeparated(t: Tree, s: int, e: int)
    requires t.Node? && Locate(t, s, e).Attach?
    requires Separated(t)
    ensures Separated(Grafted(t, s, e))
  {
    GraftUnfold(t, s, e);
    if s < t.start && e < t.start {
      if t.left.Node? {
        GraftSeparated(t.left, s, e);
        GraftBefore(t.left, s, e, t.start);
      } else {
        assert Before(Leaf(s, e), t.start);
      }
    } else {
      if t.right.Node? {
        GraftSeparated(t.right, s, e);
        GraftAfter(t.right, s, e, t.end);
      } else {
        assert After(Leaf(s, e), t.end);
      }
    }
  }

  /** InsertWithoutOverlap covers exactly what t covered plus [s, e]. */
  lemma {:induction false} InsertWithoutOverlapCovers(t: Tree, s: int, e: int, v: int)
    ensures Covered(InsertNodeWithoutOverlap(t, s, e), v) <==> Covered(t, v) || s <= v <= e
    decreases Width(s, e), 1
  {
    if t.Node? {
      var l := Locate(t, s, e);
      if l.Attach? {
        GraftCovers(t, s, e, v);
      } else {
        OverlapNodeCovered(t, s, e, v);
        AroundCovers(t, s, e, l.path, l.start, l.end, v);
      }
    }
  }

  lemma {:induction false} AroundCovers(t: Tree, s: int, e: int, path: seq<Dir>, ns: int, ne: int, v: int)
    requires s < ns ==> ns <= e
    requires e > ne ==> s <= ne
    requires ns <= v <= ne ==> Covered(t, v)
    ensures Covered(InsertAround(t, s, e, path, ns, ne), v) <==> Covered(t, v) || s <= v <= e
    decreases Width(s, e), 0
  {
    var t1 := if s < ns then InsertNodeWithoutOverlap(t, s, ns - 1) else t;
    var t2 := if e > ne then InsertNodeWithoutOverlap(t1, ne + 1, e) else t1;
    if s < ns { InsertWithoutOverlapCovers(t, s, ns - 1, v); }
    if e > ne { InsertWithoutOverlapCovers(t1, ne + 1, e, v); }
    BumpCovers(t2, path, e, !(e > ne), v);
  }

  /** The node Locate stops at belongs to t, so t covers its interval. */
  lemma {:induction false} OverlapNodeCovered(t: Tree, s: int, e: int, v: int)
    requires t.Node? && Locate(t, s, e).Overlap?
    ensures Locate(t, s, e).start <= v <= Locate(t, s, e).end ==> Covered(t, v)
  {
    if s < t.start && e < t.start {
      OverlapNodeCovered(t.left, s, e, v);
    } else if s > t.end && e > t.end {
      OverlapNodeCovered(t.right, s, e, v);
    }
  }

  lemma {:induction false} BumpCovers(t: Tree, path: seq<Dir>, e: int, last: bool, v: int)
    ensures Covered(Bump(t, path, e, last), v) == Covered(t, v)
  {
    if t.Node? && path != [] {
      if path[0] == Left { BumpCovers(t.left, path[1..], e, last, v); }
      else { BumpCovers(t.right, path[1..], e, last, v); }
    }
  }

  /** InsertWithoutOverlap keeps every max an upper bound of the ends below it. */
  lemma {:induction false} InsertWithoutOverlapMaxBound(t: Tree, s: int, e: int)
    requires MaxBound(t)
    ensures MaxBound(InsertNodeWithoutOverlap(t, s, e))
    decreases Width(s, e), 1
  {
    if t.Node? {
      var l := Locate(t, s, e);
      if l.Attach? {
        GraftMaxBound(t, s, e);
      } else {
        AroundMaxBound(t, s, e, l.path, l.start, l.end);
      }
    }
  }

  lemma {:induction false} AroundMaxBound(t: Tree, s: int, e: int, path: seq<Dir>, ns: int, ne: int)
    requires s < ns ==> ns <= e
    requires e > ne ==> s <= ne
    requires MaxBound(t)
    ensures MaxBound(InsertAround(t, s, e, path, ns, ne))
    decreases Width(s, e), 0
  {
    var t1 := if s < ns then InsertNodeWithoutOverlap(t, s, ns - 1) else t;
    var t2 := if e > ne then InsertNodeWithoutOverlap(t1, ne + 1, e) else t1;
    if s < ns { InsertWithoutOverlapMaxBound(t, s, ns - 1); }
    if e > ne { InsertWithoutOverlapMaxBound(t1, ne + 1, e); }
    BumpMaxBound(t2, path, e, !(e > ne));
  }

  /** InsertWithoutOverlap keeps the intervals separated, hence pairwise disjoint. */
  lemma {:induction false} InsertWithoutOverlapSeparated(t: Tree, s: int, e: int)
    requires Separated(t)
    ensures Separated(InsertNodeWithoutOverlap(t, s, e))
    decreases Width(s, e), 1
  {
    if t.Node? {
      var l := Locate(t, s, e);
      if l.Attach? {
        GraftSeparated(t, s, e);
      } else {
        AroundSeparated(t, s, e, l.path, l.start, l.end);
      }
    }
  }

  lemma {:induction false} AroundSeparated(t: Tree, s: int, e: int, path: seq<Dir>, ns: int, ne: int)
    requires s < ns ==> ns <= e
    requires e > ne ==> s <= ne
    requires Separated(t)
    ensures Separated(InsertAround(t, s, e, path, ns, ne))
    decreases Width(s, e), 0
  {
    var t1 := if s < ns then InsertNodeWithoutOverlap(t, s, ns - 1) else t;
    var t2 := if e > ne then InsertNodeWithoutOverlap(t1, ne + 1, e) else t1;
    if s < ns { InsertWithoutOverlapSeparated(t, s, ns - 1); }
    if e > ne { InsertWithoutOverlapSeparated(t1, ne + 1, e); }
    BumpShape(t2, path, e, !(e > ne));
  }

  lemma {:induction false} GraftProper(t: Tree, s: int, e: int)
    requires t.Node? && Locate(t, s, e).Attach? && Proper(t) && s <= e
    ensures Proper(Grafted(t, s, e))
  {
    GraftUnfold(t, s, e);
    if s < t.start && e < t.start {
      if t.left.Node? { GraftProper(t.left, s, e); }
    } else {
      if t.right.Node? { GraftProper(t.right, s, e); }
    }
  }

  lemma {:induction false} BumpProper(t: Tree, path: seq<Dir>, e: int, last: bool)
    ensures Proper(Bump(t, path, e, last)) == Proper(t)
  {
    if t.Node? && path != [] {
      if path[0] == Left { BumpProper(t.left, path[1..], e, last); }
      else { BumpProper(t.right, path[1..], e, last); }
    }
  }

  /** A non-inverted interval only ever adds non-inverted pieces. */
  lemma {:induction false} InsertWithoutOverlapProper(t: Tree, s: int, e: int)
    requires Proper(t) && s <= e
    ensures Proper(InsertNodeWithoutOverlap(t, s, e))
    decreases Width(s, e), 1
  {
    if t.Node? {
      var l := Locate(t, s, e);
      if l.Attach? {
        GraftProper(t, s, e);
      } else {
        AroundProper(t, s, e, l.path, l.start, l.end);
      }
    }
  }

  lemma {:induction false} AroundProper(t: Tree, s: int, e: int, path: seq<Dir>, ns: int, ne: int)
    requires s < ns ==> ns <= e
    requires e > ne ==> s <= ne
    requires Proper(t) && s <= e
    ensures Proper(InsertAround(t, s, e, path, ns, ne))
    decreases Width(s, e), 0
  {
    var t1 := if s < ns then InsertNodeWithoutOverlap(t, s, ns - 1) else t;
    var t2 := if e > ne then InsertNodeWithoutOverlap(t1, ne + 1, e) else t1;
    if s < ns { InsertWithoutOverlapProper(t, s, ns - 1); }
    if e > ne { InsertWithoutOverlapProper(t1, ne + 1, e); }
    BumpProper(t2, path, e, !(e > ne));
  }

  // ---------------------------------------------------------------- Search

  /** The intervals of t that contain v, in pre-order. */
  function Hits(t: Tree, v: int): seq<Span>
  {
    if t.Nil? then []
    else (if t.start <= v <= t.end then [Span(t.start, t.end)] else [])
         + Hits(t.left, v) + Hits(t.right, v)
  }

  /** Search / _searchIntervals: pre-order, skipping a left child whose max is below v. */
  function SearchNodes(t: Tree, v: int): (r: seq<Span>)
    ensures forall x :: x in r ==> x in Intervals(t) && x.start <= v <= x.end
    ensures t.Nil? ==> r == []
  {
    if t.Nil? then []
    else (if t.start <= v <= t.end then [Span(t.start, t.end)] else [])
         + (if t.left.Node? && t.left.max >= v then SearchNodes(t.left, v) else [])
         + SearchNodes(t.right, v)
  }

  lemma {:induction false} NoHitsBelowMax(t: Tree, v: int)
    requires MaxBound(t) && t.Node? && t.max < v
    ensures Hits(t, v) == []
  {
    if t.left.Node? { NoHitsBelowMax(t.left, v); }
    if t.right.Node? { NoHitsBelowMax(t.right, v); }
  }

  /** With max kept as a bound, the pruning loses nothing: Search returns every containing interval. */
  lemma {:induction false} SearchComplete(t: Tree, v: int)
    requires MaxBound(t)
    ensures SearchNodes(t, v) == Hits(t, v)
  {
    if t.Node? {
      SearchComplete(t.left, v);
      SearchComplete(t.right, v);
      if t.left.Node? && t.left.max < v {
        NoHitsBelowMax(t.left, v);
      }
    }
  }

  lemma {:induction false} NoHitsOutside(t: Tree, b: int, v: int)
    ensures Before(t, b) && b <= v ==> Hits(t, v) == []
    ensures After(t, b) && v <= b ==> Hits(t, v) == []
  {
    if t.Node? {
      NoHitsOutside(t.left, b, v);
      NoHitsOutside(t.right, b, v);
    }
  }

  /** In a separated tree no value lies in two intervals. */
  lemma {:induction false} SeparatedHitsAtMostOne(t: Tree, v: int)
    requires Separated(t) && Proper(t)
    ensures |Hits(t, v)| <= 1
  {
    if t.Node? {
      SeparatedHitsAtMostOne(t.left, v);
      SeparatedHitsAtMostOne(t.right, v);
      if v >= t.start { NoHitsOutside(t.left, t.start, v); }
      if v <= t.end { NoHitsOutside(t.right, t.end, v); }
    }
  }

  /** The tree object: a root that Insert and InsertWithoutOverlap replace. */
  class IntervalTree {
    var root: Tree

    constructor ()
      ensures root == Nil
    {
      root := Nil;
    }

    method Insert(start: int, end: int)
      modifies this
      ensures root == InsertNode(old(root), start, end)
    {
      root := InsertNode(root, start, end);
    }

    method InsertWithoutOverlap(start: int, end: int)
      modifies this
      ensures root == InsertNodeWithoutOverlap(old(root), start, end)
    {
      root := InsertNodeWithoutOverlap(root, start, end);
    }

    method Search(value: int) returns (result: seq<Span>)
      ensures result == SearchNodes(root, value)
    {
      result := SearchNodes(root, value);
    }
  }
}
