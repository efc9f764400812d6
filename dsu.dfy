/**
 * The disjoint-set union of 2025 day 8: parent, rank and size arrays with
 * path compression in Find and union by rank, plus a count of the sets.
 * The ghost sequence root gives each element's representative and depth is
 * a potential that strictly drops from a node to its parent, so Find
 * terminates; Valid() ties both to the real arrays. The facts about one
 * compression step and one link are proved on sequence values.
 */
module Dsu {
  /** p is a forest whose representatives are root, with depth dropping towards the roots. */
  ghost predicate Forest(p: seq<int>, root: seq<int>, depth: seq<nat>)
  {
    && |root| == |p| && |depth| == |p|
    && (forall i :: 0 <= i < |p| ==> 0 <= p[i] < |p| && 0 <= root[i] < |p|)
    && (forall i {:trigger p[root[i]]} :: 0 <= i < |p| ==> p[root[i]] == root[i])
    && (forall i {:trigger root[p[i]]} :: 0 <= i < |p| ==> root[p[i]] == root[i])
    && (forall i :: 0 <= i < |p| && p[i] == i ==> root[i] == i && depth[i] == 0)
    && (forall i {:trigger depth[p[i]]} :: 0 <= i < |p| && p[i] != i ==> depth[p[i]] < depth[i])
  }

  /** The representatives: the elements that are their own parent. */
  function RootSet(p: seq<int>): set<int>
  {
    set i | 0 <= i < |p| && p[i] == i
  }

  /** The elements whose representative is r. */
  function MemberSet(root: seq<int>, r: int): set<int>
  {
    set i | 0 <= i < |root| && root[i] == r
  }

  /** Every representative records the size of its set. */
  ghost predicate Sized(p: seq<int>, root: seq<int>, size: seq<int>)
  {
    |size| == |p| && forall r :: 0 <= r < |p| && p[r] == r ==> size[r] == |MemberSet(root, r)|
  }

  /** The nodes from x up to its root, both included. */
  ghost function Path(p: seq<int>, root: seq<int>, depth: seq<nat>, x: int): (s: set<int>)
    requires Forest(p, root, depth) && 0 <= x < |p|
    ensures x in s && forall y :: y in s ==> 0 <= y < |p|
    decreases depth[x]
  {
    if p[x] == x then {x} else {x} + Path(p, root, depth, p[x])
  }

  /** Re-pointing x straight at its root keeps the forest with the same representatives. */
  lemma Compress(p: seq<int>, root: seq<int>, depth: seq<nat>, x: int)
    requires Forest(p, root, depth) && 0 <= x < |p|
    ensures Forest(p[x := root[x]], root, depth)
  {
    var q := p[x := root[x]];
    assert p[root[x]] == root[x];
    assert root[root[x]] == root[x];
    assert depth[root[x]] == 0;
    forall i | 0 <= i < |p|
      ensures q[root[i]] == root[i] && root[q[i]] == root[i]
    {
      assert p[root[i]] == root[i];
    }
    forall i | 0 <= i < |p| && q[i] == i
      ensures root[i] == i && depth[i] == 0
    {
      assert root[p[i]] == root[i];
    }
    forall i | 0 <= i < |p| && q[i] != i
      ensures depth[q[i]] < depth[i]
    {
      if i == x {
        assert p[x] != x;
        assert depth[p[x]] < depth[x];
      }
    }
  }

  /** Re-pointing x straight at its root keeps the set of roots. */
  lemma CompressRoots(p: seq<int>, root: seq<int>, depth: seq<nat>, x: int)
    requires Forest(p, root, depth) && 0 <= x < |p|
    ensures RootSet(p[x := root[x]]) == RootSet(p)
  {
    assert p[root[x]] == root[x];
    if p[x] != x {
      assert root[x] != x;
    }
  }

  /** root with every element of l's set moved to w. */
  function Relabel(root: seq<int>, l: int, w: int): (r: seq<int>)
    ensures |r| == |root|
    ensures forall i :: 0 <= i < |root| ==> r[i] == if root[i] == l then w else root[i]
  {
    seq(|root|, i requires 0 <= i < |root| => if root[i] == l then w else root[i])
  }

  /** depth with every element of l's set lowered one level. */
  function Bump(depth: seq<nat>, root: seq<int>, l: int): (d: seq<nat>)
    requires |root| == |depth|
    ensures |d| == |depth|
    ensures forall i :: 0 <= i < |depth| ==> d[i] == if root[i] == l then depth[i] + 1 else depth[i]
  {
    seq(|depth|, i requires 0 <= i < |depth| => if root[i] == l then depth[i] + 1 else depth[i])
  }

  /** Hanging root l under root w keeps a forest, with l's set now represented by w. */
  lemma LinkForest(p: seq<int>, root: seq<int>, depth: seq<nat>, w: int, l: int)
    requires Forest(p, root, depth)
    requires 0 <= w < |p| && 0 <= l < |p| && p[w] == w && p[l] == l && w != l
    ensures Forest(p[l := w], Relabel(root, l, w), Bump(depth, root, l))
  {
    var q := p[l := w];
    var root' := Relabel(root, l, w);
    var depth' := Bump(depth, root, l);
    assert root[w] == w && root[l] == l;
    forall i | 0 <= i < |p|
      ensures q[root'[i]] == root'[i] && root'[q[i]] == root'[i]
    {
      assert root[p[i]] == root[i];
    }
    forall i | 0 <= i < |p|
      ensures (q[i] == i ==> root'[i] == i && depth'[i] == 0) && (q[i] != i ==> depth'[q[i]] < depth'[i])
    {
      assert root[p[i]] == root[i];
    }
  }

  /** A link loses exactly the root l. */
  lemma LinkRoots(p: seq<int>, w: int, l: int)
    requires 0 <= w < |p| && 0 <= l < |p| && p[w] == w && p[l] == l && w != l
    ensures RootSet(p[l := w]) == RootSet(p) - {l}
    ensures |RootSet(p[l := w])| == |RootSet(p)| - 1
  {
    assert RootSet(p[l := w]) == RootSet(p) - {l};
    assert l in RootSet(p);
  }

  /** A link merges l's set into w's and leaves every other set alone. */
  lemma LinkMembers(p: seq<int>, root: seq<int>, depth: seq<nat>, w: int, l: int)
    requires Forest(p, root, depth)
    requires 0 <= w < |p| && 0 <= l < |p| && p[w] == w && p[l] == l && w != l
    ensures |MemberSet(Relabel(root, l, w), w)| == |MemberSet(root, w)| + |MemberSet(root, l)|
    ensures forall r :: r != w && r != l ==> MemberSet(Relabel(root, l, w), r) == MemberSet(root, r)
  {
    assert MemberSet(Relabel(root, l, w), w) == MemberSet(root, w) + MemberSet(root, l);
    assert MemberSet(root, w) * MemberSet(root, l) == {};
  }

  /** After a link the winner's recorded size is the sum of both sets; the other sizes stay right. */
  lemma LinkSized(p: seq<int>, root: seq<int>, depth: seq<nat>, size: seq<int>, w: int, l: int)
    requires Forest(p, root, depth) && Sized(p, root, size)
    requires 0 <= w < |p| && 0 <= l < |p| && p[w] == w && p[l] == l && w != l
    ensures Sized(p[l := w], Relabel(root, l, w), size[w := size[w] + size[l]])
  {
    LinkMembers(p, root, depth, w, l);
    var q := p[l := w];
    var root' := Relabel(root, l, w);
    var size' := size[w := size[w] + size[l]];
    forall r | 0 <= r < |q| && q[r] == r
      ensures size'[r] == |MemberSet(root', r)|
    {
      assert p[r] == r;
      if r != w {
        assert r != l;
        assert MemberSet(root', r) == MemberSet(root, r);
      }
    }
  }

  /** Sum of m[r] over the keys r below k. */
  ghost function SizeSum(m: map<int, int>, k: nat): int
  {
    if k == 0 then 0 else SizeSum(m, k - 1) + (if k - 1 in m then m[k - 1] else 0)
  }

  function RangeSet(n: nat): (s: set<int>)
    ensures forall i :: i in s <==> 0 <= i < n
    ensures |s| == n
  {
    if n == 0 then {} else RangeSet(n - 1) + {n - 1}
  }

  /** The set sizes below k add up to the number of elements whose root is below k. */
  lemma {:induction false} SizeSumMembers(root: seq<int>, roots: set<int>, m: map<int, int>, k: nat)
    requires forall i :: 0 <= i < |root| ==> 0 <= root[i] && root[i] in roots
    requires m.Keys == roots
    requires forall r :: r in m ==> m[r] == |MemberSet(root, r)|
    ensures SizeSum(m, k) == |set i | 0 <= i < |root| && root[i] < k|
  {
    var below := set i | 0 <= i < |root| && root[i] < k;
    if k == 0 {
      assert below == {};
    } else {
      SizeSumMembers(root, roots, m, k - 1);
      var before := set i | 0 <= i < |root| && root[i] < k - 1;
      assert below == before + MemberSet(root, k - 1);
      if k - 1 !in m {
        assert MemberSet(root, k - 1) == {};
      }
    }
  }

  /** The sequences behind a DSU: a forest, count its number of sets, size right at every root. */
  ghost predicate State(p: seq<int>, size: seq<int>, root: seq<int>, depth: seq<nat>, count: int)
  {
    Forest(p, root, depth) && count == |RootSet(p)| && Sized(p, root, size)
  }

  /** A link keeps the state, with one set fewer. */
  lemma LinkState(p: seq<int>, size: seq<int>, root: seq<int>, depth: seq<nat>, count: int, w: int, l: int)
    requires State(p, size, root, depth, count)
    requires 0 <= w < |p| && 0 <= l < |p| && p[w] == w && p[l] == l && w != l
    ensures State(p[l := w], size[w := size[w] + size[l]], Relabel(root, l, w), Bump(depth, root, l), count - 1)
  {
    LinkForest(p, root, depth, w, l);
    LinkRoots(p, w, l);
    LinkSized(p, root, depth, size, w, l);
  }

  /** Path compression at x keeps the state. */
  lemma CompressState(p: seq<int>, size: seq<int>, root: seq<int>, depth: seq<nat>, count: int, x: int)
    requires State(p, size, root, depth, count) && 0 <= x < |p|
    ensures State(p[x := root[x]], size, root, depth, count)
  {
    Compress(p, root, depth, x);
    CompressRoots(p, root, depth, x);
    var q := p[x := root[x]];
    forall r | 0 <= r < |q| && q[r] == r
      ensures size[r] == |MemberSet(root, r)|
    {
      assert r in RootSet(q);
      assert p[r] == r;
    }
  }

  /** A map from every element's representative to its set size covers the roots and adds up to n. */
  lemma SizesTotal(p: seq<int>, root: seq<int>, depth: seq<nat>, sizes: map<int, int>)
    requires Forest(p, root, depth)
    requires sizes.Keys == set j | 0 <= j < |p| :: root[j]
    requires forall r :: r in sizes ==> sizes[r] == |MemberSet(root, r)|
    ensures sizes.Keys == RootSet(p)
    ensures SizeSum(sizes, |p|) == |p|
  {
    assert sizes.Keys == RootSet(p) by {
      forall r | r in RootSet(p) ensures r in sizes.Keys {
        assert root[r] == r;
      }
    }
    forall i | 0 <= i < |p| ensures root[i] in RootSet(p) {
      assert p[root[i]] == root[i];
    }
    SizeSumMembers(root, RootSet(p), sizes, |p|);
    assert (set j | 0 <= j < |p| && root[j] < |p|) == RangeSet(|p|);
  }

  /** n singletons: everyone is its own parent and representative. */
  lemma IdentityForest(p: seq<int>, depth: seq<nat>, size: seq<int>)
    requires |depth| == |p| && |size| == |p|
    requires forall i :: 0 <= i < |p| ==> p[i] == i && depth[i] == 0 && size[i] == 1
    ensures State(p, size, p, depth, |p|)
  {
    assert RootSet(p) == RangeSet(|p|);
    forall r | 0 <= r < |p| ensures MemberSet(p, r) == {r} {
    }
  }

  class DSU {
    const parent: array<int>
    const rank: array<int>
    const size: array<int>
    var count: int
    ghost var root: seq<int>
    ghost var depth: seq<nat>

    ghost predicate Valid()
      reads this, parent, rank, size
    {
      && parent != rank && parent != size && rank != size
      && rank.Length == parent.Length && size.Length == parent.Length
      && State(parent[..], size[..], root, depth, count)
    }

    constructor (n: int)
      requires n >= 0
      ensures Valid() && fresh(parent) && fresh(rank) && fresh(size)
      ensures parent.Length == n && count == n
      ensures forall i :: 0 <= i < n ==> parent[i] == i && size[i] == 1 && rank[i] == 0
      ensures root == seq(n, i => i)
    {
      parent := new int[n];
      rank := new int[n](_ => 0);
      size := new int[n];
      count := n;
      root := seq(n, i => i);
      depth := seq(n, i => 0);
      new;
      var i := 0;
      while i < n
        invariant 0 <= i <= n
        invariant forall j :: 0 <= j < i ==> parent[j] == j && size[j] == 1
        modifies parent, size
      {
        parent[i] := i;
        size[i] := 1;
        i := i + 1;
      }
      assert parent[..] == root;
      IdentityForest(parent[..], depth, size[..]);
    }

    /** The representative of x; every node on x's path is re-pointed at it. */
    method Find(x: int) returns (r: int)
      requires Valid() && 0 <= x < parent.Length
      modifies parent
      ensures Valid() && root == old(root) && depth == old(depth) && count == old(count)
      ensures r == root[x] && parent[r] == r
      ensures forall i :: 0 <= i < parent.Length ==>
        parent[i] == if i in Path(old(parent[..]), root, depth, x) then r else old(parent[i])
      decreases depth[x]
    {
      var p := parent[x];
      if p == x {
        return x;
      }
      ghost var before := parent[..];
      assert Path(before, root, depth, x) == {x} + Path(before, root, depth, p);
      r := Find(p);
      ghost var mid := parent[..];
      CompressState(mid, size[..], root, depth, count, x);
      parent[x] := r;
      assert parent[..] == mid[x := root[x]];
    }

    /** Merges the sets of a and b by rank; the count drops by one unless they already were one set. */
    method Union(a: int, b: int)
      requires Valid() && 0 <= a < parent.Length && 0 <= b < parent.Length
      modifies this, parent, rank, size
      ensures Valid()
      ensures root[a] == root[b]
      ensures old(root[a]) == old(root[b]) ==>
        root == old(root) && count == old(count) && size[..] == old(size[..]) && rank[..] == old(rank[..])
      ensures old(root[a]) != old(root[b]) ==>
        count == old(count) - 1
        && var winner := if old(rank[root[a]]) < old(rank[root[b]]) then old(root[b]) else old(root[a]);
           var loser := if winner == old(root[a]) then old(root[b]) else old(root[a]);
           size[winner] == old(size[root[a]]) + old(size[root[b]])
           && root == Relabel(old(root), loser, winner)
    {
      var rootA := Find(a);
      var rootB := Find(b);
      if rootA == rootB {
        return;
      }
      if rank[rootA] < rank[rootB] {
        Link(rootB, rootA);
      } else if rank[rootA] > rank[rootB] {
        Link(rootA, rootB);
      } else {
        Link(rootA, rootB);
        rank[rootA] := rank[rootA] + 1;
      }
    }

    /** Hangs root loser under root winner, adds up the sizes and drops the count. */
    method Link(winner: int, loser: int)
      requires Valid() && 0 <= winner < parent.Length && 0 <= loser < parent.Length
      requires parent[winner] == winner && parent[loser] == loser && winner != loser
      modifies this, parent, size
      ensures Valid()
      ensures count == old(count) - 1
      ensures parent[..] == old(parent[..])[loser := winner]
      ensures size[..] == old(size[..])[winner := old(size[winner] + size[loser])]
      ensures root == Relabel(old(root), loser, winner)
    {
      ghost var p := parent[..];
      ghost var s := size[..];
      LinkState(p, s, root, depth, count, winner, loser);
      parent[loser] := winner;
      size[winner] := size[winner] + size[loser];
      count := count - 1;
      depth := Bump(depth, root, loser);
      root := Relabel(root, loser, winner);
      assert parent[..] == p[loser := winner];
      assert size[..] == s[winner := s[winner] + s[loser]];
    }

    /** Whether a and b are in the same set (compressing both paths). */
    method Same(a: int, b: int) returns (same: bool)
      requires Valid() && 0 <= a < parent.Length && 0 <= b < parent.Length
      modifies parent
      ensures Valid() && root == old(root) && count == old(count)
      ensures same <==> root[a] == root[b]
    {
      var ra := Find(a);
      var rb := Find(b);
      same := ra == rb;
    }

    /** The number of elements in x's set. */
    method Size(x: int) returns (n: int)
      requires Valid() && 0 <= x < parent.Length
      modifies parent
      ensures Valid() && root == old(root) && count == old(count)
      ensures n == |MemberSet(root, root[x])|
    {
      var r := Find(x);
      n := size[r];
    }

    /** The number of disjoint sets. */
    function Count(): (c: int)
      requires Valid()
      reads this, parent, rank, size
      ensures c == |RootSet(parent[..])|
    {
      count
    }

    /** root -> size for every set; the sizes add up to the number of elements. */
    method SetSizes() returns (sizes: map<int, int>)
      requires Valid()
      modifies parent
      ensures Valid() && root == old(root) && count == old(count)
      ensures sizes.Keys == RootSet(parent[..])
      ensures |sizes| == count
      ensures forall r :: r in sizes ==> sizes[r] == |MemberSet(root, r)|
      ensures SizeSum(sizes, parent.Length) == parent.Length
    {
      sizes := map[];
      var i := 0;
      while i < parent.Length
        invariant 0 <= i <= parent.Length
        invariant Valid() && root == old(root) && count == old(count)
        invariant sizes.Keys == set j | 0 <= j < i :: root[j]
        invariant forall r :: r in sizes ==> sizes[r] == |MemberSet(root, r)|
      {
        var r := Find(i);
        sizes := sizes[r := size[r]];
        i := i + 1;
      }
      SizesTotal(parent[..], root, depth, sizes);
    }
  }
}
