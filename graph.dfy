/**
 * The directed graph of 2025 day 7: an adjacency map from node name to its
 * list of children, and a memoised count of the paths from a node down to
 * the leaves (nodes with no children). Counting terminates only on an
 * acyclic graph; the model asks for a ghost rank that decreases along every
 * edge as the witness of that.
 */
module PathGraph {
  import opened Wrappers

  type Adjacency = map<string, seq<string>>

  /** No child appears twice in one adjacency list. */
  predicate NoDuplicateEdges(m: Adjacency)
  {
    forall k, i, j :: k in m && 0 <= i < j < |m[k]| ==> m[k][i] != m[k][j]
  }

  /** AddNode on the map: a missing node gets an empty list, an existing one is left alone. */
  function WithNode(m: Adjacency, n: string): (r: Adjacency)
    ensures r.Keys == m.Keys + {n}
    ensures n in m ==> r == m
    ensures n !in m ==> r[n] == [] && forall k :: k in m ==> r[k] == m[k]
  {
    if n in m then m else m[n := []]
  }

  /** AddEdge on the map: both ends become nodes, and b joins a's children unless already there. */
  function WithEdge(m: Adjacency, a: string, b: string): (r: Adjacency)
    ensures r.Keys == m.Keys + {a, b}
    ensures b in r[a]
    ensures a in m && b in m && b in m[a] ==> r == m
    ensures a in m && b !in m[a] ==> r[a] == m[a] + [b]
    ensures a !in m ==> r[a] == [b]
    ensures forall k :: k in r && k != a ==> r[k] == (if k in m then m[k] else [])
    ensures NoDuplicateEdges(m) ==> NoDuplicateEdges(r)
  {
    var m1 := WithNode(WithNode(m, a), b);
    if b in m1[a] then m1 else m1[a := m1[a] + [b]]
  }

  /** Adding an edge a second time changes nothing. */
  lemma AddEdgeIdempotent(m: Adjacency, a: string, b: string)
    ensures WithEdge(WithEdge(m, a, b), a, b) == WithEdge(m, a, b)
  {
  }

  /** rank decreases along every edge between nodes of m: the graph is acyclic. */
  ghost predicate Ranked(m: Adjacency, rank: map<string, nat>)
  {
    && (forall k :: k in m ==> k in rank)
    && (forall k, i :: k in m && 0 <= i < |m[k]| && m[k][i] in m ==> rank[m[k][i]] < rank[k])
  }

  function Measure(m: Adjacency, rank: map<string, nat>, n: string): nat
    requires forall k :: k in m ==> k in rank
  {
    if n in m then rank[n] + 1 else 0
  }

  /** Paths from n: 0 for an unknown node, 1 for a leaf, else the sum over the children. */
  ghost function PathCount(m: Adjacency, rank: map<string, nat>, n: string): nat
    requires Ranked(m, rank)
    decreases Measure(m, rank, n), 1
  {
    if n !in m then 0
    else if |m[n]| == 0 then 1
    else ChildSum(m, rank, n, |m[n]|)
  }

  /** The paths counted from the first k children of n. */
  ghost function ChildSum(m: Adjacency, rank: map<string, nat>, n: string, k: nat): nat
    requires Ranked(m, rank) && n in m && k <= |m[n]|
    decreases Measure(m, rank, n), 0, k
  {
    if k == 0 then 0 else ChildSum(m, rank, n, k - 1) + PathCount(m, rank, m[n][k - 1])
  }

  /** A path to a leaf: consecutive edges of m, ending at a node with no children. */
  ghost predicate LeafPath(m: Adjacency, p: seq<string>)
  {
    && |p| >= 1
    && (forall i :: 0 <= i < |p| ==> p[i] in m)
    && (forall i :: 0 <= i < |p| - 1 ==> p[i + 1] in m[p[i]])
    && |m[p[|p| - 1]]| == 0
  }

  /** The paths from n to a leaf, one per choice of child at each step. */
  ghost function LeafPaths(m: Adjacency, rank: map<string, nat>, n: string): seq<seq<string>>
    requires Ranked(m, rank)
    decreases Measure(m, rank, n), 1
  {
    if n !in m then []
    else if |m[n]| == 0 then [[n]]
    else ChildPaths(m, rank, n, |m[n]|)
  }

  ghost function ChildPaths(m: Adjacency, rank: map<string, nat>, n: string, k: nat): seq<seq<string>>
    requires Ranked(m, rank) && n in m && k <= |m[n]|
    decreases Measure(m, rank, n), 0, k
  {
    if k == 0 then []
    else ChildPaths(m, rank, n, k - 1) + Prefixed(n, LeafPaths(m, rank, m[n][k - 1]))
  }

  function Prefixed(n: string, ps: seq<seq<string>>): (r: seq<seq<string>>)
    ensures |r| == |ps| && forall i :: 0 <= i < |ps| ==> r[i] == [n] + ps[i]
  {
    if ps == [] then [] else [[n] + ps[0]] + Prefixed(n, ps[1..])
  }

  /**
   * PathCount counts the leaf paths: every listed path starts at n and is a
   * path to a leaf, and there are PathCount of them.
   */
  lemma {:induction false} PathCountCountsPaths(m: Adjacency, rank: map<string, nat>, n: string)
    requires Ranked(m, rank)
    ensures |LeafPaths(m, rank, n)| == PathCount(m, rank, n)
    ensures forall p :: p in LeafPaths(m, rank, n) ==> LeafPath(m, p) && p[0] == n
    decreases Measure(m, rank, n), 1
  {
    if n in m && |m[n]| > 0 {
      ChildPathsCount(m, rank, n, |m[n]|);
    }
  }

  lemma {:induction false} ChildPathsCount(m: Adjacency, rank: map<string, nat>, n: string, k: nat)
    requires Ranked(m, rank) && n in m && k <= |m[n]|
    ensures |ChildPaths(m, rank, n, k)| == ChildSum(m, rank, n, k)
    ensures forall p :: p in ChildPaths(m, rank, n, k) ==> LeafPath(m, p) && p[0] == n
    decreases Measure(m, rank, n), 0, k
  {
    if k > 0 {
      var c := m[n][k - 1];
      ChildPathsCount(m, rank, n, k - 1);
      PathCountCountsPaths(m, rank, c);
      var ps := LeafPaths(m, rank, c);
      forall p | p in Prefixed(n, ps)
        ensures LeafPath(m, p) && p[0] == n
      {
        var i :| 0 <= i < |ps| && Prefixed(n, ps)[i] == p;
        assert ps[i] in ps;
        assert p == [n] + ps[i];
        assert p[1] == c && c in m[n];
        forall j | 0 <= j < |p| - 1
          ensures p[j + 1] in m[p[j]]
        {
          if j > 0 { assert p[j] == ps[i][j - 1] && p[j + 1] == ps[i][j]; }
        }
      }
    }
  }

  /** A leaf path of a child, with n in front, is among the first k child paths once the child is. */
  lemma {:induction false} ChildPathsHas(m: Adjacency, rank: map<string, nat>, n: string, k: nat, i: nat, q: seq<string>)
    requires Ranked(m, rank) && n in m && i < k <= |m[n]|
    requires q in LeafPaths(m, rank, m[n][i])
    ensures [n] + q in ChildPaths(m, rank, n, k)
    decreases k
  {
    if i < k - 1 {
      ChildPathsHas(m, rank, n, k - 1, i, q);
    } else {
      var ps := LeafPaths(m, rank, m[n][i]);
      var j :| 0 <= j < |ps| && ps[j] == q;
      assert Prefixed(n, ps)[j] == [n] + q;
    }
  }

  /** Every path from n to a leaf is listed by LeafPaths. */
  lemma {:induction false} LeafPathsComplete(m: Adjacency, rank: map<string, nat>, n: string, p: seq<string>)
    requires Ranked(m, rank) && LeafPath(m, p) && p[0] == n
    ensures p in LeafPaths(m, rank, n)
    decreases Measure(m, rank, n)
  {
    assert |p| == 1 || p[1] in m[n];
    assert |p| >= 2 || |m[n]| == 0;
    if |m[n]| == 0 {
      assert p == [n];
    } else {
      var c := p[1];
      var i :| 0 <= i < |m[n]| && m[n][i] == c;
      var q := p[1..];
      assert LeafPath(m, q) by {
        forall j | 0 <= j < |q| - 1
          ensures q[j + 1] in m[q[j]]
        {
          assert q[j] == p[j + 1] && q[j + 1] == p[j + 2];
        }
      }
      assert rank[c] < rank[n];
      LeafPathsComplete(m, rank, c, q);
      ChildPathsHas(m, rank, n, |m[n]|, i, q);
      assert [n] + q == p;
    }
  }

  /** Putting n in front keeps distinct paths distinct. */
  lemma PrefixedDistinct(n: string, ps: seq<seq<string>>)
    requires Distinct(ps)
    ensures Distinct(Prefixed(n, ps))
  {
    var r := Prefixed(n, ps);
    forall i, j | 0 <= i < j < |r|
      ensures r[i] != r[j]
    {
      assert r[i][1..] == ps[i] && r[j][1..] == ps[j];
    }
  }

  /** Every path LeafPaths lists starts at its node. */
  lemma StartsAt(m: Adjacency, rank: map<string, nat>, c: string)
    requires Ranked(m, rank)
    ensures forall q :: q in LeafPaths(m, rank, c) ==> |q| >= 1 && q[0] == c
  {
    PathCountCountsPaths(m, rank, c);
  }

  /** The k-th child's paths, with n in front, all go through that child. */
  lemma PrefixedThrough(n: string, c: string, ps: seq<seq<string>>)
    requires forall q :: q in ps ==> |q| >= 1 && q[0] == c
    ensures forall p :: p in Prefixed(n, ps) ==> |p| >= 2 && p[1] == c
  {
    forall p | p in Prefixed(n, ps)
      ensures |p| >= 2 && p[1] == c
    {
      var i :| 0 <= i < |ps| && Prefixed(n, ps)[i] == p;
      var q := ps[i];
      assert q in ps;
      assert p == [n] + q;
    }
  }

  /** The first k child paths go through one of the first k children. */
  lemma {:induction false} ChildPathsThrough(m: Adjacency, rank: map<string, nat>, n: string, k: nat)
    requires Ranked(m, rank) && n in m && k <= |m[n]|
    ensures forall p :: p in ChildPaths(m, rank, n, k) ==>
              |p| >= 2 && exists x :: 0 <= x < k && m[n][x] == p[1]
    decreases k
  {
    if k > 0 {
      var front := ChildPaths(m, rank, n, k - 1);
      var back := Prefixed(n, LeafPaths(m, rank, m[n][k - 1]));
      ChildPathsThrough(m, rank, n, k - 1);
      BackThrough(m, rank, n, m[n][k - 1]);
      forall p | p in front + back
        ensures |p| >= 2 && exists x :: 0 <= x < k && m[n][x] == p[1]
      {
        if p in back {
          assert m[n][k - 1] == p[1];
        } else {
          assert p in front;
        }
      }
    }
  }

  /** Two lists of distinct paths, the first through children other than c and the second through c. */
  lemma JoinDistinct(front: seq<seq<string>>, back: seq<seq<string>>, c: string)
    requires Distinct(front) && Distinct(back)
    requires forall p :: p in front ==> |p| >= 2 && p[1] != c
    requires forall p :: p in back ==> |p| >= 2 && p[1] == c
    ensures Distinct(front + back)
  {
    var all := front + back;
    forall i, j | 0 <= i < j < |all|
      ensures all[i] != all[j]
    {
      if i < |front| && j >= |front| {
        assert all[i] in front && all[j] in back;
      } else if i >= |front| {
        assert all[i] == back[i - |front|] && all[j] == back[j - |front|];
      }
    }
  }

  /** Paths through the first k of distinct children do not go through child k. */
  lemma OtherChildren(cs: seq<string>, k: nat, front: seq<seq<string>>)
    requires k < |cs| && forall i, j :: 0 <= i < j < |cs| ==> cs[i] != cs[j]
    requires forall p :: p in front ==> |p| >= 2 && exists x :: 0 <= x < k && cs[x] == p[1]
    ensures forall p :: p in front ==> |p| >= 2 && p[1] != cs[k]
  {
    forall p | p in front
      ensures |p| >= 2 && p[1] != cs[k]
    {
      var x :| 0 <= x < k && cs[x] == p[1];
    }
  }

  /** Without repeated edges, the paths through the first k - 1 children avoid child k - 1. */
  lemma FrontAvoids(m: Adjacency, rank: map<string, nat>, n: string, k: nat)
    requires Ranked(m, rank) && NoDuplicateEdges(m) && n in m && 0 < k <= |m[n]|
    ensures forall p :: p in ChildPaths(m, rank, n, k - 1) ==> |p| >= 2 && p[1] != m[n][k - 1]
  {
    ChildPathsThrough(m, rank, n, k - 1);
    OtherChildren(m[n], k - 1, ChildPaths(m, rank, n, k - 1));
  }

  /** The paths of child c, with n in front, all go through c. */
  lemma BackThrough(m: Adjacency, rank: map<string, nat>, n: string, c: string)
    requires Ranked(m, rank)
    ensures forall p :: p in Prefixed(n, LeafPaths(m, rank, c)) ==> |p| >= 2 && p[1] == c
  {
    StartsAt(m, rank, c);
    PrefixedThrough(n, c, LeafPaths(m, rank, c));
  }

  /** Without repeated edges, no path is listed twice. */
  lemma {:induction false} LeafPathsDistinct(m: Adjacency, rank: map<string, nat>, n: string)
    requires Ranked(m, rank) && NoDuplicateEdges(m)
    ensures Distinct(LeafPaths(m, rank, n))
    decreases Measure(m, rank, n), 1
  {
    if n in m && |m[n]| > 0 {
      ChildPathsDistinct(m, rank, n, |m[n]|);
    }
  }

  lemma {:induction false} ChildPathsDistinct(m: Adjacency, rank: map<string, nat>, n: string, k: nat)
    requires Ranked(m, rank) && NoDuplicateEdges(m) && n in m && k <= |m[n]|
    ensures Distinct(ChildPaths(m, rank, n, k))
    decreases Measure(m, rank, n), 0, k
  {
    if k > 0 {
      var c := m[n][k - 1];
      var front := ChildPaths(m, rank, n, k - 1);
      var ps := LeafPaths(m, rank, c);
      var back := Prefixed(n, ps);
      assert Distinct(front) by { ChildPathsDistinct(m, rank, n, k - 1); }
      assert Distinct(back) by {
        LeafPathsDistinct(m, rank, c);
        PrefixedDistinct(n, ps);
      }
      FrontAvoids(m, rank, n, k);
      BackThrough(m, rank, n, c);
      JoinDistinct(front, back, c);
    }
  }

  /**
   * On a graph without repeated edges (every graph AddEdge builds), PathCount
   * is the number of distinct paths from n down to a leaf: LeafPaths lists
   * exactly those paths, each once.
   */
  lemma LeafPathsExactly(m: Adjacency, rank: map<string, nat>, n: string)
    requires Ranked(m, rank) && NoDuplicateEdges(m)
    ensures forall p :: p in LeafPaths(m, rank, n) <==> LeafPath(m, p) && p[0] == n
    ensures Distinct(LeafPaths(m, rank, n)) && |LeafPaths(m, rank, n)| == PathCount(m, rank, n)
  {
    PathCountCountsPaths(m, rank, n);
    LeafPathsDistinct(m, rank, n);
    forall p | LeafPath(m, p) && p[0] == n
      ensures p in LeafPaths(m, rank, n)
    {
      LeafPathsComplete(m, rank, n, p);
    }
  }

  /** Every memoised count is the true one. */
  ghost predicate MemoValid(m: Adjacency, rank: map<string, nat>, memo: map<string, int>)
    requires Ranked(m, rank)
  {
    forall k :: k in memo ==> memo[k] == PathCount(m, rank, k)
  }

  class Graph {
    var nodes: Adjacency

    /** NewGraph: no nodes. */
    constructor ()
      ensures nodes == map[]
    {
      nodes := map[];
    }

    method AddNode(n: string)
      modifies this
      ensures nodes == WithNode(old(nodes), n)
    {
      if n in nodes {
        return;
      }
      nodes := nodes[n := []];
    }

    method AddEdge(a: string, b: string)
      modifies this
      ensures nodes == WithEdge(old(nodes), a, b)
    {
      if a !in nodes {
        AddNode(a);
      }
      if b !in nodes {
        AddNode(b);
      }
      if b in nodes[a] {
        return;
      }
      nodes := nodes[a := nodes[a] + [b]];
    }

    /** CountPathsFrom: counts with a fresh memo. */
    method CountPathsFrom(n: string, ghost rank: map<string, nat>) returns (total: int)
      requires Ranked(nodes, rank)
      ensures total == PathCount(nodes, rank, n)
    {
      var memo: map<string, int> := map[];
      total, memo := CountPathsFromMemo(n, memo, rank);
    }

    /** countPathsFrom: answers from the memo when it can, and records every count it computes. */
    method CountPathsFromMemo(n: string, memo0: map<string, int>, ghost rank: map<string, nat>)
      returns (total: int, memo: map<string, int>)
      requires Ranked(nodes, rank) && MemoValid(nodes, rank, memo0)
      ensures total == PathCount(nodes, rank, n)
      ensures MemoValid(nodes, rank, memo) && memo0.Keys <= memo.Keys
      decreases Measure(nodes, rank, n)
    {
      memo := memo0;
      if n in memo {
        return memo[n], memo;
      }
      if n !in nodes {
        memo := memo[n := 0];
        return 0, memo;
      }
      var children := nodes[n];
      if |children| == 0 {
        memo := memo[n := 1];
        return 1, memo;
      }
      total := 0;
      var i := 0;
      while i < |children|
        invariant 0 <= i <= |children|
        invariant total == ChildSum(nodes, rank, n, i)
        invariant MemoValid(nodes, rank, memo) && memo0.Keys <= memo.Keys
      {
        var r;
        r, memo := CountPathsFromMemo(children[i], memo, rank);
        total := total + r;
        i := i + 1;
      }
      memo := memo[n := total];
    }
  }
}
