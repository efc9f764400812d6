/**
 * minButtonPressesBFS of 2025 day 10: breadth-first search over light
 * states, from all lights off, where each edge presses one button. It
 * returns the least number of presses that reaches the target.
 */
module ButtonBfs {
  import opened Wrappers
  import opened Equation

  /** The states reachable with exactly k presses. */
  ghost function Reach(buttons: seq<Button>, k: nat): set<State>
  {
    if k == 0 then {0}
    else set s, i | s in Reach(buttons, k - 1) && 0 <= i < |buttons| :: PressButton(s, buttons[i])
  }

  /** k is the least number of presses that reaches s. */
  ghost predicate Shortest(buttons: seq<Button>, s: State, k: nat)
  {
    s in Reach(buttons, k) && forall j: nat :: j < k ==> s !in Reach(buttons, j)
  }

  lemma ReachStep(buttons: seq<Button>, k: nat, s: State, i: int)
    requires s in Reach(buttons, k) && 0 <= i < |buttons|
    ensures PressButton(s, buttons[i]) in Reach(buttons, k + 1)
  {
  }

  lemma ToInt(x: State)
    ensures (x as int) as bv16 == x && 0 <= x as int < 0x1_0000
  {
  }

  lemma Inj(a: State, b: State)
    requires a != b
    ensures a as int != b as int
  {
    ToInt(a);
    ToInt(b);
  }

  /** The numbers of the states in q. */
  function Image(q: seq<State>): set<int>
  {
    set i | 0 <= i < |q| :: q[i] as int
  }

  function Range(n: nat): (r: set<int>)
    ensures |r| == n && forall i :: i in r <==> 0 <= i < n
  {
    if n == 0 then {} else Range(n - 1) + {n - 1}
  }

  lemma SubsetCard(a: set<int>, b: set<int>)
    requires a <= b
    ensures |a| <= |b|
  {
    assert b == a + (b - a);
  }

  lemma ImageSnoc(q: seq<State>)
    requires |q| > 0
    ensures Image(q) == Image(q[..|q| - 1]) + {q[|q| - 1] as int}
  {
    var p := q[..|q| - 1];
    forall i | 0 <= i < |q| ensures q[i] as int in Image(p) + {q[|q| - 1] as int} {
      if i < |q| - 1 { assert q[i] == p[i]; }
    }
    forall i | 0 <= i < |p| ensures p[i] as int in Image(q) {
      assert q[i] == p[i];
    }
  }

  lemma ImageFresh(q: seq<State>)
    requires |q| > 0 && Distinct(q)
    ensures q[|q| - 1] as int !in Image(q[..|q| - 1])
  {
    var p := q[..|q| - 1];
    var x := q[|q| - 1];
    forall i | 0 <= i < |p| ensures p[i] as int != x as int {
      assert q[i] == p[i];
      Inj(p[i], x);
    }
  }

  /** Distinct states read as numbers stay distinct. */
  lemma {:induction false} ImageCard(q: seq<State>)
    requires Distinct(q)
    ensures |Image(q)| == |q|
  {
    if |q| > 0 {
      var p := q[..|q| - 1];
      assert Distinct(p);
      ImageCard(p);
      ImageSnoc(q);
      ImageFresh(q);
    } else {
      assert Image(q) == {};
    }
  }

  lemma ImageRange(q: seq<State>)
    ensures Image(q) <= Range(0x1_0000)
  {
    forall i | 0 <= i < |q| ensures q[i] as int in Range(0x1_0000) { ToInt(q[i]); }
  }

  /** A queue of distinct states holds at most 2^16 of them. */
  lemma QueueBound(q: seq<State>)
    requires Distinct(q)
    ensures |q| <= 0x1_0000
  {
    ImageCard(q);
    ImageRange(q);
    SubsetCard(Image(q), Range(0x1_0000));
  }

  /**
   * The search's invariant. The distance the source keeps in a map from
   * state to presses is kept here as dist, parallel to the queue: dist[i]
   * is the distance of queue[i].
   */
  ghost predicate Frontier(buttons: seq<Button>, target: State, queue: seq<State>, head: int,
                           visited: set<State>, dist: seq<nat>)
  {
    && 0 <= head <= |queue|
    && Queued(queue, visited, dist)
    && Layered(buttons, queue, dist)
    && (head < |queue| ==> dist[|queue| - 1] <= dist[head] + 1)
    && Expanded(buttons, queue, visited, head)
    && target !in visited
  }

  /** The queue starts at all lights off, holds each state once, and is what visited records. */
  predicate Queued(queue: seq<State>, visited: set<State>, dist: seq<nat>)
  {
    && |queue| >= 1 && queue[0] == 0 && |dist| == |queue|
    && Distinct(queue)
    && visited == (set i | 0 <= i < |queue| :: queue[i])
  }

  /** Each queued state is dist presses away at the least, in non-decreasing order. */
  ghost predicate Layered(buttons: seq<Button>, queue: seq<State>, dist: seq<nat>)
  {
    && |dist| == |queue|
    && (forall i :: 0 <= i < |queue| ==> Shortest(buttons, queue[i], dist[i]))
    && (forall i, j :: 0 <= i <= j < |queue| ==> dist[i] <= dist[j])
  }

  /** Every button has been tried on the states before the head. */
  predicate Expanded(buttons: seq<Button>, queue: seq<State>, visited: set<State>, head: int)
    requires head <= |queue|
  {
    forall i, b :: 0 <= i < head && 0 <= b < |buttons| ==> PressButton(queue[i], buttons[b]) in visited
  }

  /** Every queued state closer than d has all its successors visited. */
  ghost predicate ClosedBelow(buttons: seq<Button>, queue: seq<State>, visited: set<State>, dist: seq<nat>, d: nat)
    requires |dist| == |queue|
  {
    forall i, b :: 0 <= i < |queue| && dist[i] < d && 0 <= b < |buttons| ==> PressButton(queue[i], buttons[b]) in visited
  }

  /** No queued state is reachable in fewer presses than its distance. */
  ghost predicate Minimal(buttons: seq<Button>, queue: seq<State>, dist: seq<nat>)
    requires |dist| == |queue|
  {
    forall i :: 0 <= i < |queue| ==> forall j: nat :: j < dist[i] ==> queue[i] !in Reach(buttons, j)
  }

  lemma FrontierClosedBelow(buttons: seq<Button>, target: State, queue: seq<State>, head: int,
                            visited: set<State>, dist: seq<nat>, h: int)
    requires Frontier(buttons, target, queue, head, visited, dist)
    requires 0 <= h <= head && h < |queue|
    ensures ClosedBelow(buttons, queue, visited, dist, dist[h])
    ensures Minimal(buttons, queue, dist)
    ensures 0 in visited
  {
    forall i, b | 0 <= i < |queue| && dist[i] < dist[h] && 0 <= b < |buttons|
      ensures PressButton(queue[i], buttons[b]) in visited
    {
      assert i < h;
    }
    forall i | 0 <= i < |queue|
      ensures forall j: nat :: j < dist[i] ==> queue[i] !in Reach(buttons, j)
    {
      assert Shortest(buttons, queue[i], dist[i]);
    }
    assert queue[0] in visited;
  }

  /** Every state reachable in no more than d presses is visited. */
  lemma {:induction false} Complete(buttons: seq<Button>, queue: seq<State>, visited: set<State>, dist: seq<nat>,
                                    d: nat, k: nat)
    requires |dist| == |queue| && visited == (set i | 0 <= i < |queue| :: queue[i])
    requires ClosedBelow(buttons, queue, visited, dist, d) && Minimal(buttons, queue, dist) && 0 in visited
    requires k <= d
    ensures Reach(buttons, k) <= visited
  {
    if k > 0 {
      Complete(buttons, queue, visited, dist, d, k - 1);
      forall s | s in Reach(buttons, k)
        ensures s in visited
      {
        var p, b :| p in Reach(buttons, k - 1) && 0 <= b < |buttons| && s == PressButton(p, buttons[b]);
        assert p in visited;
        var i :| 0 <= i < |queue| && queue[i] == p;
        assert dist[i] <= k - 1;
      }
    }
  }

  /** A visited set closed under every button holds every reachable state. */
  lemma {:induction false} Closed(buttons: seq<Button>, visited: set<State>, k: nat)
    requires 0 in visited
    requires forall s, b :: s in visited && 0 <= b < |buttons| ==> PressButton(s, buttons[b]) in visited
    ensures Reach(buttons, k) <= visited
  {
    if k > 0 {
      Closed(buttons, visited, k - 1);
    }
  }

  lemma FrontierInit(buttons: seq<Button>, target: State)
    requires target != 0
    ensures Frontier(buttons, target, [0], 0, {0}, [0])
  {
    var queue: seq<State> := [0];
    assert 0 in Reach(buttons, 0);
    assert Shortest(buttons, queue[0], 0);
    assert {0} == (set i | 0 <= i < |queue| :: queue[i]);
  }

  /** A state one press beyond queue[h] and not yet visited is exactly dist[h] + 1 presses away. */
  lemma NextShortest(buttons: seq<Button>, target: State, queue: seq<State>, head: int,
                     visited: set<State>, dist: seq<nat>, h: int, b: int)
    requires Frontier(buttons, target, queue, head, visited, dist)
    requires 0 <= h <= head && h < |queue| && 0 <= b < |buttons|
    ensures PressButton(queue[h], buttons[b]) !in visited ==> Shortest(buttons, PressButton(queue[h], buttons[b]), dist[h] + 1)
    ensures PressButton(queue[h], buttons[b]) == target ==> Shortest(buttons, target, dist[h] + 1)
  {
    var next := PressButton(queue[h], buttons[b]);
    assert Shortest(buttons, queue[h], dist[h]);
    ReachStep(buttons, dist[h], queue[h], b);
    FrontierClosedBelow(buttons, target, queue, head, visited, dist, h);
    forall j: nat | j < dist[h] + 1
      ensures next !in visited ==> next !in Reach(buttons, j)
      ensures target !in Reach(buttons, j)
    {
      Complete(buttons, queue, visited, dist, dist[h], j);
    }
  }

  /** Enqueueing an unvisited successor of queue[h] keeps the invariant. */
  lemma FrontierAppend(buttons: seq<Button>, target: State, queue: seq<State>, visited: set<State>,
                       dist: seq<nat>, h: int, b: int)
    requires Frontier(buttons, target, queue, h, visited, dist)
    requires 0 <= h < |queue| && 0 <= b < |buttons|
    requires PressButton(queue[h], buttons[b]) !in visited && PressButton(queue[h], buttons[b]) != target
    ensures Frontier(buttons, target, queue + [PressButton(queue[h], buttons[b])], h,
                     visited + {PressButton(queue[h], buttons[b])}, dist + [dist[h] + 1])
  {
    var next := PressButton(queue[h], buttons[b]);
    NextShortest(buttons, target, queue, h, visited, dist, h, b);
    DistinctAppend(queue, next, visited);
    forall i | 0 <= i < |queue| ensures dist[i] <= dist[h] + 1 {
      assert dist[i] <= dist[|queue| - 1];
    }
    LayeredAppend(buttons, queue, dist, next, dist[h] + 1);
    ExpandedAppend(buttons, queue, visited, h, next);
    assert (dist + [dist[h] + 1])[h] == dist[h];
  }

  lemma LayeredAppend(buttons: seq<Button>, queue: seq<State>, dist: seq<nat>, x: State, dx: nat)
    requires Layered(buttons, queue, dist) && Shortest(buttons, x, dx)
    requires forall i :: 0 <= i < |queue| ==> dist[i] <= dx
    ensures Layered(buttons, queue + [x], dist + [dx])
  {
    var q := queue + [x];
    var ds := dist + [dx];
    forall i | 0 <= i < |q| ensures Shortest(buttons, q[i], ds[i]) {
      if i < |queue| { assert q[i] == queue[i] && ds[i] == dist[i]; }
    }
    forall i, j | 0 <= i <= j < |q| ensures ds[i] <= ds[j] {
      if j < |queue| { assert ds[i] == dist[i] && ds[j] == dist[j]; }
      else if i < |queue| { assert ds[i] == dist[i]; }
    }
  }

  lemma ExpandedAppend(buttons: seq<Button>, queue: seq<State>, visited: set<State>, h: int, x: State)
    requires h <= |queue| && Expanded(buttons, queue, visited, h)
    ensures Expanded(buttons, queue + [x], visited + {x}, h)
  {
    var q := queue + [x];
    forall i, c | 0 <= i < h && 0 <= c < |buttons| ensures PressButton(q[i], buttons[c]) in visited + {x} {
      assert q[i] == queue[i];
    }
  }

  /** Once every button has been tried on queue[h], the head moves past it. */
  lemma FrontierAdvance(buttons: seq<Button>, target: State, queue: seq<State>, visited: set<State>,
                        dist: seq<nat>, h: int)
    requires Frontier(buttons, target, queue, h, visited, dist)
    requires 0 <= h < |queue|
    requires forall c :: 0 <= c < |buttons| ==> PressButton(queue[h], buttons[c]) in visited
    ensures Frontier(buttons, target, queue, h + 1, visited, dist)
  {
    if h + 1 < |queue| {
      assert dist[h] <= dist[h + 1];
    }
  }

  /**
   * minButtonPressesBFS: the least number of presses whose XOR is the
   * target, or an error when no number of presses reaches it.
   */
  method MinButtonPressesBfs(buttons: seq<Button>, target: State) returns (r: Result<nat>)
    ensures r.Ok? ==> Shortest(buttons, target, r.value)
    ensures r.Err? ==> forall k: nat :: target !in Reach(buttons, k)
    ensures target == 0 ==> r == Ok(0)
  {
    var start: State := 0;
    if start == target {
      assert target in Reach(buttons, 0);
      return Ok(0);
    }
    var queue: seq<State> := [start];
    var visited: set<State> := {start};
    var dist: seq<nat> := [0];
    var head := 0;
    FrontierInit(buttons, target);
    while head < |queue|
      invariant Frontier(buttons, target, queue, head, visited, dist)
      decreases 0x1_0000 - head
    {
      QueueBound(queue);
      var found;
      found, queue, visited, dist := Expand(buttons, target, queue, head, visited, dist);
      if found {
        return Ok(dist[head] + 1);
      }
      head := head + 1;
    }
    Exhausted(buttons, target, queue, visited, dist);
    return Err("no solution for equation");
  }

  /**
   * One turn of the search: press every button on the state at the head,
   * queueing each new state, and stop early when the target turns up.
   */
  method Expand(buttons: seq<Button>, target: State, queue0: seq<State>, h: int, visited0: set<State>, dist0: seq<nat>)
    returns (found: bool, queue: seq<State>, visited: set<State>, dist: seq<nat>)
    requires Frontier(buttons, target, queue0, h, visited0, dist0) && h < |queue0|
    ensures h < |queue| == |dist| && queue[h] == queue0[h] && dist[h] == dist0[h]
    ensures found ==> Shortest(buttons, target, dist[h] + 1)
    ensures !found ==> Frontier(buttons, target, queue, h + 1, visited, dist)
  {
    queue, visited, dist := queue0, visited0, dist0;
    for b := 0 to |buttons|
      invariant Frontier(buttons, target, queue, h, visited, dist)
      invariant h < |queue| && queue[h] == queue0[h] && dist[h] == dist0[h]
      invariant forall c :: 0 <= c < b ==> PressButton(queue[h], buttons[c]) in visited
    {
      found, queue, visited, dist := Press(buttons, target, queue, h, visited, dist, b);
      if found {
        return;
      }
    }
    FrontierAdvance(buttons, target, queue, visited, dist, h);
    found := false;
  }

  /** Press button b on the state at the head: the target ends the search, a new state is queued. */
  method Press(buttons: seq<Button>, target: State, queue0: seq<State>, h: int, visited0: set<State>, dist0: seq<nat>, b: int)
    returns (found: bool, queue: seq<State>, visited: set<State>, dist: seq<nat>)
    requires Frontier(buttons, target, queue0, h, visited0, dist0) && h < |queue0| && 0 <= b < |buttons|
    requires forall c :: 0 <= c < b ==> PressButton(queue0[h], buttons[c]) in visited0
    ensures h < |queue| == |dist| && queue[h] == queue0[h] && dist[h] == dist0[h]
    ensures found ==> Shortest(buttons, target, dist[h] + 1)
    ensures !found ==> Frontier(buttons, target, queue, h, visited, dist)
    ensures !found ==> forall c :: 0 <= c <= b ==> PressButton(queue[h], buttons[c]) in visited
  {
    queue, visited, dist := queue0, visited0, dist0;
    var d := dist[h];
    var next := PressButton(queue[h], buttons[b]);
    if next == target {
      NextShortest(buttons, target, queue, h, visited, dist, h, b);
      return true, queue, visited, dist;
    }
    found := false;
    if next !in visited {
      FrontierAppend(buttons, target, queue, visited, dist, h, b);
      visited := visited + {next};
      queue := queue + [next];
      dist := dist + [d + 1];
    }
  }

  /** When the queue is used up, the target is out of reach. */
  lemma Exhausted(buttons: seq<Button>, target: State, queue: seq<State>, visited: set<State>, dist: seq<nat>)
    requires Frontier(buttons, target, queue, |queue|, visited, dist)
    ensures forall k: nat :: target !in Reach(buttons, k)
  {
    forall s, b | s in visited && 0 <= b < |buttons|
      ensures PressButton(s, buttons[b]) in visited
    {
      var i :| 0 <= i < |queue| && queue[i] == s;
    }
    forall k: nat
      ensures target !in Reach(buttons, k)
    {
      assert queue[0] in visited;
      Closed(buttons, visited, k);
    }
  }

  lemma DistinctAppend(queue: seq<State>, next: State, visited: set<State>)
    requires Distinct(queue) && visited == (set i | 0 <= i < |queue| :: queue[i]) && next !in visited
    ensures Distinct(queue + [next])
    ensures visited + {next} == (set i | 0 <= i < |queue + [next]| :: (queue + [next])[i])
    ensures |visited + {next}| == |visited| + 1
  {
    var q := queue + [next];
    forall i | 0 <= i < |queue| ensures q[i] == queue[i] && queue[i] in visited {}
    assert q[|queue|] == next;
  }
}
