/**
 * The 2024/21 numeric keypad: a 3 by 4 grid of keys with a gap in the
 * bottom-left corner,
 *
 *     7 8 9
 *     4 5 6
 *     1 2 3
 *     _ 0 A
 *
 * and a cursor that robots move with the arrows ^ v < > and press with A.
 * The keypad computes the shortest arrow sequences that take the cursor
 * to a key without ever crossing the gap.
 */
module Keypads {
  import opened Wrappers

  /** A cell of the keypad: column x (0 to 2) and row y (0 to 3, top to bottom). */
  datatype Coord = Coord(x: int, y: int)

  /** The empty cell in the bottom-left corner. */
  const Gap := Coord(0, 3)

  /** A cell that holds a key: inside the grid and not the gap. */
  predicate OnPad(p: Coord)
  { 0 <= p.x <= 2 && 0 <= p.y <= 3 && p != Gap }

  /** The key drawn at a cell, as in the layout above. */
  function KeyAt(p: Coord): Option<char>
  {
    if !OnPad(p) then None
    else if p.y == 3 then (if p.x == 1 then Some('0') else Some('A'))
    else Some(('1' as int + 3 * (2 - p.y) + p.x) as char)
  }

  /** GetPosition: the cell of a key; any other character reads as (0, 0). */
  function Position(c: char): (r: Coord)
    ensures OnPad(r)
  {
    match c
    case 'A' => Coord(2, 3)
    case '0' => Coord(1, 3)
    case '1' => Coord(0, 2)
    case '2' => Coord(1, 2)
    case '3' => Coord(2, 2)
    case '4' => Coord(0, 1)
    case '5' => Coord(1, 1)
    case '6' => Coord(2, 1)
    case '7' => Coord(0, 0)
    case '8' => Coord(1, 0)
    case '9' => Coord(2, 0)
    case _ => Coord(0, 0)
  }

  /** The keys of the keypad. */
  predicate IsKey(c: char)
  { c == 'A' || '0' <= c <= '9' }

  /** GetPosition finds exactly the keys of the layout. */
  lemma PositionOfKey(c: char)
    ensures IsKey(c) <==> KeyAt(Position(c)) == Some(c)
  {
  }

  /** Every key cell is the position of the key drawn there. */
  lemma KeyAtPosition(p: Coord)
    requires OnPad(p)
    ensures KeyAt(p).Some? && IsKey(KeyAt(p).value) && Position(KeyAt(p).value) == p
  {
  }

  // ---------------------------------------------------------------------------
  // Moves
  // ---------------------------------------------------------------------------

  predicate IsMove(c: char)
  { c == '^' || c == 'v' || c == '<' || c == '>' }

  /** Only arrows. */
  predicate Moves(s: string)
  { forall i :: 0 <= i < |s| ==> IsMove(s[i]) }

  /** Where one character takes the cursor: an arrow moves it one cell, anything else leaves it. */
  function Step(p: Coord, c: char): Coord
  {
    match c
    case '^' => Coord(p.x, p.y - 1)
    case 'v' => Coord(p.x, p.y + 1)
    case '<' => Coord(p.x - 1, p.y)
    case '>' => Coord(p.x + 1, p.y)
    case _ => p
  }

  /** How far a string of characters moves the cursor, whatever their order. */
  function Net(s: string): Coord
  {
    var m := multiset(s);
    Coord(m['>'] as int - m['<'], m['v'] as int - m['^'])
  }

  function Plus(p: Coord, d: Coord): Coord
  { Coord(p.x + d.x, p.y + d.y) }

  function Minus(p: Coord, q: Coord): Coord
  { Coord(p.x - q.x, p.y - q.y) }

  function Abs(n: int): nat
  { if n < 0 then -n else n }

  /** A shortest string of arrows that moves the cursor by d. */
  predicate Shortest(s: string, d: Coord)
  { Moves(s) && Net(s) == d && |s| == Abs(d.x) + Abs(d.y) }

  lemma NetCons(c: char, s: string)
    ensures Net([c] + s) == Plus(Step(Coord(0, 0), c), Net(s))
  {
    assert multiset([c] + s) == multiset{c} + multiset(s);
  }

  /** A string of arrows is made of its four counts. */
  lemma {:induction false} MovesCount(s: string)
    requires Moves(s)
    ensures |s| == multiset(s)['<'] + multiset(s)['>'] + multiset(s)['^'] + multiset(s)['v']
    ensures forall c :: !IsMove(c) ==> multiset(s)[c] == 0
  {
    if s != [] {
      MovesCount(s[1..]);
      assert s == [s[0]] + s[1..];
      assert multiset(s) == multiset{s[0]} + multiset(s[1..]);
    }
  }

  /**
   * The shortest arrow strings for a displacement are exactly the
   * rearrangements of any one of them.
   */
  lemma ShortestRearranged(a: string, b: string, d: Coord)
    requires Shortest(a, d)
    ensures Shortest(b, d) <==> multiset(b) == multiset(a)
  {
    MovesCount(a);
    if Shortest(b, d) {
      MovesCount(b);
      forall c ensures multiset(b)[c] == multiset(a)[c] {
      }
    }
    if multiset(b) == multiset(a) {
      assert |b| == |multiset(b)| == |multiset(a)| == |a|;
      forall i | 0 <= i < |b| ensures IsMove(b[i]) {
        assert b[i] in multiset(a);
      }
    }
  }

  // ---------------------------------------------------------------------------
  // Walking a string of moves
  // ---------------------------------------------------------------------------

  /**
   * validateMove: every arrow keeps the cursor on a key, and an A may only
   * be the last character (where the check stops).
   */
  function Walkable(p: Coord, s: string): bool
    decreases s
  {
    if s == [] then true
    else if s[0] == 'A' then |s| == 1
    else OnPad(Step(p, s[0])) && Walkable(Step(p, s[0]), s[1..])
  }

  /** Where Move leaves the cursor: at the end of the walk, or at the cell where it panicked. */
  datatype Trip = Arrived(at: Coord) | Crashed(at: Coord)

  /** Move: each character in turn; A does not move, and leaving the keys panics. */
  function Travel(p: Coord, s: string): Trip
    decreases s
  {
    if s == [] then Arrived(p)
    else if s[0] == 'A' then Travel(p, s[1..])
    else if OnPad(Step(p, s[0])) then Travel(Step(p, s[0]), s[1..])
    else Crashed(Step(p, s[0]))
  }

  /** Where a string of characters takes the cursor, ignoring the keys. */
  function End(p: Coord, s: string): Coord
    decreases s
  {
    if s == [] then p else End(Step(p, s[0]), s[1..])
  }

  lemma {:induction false} EndSnoc(p: Coord, s: string, c: char)
    ensures End(p, s + [c]) == Step(End(p, s), c)
    decreases s
  {
    if s == [] {
      assert s + [c] == [c];
    } else {
      assert (s + [c])[1..] == s[1..] + [c];
      EndSnoc(Step(p, s[0]), s[1..], c);
    }
  }

  /** The end of a walk depends only on how many of each arrow it has. */
  lemma {:induction false} EndNet(p: Coord, s: string)
    ensures End(p, s) == Plus(p, Net(s))
    decreases s
  {
    if s != [] {
      var c, rest := s[0], s[1..];
      EndNet(Step(p, c), rest);
      assert s == [c] + rest;
      NetCons(c, rest);
      StepOffset(p, c);
      var o, n := Step(Coord(0, 0), c), Net(rest);
      assert Plus(Plus(p, o), n) == Plus(p, Plus(o, n));
    }
  }

  /** One character moves every cell by the same offset. */
  lemma StepOffset(p: Coord, c: char)
    ensures Step(p, c) == Plus(p, Step(Coord(0, 0), c))
  {
  }

  /** A string that validateMove accepts takes Move to the end of the walk. */
  lemma {:induction false} WalkableTravel(p: Coord, s: string)
    requires Walkable(p, s)
    ensures Travel(p, s) == Arrived(End(p, s))
    decreases s
  {
    if s != [] && s[0] != 'A' {
      WalkableTravel(Step(p, s[0]), s[1..]);
    }
  }

  /** Extending an arrow-only walk by one arrow that stays on the keys. */
  lemma {:induction false} WalkableSnoc(p: Coord, s: string, c: char)
    requires Moves(s) && Walkable(p, s) && IsMove(c)
    requires OnPad(Step(End(p, s), c))
    ensures Walkable(p, s + [c])
    decreases s
  {
    if s == [] {
      assert s + [c] == [c];
    } else {
      assert (s + [c])[1..] == s[1..] + [c];
      WalkableSnoc(Step(p, s[0]), s[1..], c);
    }
  }

  /** An arrow-only walk followed by A. */
  lemma {:induction false} WalkablePress(p: Coord, s: string)
    requires Moves(s) && Walkable(p, s)
    ensures Walkable(p, s + "A")
    decreases s
  {
    if s == [] {
      assert s + "A" == "A";
    } else {
      assert (s + "A")[1..] == s[1..] + "A";
      WalkablePress(Step(p, s[0]), s[1..]);
    }
  }

  /**
   * A path CalculateMovements may return from p: a shortest string of
   * arrows to q followed by A, never leaving the keys.
   */
  predicate IsRoute(p: Coord, q: Coord, s: string)
  {
    && |s| >= 1 && s[|s| - 1] == 'A'
    && Shortest(s[..|s| - 1], Minus(q, p))
    && Walkable(p, s)
  }

  /** Following a route with Move reaches the target key without panicking. */
  lemma RouteArrives(p: Coord, q: Coord, s: string)
    requires IsRoute(p, q, s)
    ensures Travel(p, s) == Arrived(q)
  {
    WalkableTravel(p, s);
    var body := s[..|s| - 1];
    assert s == body + ['A'];
    EndSnoc(p, body, 'A');
    assert End(p, s) == End(p, body);
    EndNet(p, body);
    assert Net(body) == Minus(q, p);
  }

  // ---------------------------------------------------------------------------
  // permutateSubstring
  // ---------------------------------------------------------------------------

  /** t agrees with r before k and rearranges r from k on. */
  predicate IsPerm(t: string, r: string, k: int)
  { |t| == |r| && 0 <= k <= |r| && t[..k] == r[..k] && multiset(t[k..]) == multiset(r[k..]) }

  function Swap(s: string, i: int, j: int): (r: string)
    requires 0 <= i < |s| && 0 <= j < |s|
    ensures |r| == |s|
  { s[i := s[j]][j := s[i]] }

  /** Swapping the same two positions again restores the string. */
  lemma SwapTwice(s: string, i: int, j: int)
    requires 0 <= i < |s| && 0 <= j < |s|
    ensures Swap(Swap(s, i, j), i, j) == s
  {
  }

  lemma SwapMultiset(s: string, k: int, i: int)
    requires 0 <= k <= i < |s|
    ensures Swap(s, k, i)[..k] == s[..k]
    ensures multiset(Swap(s, k, i)[k..]) == multiset(s[k..])
  {
    var r := Swap(s, k, i);
    if i != k {
      assert s[k..] == [s[k]] + s[k + 1..i] + [s[i]] + s[i + 1..];
      assert r[k..] == [s[i]] + s[k + 1..i] + [s[k]] + s[i + 1..];
    }
  }

  lemma PermSplit(t: string, k: int)
    requires 0 <= k < |t|
    ensures t[k..] == [t[k]] + t[k + 1..]
    ensures t[..k + 1] == t[..k] + [t[k]]
  {
  }

  /** What permute produces after swapping position k with i is a rearrangement from k. */
  lemma SwapSound(u: string, r: string, k: int, i: int)
    requires 0 <= k <= i < |r| && IsPerm(u, Swap(r, k, i), k + 1)
    ensures IsPerm(u, r, k)
  {
    var w := Swap(r, k, i);
    SwapMultiset(r, k, i);
    PermSplit(u, k);
    PermSplit(w, k);
    assert u[..k] == u[..k + 1][..k];
    assert w[..k] == w[..k + 1][..k];
  }

  /** A rearrangement from k that starts with r[i] is one of those produced after the swap. */
  lemma SwapComplete(t: string, r: string, k: int, i: int)
    requires 0 <= k <= i < |r| && IsPerm(t, r, k) && t[k] == r[i]
    ensures IsPerm(t, Swap(r, k, i), k + 1)
  {
    var w := Swap(r, k, i);
    SwapMultiset(r, k, i);
    PermSplit(t, k);
    PermSplit(w, k);
    assert w[k] == t[k];
    assert multiset(t[k..]) == multiset{t[k]} + multiset(t[k + 1..]);
    assert multiset(w[k..]) == multiset{w[k]} + multiset(w[k + 1..]);
    assert multiset(t[k + 1..]) == multiset(t[k..]) - multiset{t[k]};
    assert multiset(w[k + 1..]) == multiset(w[k..]) - multiset{w[k]};
  }

  /** The head of a rearrangement from k comes from somewhere at or after k. */
  lemma PermHead(t: string, r: string, k: int) returns (i: int)
    requires IsPerm(t, r, k) && k < |r|
    ensures k <= i < |r| && r[i] == t[k]
  {
    assert t[k] == t[k..][0];
    assert t[k] in multiset(r[k..]);
    var j :| 0 <= j < |r[k..]| && r[k..][j] == t[k];
    assert r[k..][j] == r[k + j];
    i := k + j;
  }

  /** A rearrangement of the last position alone is the string itself. */
  lemma PermLast(t: string, r: string)
    requires |r| >= 1 && IsPerm(t, r, |r| - 1)
    ensures t == r
  {
    var k := |r| - 1;
    assert t[k..] == [t[k]];
    assert r[k..] == [r[k]];
    assert t[k] in multiset(r[k..]);
    assert t == t[..k] + [t[k]];
    assert r == r[..k] + [r[k]];
  }

  /** Every string added after acc rearranges r from start. */
  ghost predicate Sound(out: seq<string>, acc: seq<string>, r: string, start: int)
  { forall k :: |acc| <= k < |out| ==> IsPerm(out[k], r, start) }

  /** Every rearrangement of r from start that begins with one of r[start..i] was added after acc. */
  ghost predicate Covers(out: seq<string>, acc: seq<string>, r: string, start: int, i: int)
    requires 0 <= start <= i <= |r| && |acc| <= |out|
  {
    forall t :: IsPerm(t, r, start) && start < |t| && t[start] in r[start..i] ==> t in out[|acc|..]
  }

  /** The last position alone: the string itself is its only arrangement. */
  lemma PermuteLast(r: string, acc: seq<string>)
    requires |r| >= 1
    ensures Sound(acc + [r], acc, r, |r| - 1)
    ensures forall t :: IsPerm(t, r, |r| - 1) ==> t in (acc + [r])[|acc|..]
  {
    assert (acc + [r])[|acc|..] == [r];
    forall t | IsPerm(t, r, |r| - 1) ensures t in (acc + [r])[|acc|..] {
      PermLast(t, r);
    }
  }

  /** Once every head has been tried, every arrangement has been added. */
  lemma CoversAll(out: seq<string>, acc: seq<string>, r: string, start: int)
    requires 0 <= start < |r| && |acc| <= |out| && Covers(out, acc, r, start, |r|)
    ensures forall t :: IsPerm(t, r, start) ==> t in out[|acc|..]
  {
    forall t | IsPerm(t, r, start) ensures t in out[|acc|..] {
      var j := PermHead(t, r, start);
      assert r[start..][j - start] == r[j];
      assert r[start..|r|] == r[start..];
    }
  }

  /** One turn of permute's loop: swap r[i] into place, recurse, swap back. */
  lemma PermuteStep(r: string, start: int, i: int, acc: seq<string>, before: seq<string>, out: seq<string>)
    requires 0 <= start <= i < |r|
    requires |acc| <= |before| && before[..|acc|] == acc
    requires Sound(before, acc, r, start) && Covers(before, acc, r, start, i)
    requires |before| <= |out| && out[..|before|] == before
    requires Sound(out, before, Swap(r, start, i), start + 1)
    requires forall t :: IsPerm(t, Swap(r, start, i), start + 1) ==> t in out[|before|..]
    ensures out[..|acc|] == acc
    ensures Sound(out, acc, r, start) && Covers(out, acc, r, start, i + 1)
  {
    assert out[..|acc|] == out[..|before|][..|acc|];
    forall k | |acc| <= k < |out| ensures IsPerm(out[k], r, start) {
      if k >= |before| {
        SwapSound(out[k], r, start, i);
      } else {
        assert out[k] == before[k];
      }
    }
    forall t | IsPerm(t, r, start) && start < |t| && t[start] in r[start..i + 1] ensures t in out[|acc|..] {
      assert r[start..i + 1] == r[start..i] + [r[i]];
      if t[start] == r[i] {
        SwapComplete(t, r, start, i);
        assert t in out[|before|..];
        assert out[|before|..] == out[|acc|..][|before| - |acc|..];
      } else {
        assert t in before[|acc|..];
        assert before[|acc|..] == out[|acc|..][..|before| - |acc|];
      }
    }
  }

  /**
   * permute: append every arrangement of the runes from position start on,
   * swapping each candidate into place and back; the runes are restored.
   */
  method Permute(runes: array<char>, start: int, acc: seq<string>) returns (out: seq<string>)
    requires 0 <= start <= runes.Length
    modifies runes
    ensures runes[..] == old(runes[..])
    ensures |acc| <= |out| && out[..|acc|] == acc
    ensures Sound(out, acc, runes[..], start)
    ensures start < runes.Length ==>
              forall t :: IsPerm(t, runes[..], start) ==> t in out[|acc|..]
    ensures start == runes.Length ==> out == acc
    decreases runes.Length - start, 2
  {
    if start == runes.Length - 1 {
      out := acc + [runes[..]];
      PermuteLast(runes[..], acc);
    } else {
      out := PermuteEach(runes, start, acc);
    }
  }

  /** The loop of permute: each rune from start on in turn goes to position start. */
  method PermuteEach(runes: array<char>, start: int, acc: seq<string>) returns (out: seq<string>)
    requires 0 <= start <= runes.Length && start != runes.Length - 1
    modifies runes
    ensures runes[..] == old(runes[..])
    ensures |acc| <= |out| && out[..|acc|] == acc
    ensures Sound(out, acc, runes[..], start)
    ensures start < runes.Length ==>
              forall t :: IsPerm(t, runes[..], start) ==> t in out[|acc|..]
    ensures start == runes.Length ==> out == acc
    decreases runes.Length - start, 1
  {
    ghost var r := runes[..];
    out := acc;
    var i := start;
    while i < runes.Length
      invariant start <= i <= runes.Length
      invariant runes[..] == r
      invariant |acc| <= |out| && out[..|acc|] == acc
      invariant Sound(out, acc, r, start) && Covers(out, acc, r, start, i)
      invariant i == start ==> out == acc
    {
      out := PermuteTurn(runes, start, i, acc, out);
      i := i + 1;
    }
    if start < runes.Length {
      CoversAll(out, acc, r, start);
    }
  }

  /** One turn of permute's loop: swap runes[i] into position start, recurse, swap back. */
  method PermuteTurn(runes: array<char>, start: int, i: int, ghost acc: seq<string>, before: seq<string>)
    returns (out: seq<string>)
    requires 0 <= start <= i < runes.Length && start != runes.Length - 1
    requires |acc| <= |before| && before[..|acc|] == acc
    requires Sound(before, acc, runes[..], start) && Covers(before, acc, runes[..], start, i)
    modifies runes
    ensures runes[..] == old(runes[..])
    ensures |acc| <= |out| && out[..|acc|] == acc
    ensures Sound(out, acc, runes[..], start) && Covers(out, acc, runes[..], start, i + 1)
    decreases runes.Length - start, 0
  {
    ghost var r := runes[..];
    SwapRunes(runes, start, i);
    out := Permute(runes, start + 1, before);
    SwapRunes(runes, start, i);
    SwapTwice(r, start, i);
    PermuteStep(r, start, i, acc, before, out);
  }

  /** Exchange two runes in place. */
  method SwapRunes(runes: array<char>, i: int, j: int)
    requires 0 <= i < runes.Length && 0 <= j < runes.Length
    modifies runes
    ensures runes[..] == Swap(old(runes[..]), i, j)
  {
    runes[i], runes[j] := runes[j], runes[i];
  }

  /** One of the strings permutateSubstring returns for s: its body rearranged, then A. */
  predicate IsArrangement(t: string, s: string)
    requires |s| >= 1
  { |t| == |s| && t[|t| - 1] == 'A' && multiset(t[..|t| - 1]) == multiset(s[..|s| - 1]) }

  /** Ranging over the keys of a Go map: each key once, in an order the model leaves open. */
  method Enumerate(keys: set<string>) returns (list: seq<string>)
    ensures forall t :: t in list <==> t in keys
    ensures forall i, j :: 0 <= i < j < |list| ==> list[i] != list[j]
    ensures |list| == |keys|
  {
    list := [];
    var rest := keys;
    while rest != {}
      invariant rest <= keys
      invariant forall t :: t in list <==> t in keys && t !in rest
      invariant forall i, j :: 0 <= i < j < |list| ==> list[i] != list[j]
      invariant |list| + |rest| == |keys|
      decreases |rest|
    {
      if forall y :: y !in rest {
        // a non-empty set has an element
        assert false;
      }
      var t :| t in rest;
      list := list + [t];
      rest := rest - {t};
    }
  }

  /**
   * permutateSubstring: drop the last character (the A), collect the
   * distinct arrangements of the rest, and put an A after each. An empty
   * string gives none, and "A" gives itself.
   */
  method PermutateSubstring(input: string) returns (result: seq<string>)
    ensures input == [] ==> result == []
    ensures input == "A" ==> result == ["A"]
    ensures |input| == 1 && input != "A" ==> result == []
    ensures |input| >= 2 ==> forall t :: t in result <==> IsArrangement(t, input)
    ensures forall i, j :: 0 <= i < j < |result| ==> result[i] != result[j]
  {
    if |input| == 0 {
      return [];
    }
    if |input| == 1 && input == "A" {
      return ["A"];
    }
    var body := input[..|input| - 1];
    var runes := new char[|body|](i requires 0 <= i < |body| => body[i]);
    assert runes[..] == body;
    var all := Permute(runes, 0, []);
    var unique: set<string> := {};
    for k := 0 to |all|
      invariant unique == set j | 0 <= j < k :: all[j]
    {
      unique := unique + {all[k]};
    }
    var keys := Enumerate(unique);
    assert |input| == 1 ==> unique == {};
    result := keys;
    for k := 0 to |result|
      invariant |result| == |keys|
      invariant forall j :: 0 <= j < k ==> result[j] == keys[j] + "A"
      invariant forall j :: k <= j < |result| ==> result[j] == keys[j]
    {
      result := result[k := result[k] + "A"];
    }
    ArrangementsListed(input, all, keys, result);
  }

  /** The three steps of permutateSubstring, put together. */
  lemma ArrangementsListed(input: string, all: seq<string>, keys: seq<string>, result: seq<string>)
    requires |input| >= 1 && input != "A"
    requires |input| == 1 ==> keys == []
    requires Sound(all, [], input[..|input| - 1], 0)
    requires |input| >= 2 ==> forall t :: IsPerm(t, input[..|input| - 1], 0) ==> t in all
    requires forall t :: t in keys <==> t in all
    requires forall i, j :: 0 <= i < j < |keys| ==> keys[i] != keys[j]
    requires |result| == |keys| && forall j :: 0 <= j < |keys| ==> result[j] == keys[j] + "A"
    ensures |input| == 1 ==> result == []
    ensures |input| >= 2 ==> forall t :: t in result <==> IsArrangement(t, input)
    ensures forall i, j :: 0 <= i < j < |result| ==> result[i] != result[j]
  {
    var body := input[..|input| - 1];
    forall i, j | 0 <= i < j < |result| ensures result[i] != result[j] {
      assert result[i][..|keys[i]|] == keys[i];
      assert result[j][..|keys[j]|] == keys[j];
    }
    if |input| >= 2 {
      forall t ensures t in result <==> IsArrangement(t, input) {
        if t in result {
          var j :| 0 <= j < |result| && result[j] == t;
          assert keys[j] in all;
          var k :| 0 <= k < |all| && all[k] == keys[j];
          assert IsPerm(keys[j], body, 0);
          assert t[..|t| - 1] == keys[j];
          assert keys[j][0..] == keys[j] && body[0..] == body;
        }
        if IsArrangement(t, input) {
          var u := t[..|t| - 1];
          assert u[0..] == u && body[0..] == body;
          assert IsPerm(u, body, 0);
          assert u in keys;
          var j :| 0 <= j < |keys| && keys[j] == u;
          assert t == u + "A";
          assert result[j] == t;
        }
      }
    }
  }

  /** Any string with at least one character is an arrangement of itself when it ends in A. */
  lemma RouteArrangements(p: Coord, q: Coord, output: string, t: string)
    requires |output| >= 2 && output[|output| - 1] == 'A'
    requires Shortest(output[..|output| - 1], Minus(q, p))
    ensures IsArrangement(t, output) && Walkable(p, t) <==> IsRoute(p, q, t)
  {
    var body := output[..|output| - 1];
    if |t| >= 1 {
      ShortestRearranged(body, t[..|t| - 1], Minus(q, p));
    }
  }

  // ---------------------------------------------------------------------------
  // The keypad
  // ---------------------------------------------------------------------------

  /** The numeric keypad and the cell its cursor is on. */
  class NumericKeypad {
    var currentX: int
    var currentY: int

    function Current(): Coord
      reads this
    { Coord(currentX, currentY) }

    /** NewNumericKeypad: the cursor starts over A. */
    constructor ()
      ensures Current() == Position('A')
    {
      currentX, currentY := 2, 3;
    }

    /**
     * calculateMovement: walk the cursor to the key, right first, then
     * left (going up and over rather than into the gap), then down, then
     * up, and press A; nothing at all when the cursor is already there.
     * From a key, the walk is a shortest one and never leaves the keys.
     */
    method CalculateMovement(c: char) returns (output: string)
      modifies this
      ensures Current() == Position(c)
      ensures output == [] <==> old(Current()) == Position(c)
      ensures output != [] ==> |output| >= 2 && output[|output| - 1] == 'A'
      ensures output != [] ==> Shortest(output[..|output| - 1], Minus(Position(c), old(Current())))
      ensures OnPad(old(Current())) ==> Walkable(old(Current()), output)
    {
      ghost var start := Current();
      var target := Position(c);
      output := Horizontal(target);
      output := Vertical(start, target, output);
      if |output| == 0 {
        return output;
      }
      ghost var body := output;
      output := output + "A";
      assert output[..|output| - 1] == body;
      EndNet(start, body);
      if OnPad(start) {
        WalkablePress(start, body);
      }
    }

    /** The first two loops of calculateMovement: right, then left around the gap. */
    method Horizontal(target: Coord) returns (output: string)
      requires OnPad(target)
      modifies this
      ensures currentX == target.x
      ensures currentY == old(currentY) || (old(currentY) == 3 && currentY == 2 && currentX == 0)
      ensures Progress(old(Current()), output, Current())
      ensures old(Current()) == target ==> output == [] && Current() == target
    {
      ghost var start := Current();
      output := RightTo(target);
      output := LeftTo(start, target, output);
    }

    /** The first loop of calculateMovement: right until the target column. */
    method RightTo(target: Coord) returns (output: string)
      requires OnPad(target)
      modifies this
      ensures currentY == old(currentY)
      ensures currentX == if old(currentX) < target.x then target.x else old(currentX)
      ensures Progress(old(Current()), output, Current())
      ensures old(currentX) >= target.x ==> output == []
    {
      ghost var start := Current();
      output := "";
      while currentX < target.x
        invariant start.x <= currentX && (currentX <= target.x || currentX == start.x)
        invariant currentY == start.y
        invariant Progress(start, output, Current())
        invariant start.x >= target.x ==> output == [] && Current() == start
      {
        Advance(start, output, Current(), '>');
        output := output + ">";
        currentX := currentX + 1;
      }
    }

    /** The second loop of calculateMovement: left, going up and over the gap. */
    method LeftTo(ghost start: Coord, target: Coord, walk: string) returns (output: string)
      requires OnPad(target) && currentY == start.y && target.x <= currentX
      requires currentX <= start.x || currentX == target.x
      requires Progress(start, walk, Current())
      modifies this
      ensures currentX == target.x
      ensures currentY == start.y || (start.y == 3 && currentY == 2 && currentX == 0)
      ensures Progress(start, output, Current())
      ensures old(currentX) == target.x ==> output == walk && currentY == start.y
    {
      output := walk;
      while currentX > target.x
        invariant target.x <= currentX && (currentX <= start.x || currentX == target.x)
        invariant currentY == start.y || (start.y == 3 && currentY == 2 && currentX == 0)
        invariant Progress(start, output, Current())
        invariant old(currentX) == target.x ==> output == walk && currentY == start.y
      {
        ghost var prev := output;
        output := output + "<";
        currentX := currentX - 1;
        if currentX == 0 && currentY == 3 {
          // step back, and go up and over instead
          output := output[..|output| - 1];
          currentX := currentX + 1;
          assert output == prev;
          output := output + "^";
          currentY := currentY - 1;
          output := output + "<";
          currentX := currentX - 1;
          Detour(start, prev);
        } else {
          Advance(start, prev, Coord(currentX + 1, currentY), '<');
        }
      }
    }

    /** The last two loops of calculateMovement: down, then up. */
    method Vertical(ghost start: Coord, target: Coord, walk: string) returns (output: string)
      requires OnPad(target) && currentX == target.x
      requires currentY == start.y || (start.y == 3 && currentY == 2 && currentX == 0)
      requires Progress(start, walk, Current())
      modifies this
      ensures Current() == target
      ensures Progress(start, output, Current())
      ensures old(Current()) == target ==> output == walk
    {
      output := DownTo(start, target, walk);
      output := UpTo(start, target, output);
    }

    /** The third loop of calculateMovement: down until the target row. */
    method DownTo(ghost start: Coord, target: Coord, walk: string) returns (output: string)
      requires OnPad(target) && currentX == target.x
      requires currentY == start.y || (start.y == 3 && currentY == 2 && currentX == 0)
      requires Progress(start, walk, Current())
      modifies this
      ensures currentX == target.x
      ensures target.y <= currentY && (currentY <= start.y || currentY == target.y)
      ensures Progress(start, output, Current())
      ensures old(currentY) >= target.y ==> output == walk && currentY == old(currentY)
    {
      output := walk;
      while currentY < target.y
        invariant currentX == target.x
        invariant currentY == start.y || (start.y == 3 && currentY == 2 && currentX == 0)
                  || start.y < currentY <= target.y
        invariant Progress(start, output, Current())
        invariant old(currentY) >= target.y ==> output == walk && currentY == old(currentY)
      {
        ghost var prev := output;
        ghost var cur := Current();
        output := output + "v";
        currentY := currentY + 1;
        if currentX == 0 && currentY == 3 {
          // The source steps back here and goes over and down instead. The
          // detour cannot fire: column 0 only reaches row 3 when the target
          // is the gap, and the target is always a key.
          assert false;
        } else {
          Advance(start, prev, cur, 'v');
        }
      }
    }

    /** The fourth loop of calculateMovement: up until the target row. */
    method UpTo(ghost start: Coord, target: Coord, walk: string) returns (output: string)
      requires OnPad(target) && currentX == target.x
      requires target.y <= currentY && (currentY <= start.y || currentY == target.y)
      requires Progress(start, walk, Current())
      modifies this
      ensures Current() == target
      ensures Progress(start, output, Current())
      ensures old(currentY) == target.y ==> output == walk
    {
      output := walk;
      while currentY > target.y
        invariant currentX == target.x
        invariant target.y <= currentY && (currentY <= start.y || currentY == target.y)
        invariant Progress(start, output, Current())
        invariant old(currentY) == target.y ==> output == walk
      {
        Advance(start, output, Current(), '^');
        output := output + "^";
        currentY := currentY - 1;
      }
    }

    /** validateMove: Walkable from the cursor, which does not move. */
    method ValidateMove(c: string) returns (ok: bool)
      ensures ok == Walkable(Current(), c)
    {
      var cloneX, cloneY := currentX, currentY;
      var i := 0;
      while i < |c|
        invariant 0 <= i <= |c|
        invariant Walkable(Current(), c) == Walkable(Coord(cloneX, cloneY), c[i..])
      {
        assert c[i..][0] == c[i] && c[i..][1..] == c[i + 1..];
        var move := c[i];
        if move == '^' {
          cloneY := cloneY - 1;
        } else if move == 'v' {
          cloneY := cloneY + 1;
        } else if move == '<' {
          cloneX := cloneX - 1;
        } else if move == '>' {
          cloneX := cloneX + 1;
        } else if move == 'A' {
          if i != |c| - 1 {
            return false;
          }
          return true;
        }
        if cloneX < 0 || cloneX > 2 || cloneY < 0 || cloneY > 3 {
          return false;
        }
        if cloneX == 0 && cloneY == 3 {
          return false;
        }
        i := i + 1;
      }
      return true;
    }

    /**
     * CalculateMovements: every shortest path from the cursor to the key
     * that never leaves the keys, each ending in A, each once; none when
     * the cursor is already on the key. The cursor does not move.
     */
    method CalculateMovements(input: char) returns (paths: seq<string>)
      modifies this
      ensures Current() == old(Current())
      ensures forall p :: p in paths <==> Current() != Position(input) && IsRoute(Current(), Position(input), p)
      ensures forall i, j :: 0 <= i < j < |paths| ==> paths[i] != paths[j]
      ensures OnPad(Current()) && Current() != Position(input) ==> paths != []
    {
      var originalX, originalY := currentX, currentY;
      var output := CalculateMovement(input);
      currentX, currentY := originalX, originalY;
      var permutations := PermutateSubstring(output);
      paths := [];
      for i := 0 to |permutations|
        invariant currentX == originalX && currentY == originalY
        invariant forall p :: p in paths <==> p in permutations[..i] && Walkable(Current(), p)
        invariant forall a, b :: 0 <= a < b < |paths| ==> paths[a] != paths[b]
      {
        assert permutations[..i + 1] == permutations[..i] + [permutations[i]];
        var ok := ValidateMove(permutations[i]);
        if ok {
          paths := paths + [permutations[i]];
        }
      }
      assert permutations[..|permutations|] == permutations;
      var target := Position(input);
      forall p ensures p in paths <==> Current() != target && IsRoute(Current(), target, p) {
        if output != [] {
          RouteArrangements(Current(), target, output, p);
        }
      }
      if OnPad(Current()) && Current() != target {
        RouteArrangements(Current(), target, output, output);
        assert output[..|output| - 1][0..] == output[..|output| - 1];
        assert output in paths;
      }
    }

    /** moveTo: one character; A stays put, and leaving the keys panics (None). */
    method MoveTo(c: char) returns (r: Option<bool>)
      modifies this
      ensures Current() == if c == 'A' then old(Current()) else Step(old(Current()), c)
      ensures r.None? <==> c != 'A' && !OnPad(Current())
      ensures r != Some(false)
    {
      if c == '^' {
        currentY := currentY - 1;
      } else if c == 'v' {
        currentY := currentY + 1;
      } else if c == '<' {
        currentX := currentX - 1;
      } else if c == '>' {
        currentX := currentX + 1;
      } else if c == 'A' {
        return Some(true);
      }
      if currentX < 0 || currentX > 2 || currentY < 0 || currentY > 3 {
        return None;
      }
      if currentX == 0 && currentY == 3 {
        return None;
      }
      return Some(true);
    }

    /** Move: each character in turn, stopping at a panic with the cursor where it crashed. */
    method Move(input: string) returns (r: Option<bool>)
      modifies this
      ensures Current() == Travel(old(Current()), input).at
      ensures r.Some? <==> Travel(old(Current()), input).Arrived?
      ensures r != Some(false)
    {
      var i := 0;
      while i < |input|
        invariant 0 <= i <= |input|
        invariant Travel(old(Current()), input) == Travel(Current(), input[i..])
      {
        assert input[i..][0] == input[i] && input[i..][1..] == input[i + 1..];
        var ok := MoveTo(input[i]);
        if ok.None? {
          return None;
        }
        i := i + 1;
      }
      return Some(true);
    }
  }

  /** Walking from start by `walk` has reached cur: a shortest arrow-only walk, on the keys if start is. */
  ghost predicate Progress(start: Coord, walk: string, cur: Coord)
  {
    && Moves(walk) && End(start, walk) == cur
    && |walk| == Abs(cur.x - start.x) + Abs(cur.y - start.y)
    && (OnPad(start) ==> OnPad(cur) && Walkable(start, walk))
  }

  /** From the cell right of the gap, going up and then left keeps the walk's progress. */
  lemma Detour(start: Coord, prev: string)
    requires Progress(start, prev, Coord(1, 3)) && start.y == 3 && start.x >= 1
    ensures Progress(start, prev + "^" + "<", Coord(0, 2))
  {
    Advance(start, prev, Coord(1, 3), '^');
    Advance(start, prev + "^", Coord(1, 2), '<');
  }

  /** One more arrow of calculateMovement, away from the start, keeps the walk's progress. */
  lemma Advance(start: Coord, prev: string, cur: Coord, m: char)
    requires Progress(start, prev, cur) && IsMove(m)
    requires OnPad(start) ==> OnPad(Step(cur, m))
    requires |prev| + 1 == Abs(Step(cur, m).x - start.x) + Abs(Step(cur, m).y - start.y)
    ensures Progress(start, prev + [m], Step(cur, m))
  {
    EndSnoc(start, prev, m);
    if OnPad(start) {
      WalkableSnoc(start, prev, m);
    }
  }
}
