/**
 * Battery banks: each input line is a bank of batteries labelled with single
 * digits, and a bank's joltage is the number spelled by the batteries switched
 * on, read in bank order. Part one switches on two batteries, part two twelve.
 */
module Joltage {
  import opened Wrappers
  import opened Decimal
  import GoMath

  /** NUMBER_OF_POINTERS: how many batteries part two switches on. */
  const Pointers := 12

  /** Every entry is a single decimal digit, as ParseLine produces. */
  predicate IsBank(line: seq<int>)
  { forall k :: 0 <= k < |line| ==> 0 <= line[k] <= 9 }

  /** idx lists strictly increasing positions of line whose entries, in order, are r. */
  predicate Picks(line: seq<int>, idx: seq<int>, r: seq<int>)
  {
    |idx| == |r|
    && (forall m :: 0 <= m < |idx| ==> 0 <= idx[m] < |line| && r[m] == line[idx[m]])
    && (forall m, m' :: 0 <= m < m' < |idx| ==> idx[m] < idx[m'])
  }

  /** r is a subsequence of line: its entries sit at increasing positions of line. */
  ghost predicate IsPicked(line: seq<int>, r: seq<int>)
  { exists idx :: Picks(line, idx, r) }

  // ---------------------------------------------------------------------------
  // Parsing and the base-10 fold
  // ---------------------------------------------------------------------------

  /**
   * The digit of every character of s; None where the source panics because a
   * character is not one of '0'..'9'.
   */
  method ParseLine(s: string) returns (r: Option<seq<int>>)
    ensures r.Some? <==> IsDigits(s)
    ensures r.Some? ==> |r.value| == |s| && IsBank(r.value)
    ensures r.Some? ==> forall k :: 0 <= k < |s| ==> r.value[k] == DigitVal(s[k])
  {
    var out := new int[|s|];
    var i := 0;
    while i < |s|
      invariant 0 <= i <= |s|
      invariant IsDigits(s[..i])
      invariant forall k :: 0 <= k < i ==> out[k] == DigitVal(s[k])
    {
      var n := s[i] as int - '0' as int;
      if n < 0 || n > 9 {
        assert !IsDigit(s[i]);
        return None;
      }
      out[i] := n;
      assert s[..i + 1] == s[..i] + [s[i]];
      i := i + 1;
    }
    assert s[..i] == s;
    return Some(out[..]);
  }

  /** The number whose decimal digits are `digits`, most significant first. */
  function Value(digits: seq<int>): int
  { if digits == [] then 0 else Value(digits[..|digits| - 1]) * 10 + digits[|digits| - 1] }

  /** digitsToInt: n = n*10 + d over the digits in order. */
  method DigitsToInt(digits: seq<int>) returns (n: int)
    ensures n == Value(digits)
  {
    n := 0;
    var i := 0;
    while i < |digits|
      invariant 0 <= i <= |digits|
      invariant n == Value(digits[..i])
    {
      assert digits[..i + 1][..i] == digits[..i];
      n := n * 10 + digits[i];
      i := i + 1;
    }
    assert digits[..i] == digits;
  }

  /** Folding the digits ParseLine produces gives back the decimal value of the text. */
  lemma {:induction false} ValueParsed(s: string, line: seq<int>)
    requires IsDigits(s) && |line| == |s|
    requires forall k :: 0 <= k < |s| ==> line[k] == DigitVal(s[k])
    ensures Value(line) == DecVal(s)
  {
    if s != [] {
      var n := |s| - 1;
      assert IsDigits(s[..n]);
      ValueParsed(s[..n], line[..n]);
    }
  }

  /** A bank of k digits folds to a number in [0, 10^k). */
  lemma {:induction false} ValueBound(digits: seq<int>)
    requires IsBank(digits)
    ensures 0 <= Value(digits) < Pow10(|digits|)
  {
    if digits != [] {
      var n := |digits| - 1;
      assert IsBank(digits[..n]);
      ValueBound(digits[..n]);
    }
  }

  // ---------------------------------------------------------------------------
  // Part one: the best two batteries
  // ---------------------------------------------------------------------------

  /** The largest entry of s. */
  function MaxOf(s: seq<int>): (m: int)
    requires s != []
    ensures m in s
    ensures forall k :: 0 <= k < |s| ==> s[k] <= m
  {
    if |s| == 1 then s[0]
    else
      var m := MaxOf(s[..|s| - 1]);
      if s[|s| - 1] > m then s[|s| - 1] else m
  }

  /**
   * Reference definition of part one's joltage: the best pair ending at the
   * last position uses the largest earlier digit; otherwise the pair lies in
   * the prefix.
   */
  function BestPair(line: seq<int>): int
    requires |line| >= 2
  {
    if |line| == 2 then 10 * line[0] + line[1]
    else
      var n := |line| - 1;
      var prev := BestPair(line[..n]);
      var last := 10 * MaxOf(line[..n]) + line[n];
      if last > prev then last else prev
  }

  /** No pair of positions a < b gives more than BestPair. */
  lemma {:induction false} BestPairAbove(line: seq<int>)
    requires |line| >= 2
    ensures forall a, b :: 0 <= a < b < |line| ==> 10 * line[a] + line[b] <= BestPair(line)
  {
    if |line| > 2 {
      var n := |line| - 1;
      var pre := line[..n];
      var m := MaxOf(pre);
      var best := BestPair(line);
      assert best >= BestPair(pre) && best >= 10 * m + line[n];
      BestPairAbove(pre);
      forall a, b | 0 <= a < b < |line|
        ensures 10 * line[a] + line[b] <= best
      {
        assert line[a] == pre[a];
        if b < n {
          assert line[b] == pre[b];
          assert 10 * pre[a] + pre[b] <= BestPair(pre);
        } else {
          assert pre[a] <= m;
        }
      }
    }
  }

  /** Some pair of positions a < b gives exactly BestPair. */
  lemma {:induction false} BestPairAttained(line: seq<int>) returns (a: nat, b: nat)
    requires |line| >= 2
    ensures a < b < |line| && BestPair(line) == 10 * line[a] + line[b]
  {
    var n := |line| - 1;
    if |line| == 2 {
      a, b := 0, 1;
    } else {
      var pre := line[..n];
      var m := MaxOf(pre);
      if 10 * m + line[n] > BestPair(pre) {
        var a0 :| 0 <= a0 < n && pre[a0] == m;
        a, b := a0, n;
      } else {
        a, b := BestPairAttained(pre);
        assert pre[a] == line[a] && pre[b] == line[b];
      }
    }
  }

  /** Two digits fold to ten times the first plus the second. */
  lemma ValuePair(r: seq<int>)
    requires |r| == 2
    ensures Value(r) == 10 * r[0] + r[1]
  {
    assert r[..1][..0] == [];
    assert Value(r[..1]) == r[0];
  }

  /** On digits, the lexicographic order of pairs agrees with the order of their values. */
  lemma PairOrder(a: int, b: int, x: int, y: int)
    requires 0 <= b <= 9 && 0 <= y <= 9
    requires a < x || (a == x && b <= y)
    ensures 10 * a + b <= 10 * x + y
  { }

  /**
   * FindLargestPair: nothing for fewer than two digits; otherwise two digits at
   * positions i < j such that no other pair beats them lexicographically, so
   * on digits they form the largest two-digit joltage.
   */
  method FindLargestPair(line: seq<int>) returns (r: seq<int>)
    ensures |line| < 2 ==> r == []
    ensures |line| >= 2 ==> |r| == 2 && IsPicked(line, r)
    ensures |line| >= 2 ==> forall a, b :: 0 <= a < b < |line| ==>
              line[a] < r[0] || (line[a] == r[0] && line[b] <= r[1])
    ensures |line| >= 2 && IsBank(line) ==> 10 * r[0] + r[1] == BestPair(line)
  {
    if |line| < 2 {
      return [];
    }
    var p1, p2 := 0, 1;
    var i := 1;
    while i < |line|
      invariant 1 <= i <= |line|
      invariant 0 <= p1 <= |line| - 2 && p1 < i
      invariant forall k :: 0 <= k < i && k <= |line| - 2 ==> line[k] <= line[p1]
      invariant forall k :: 0 <= k < p1 ==> line[k] < line[p1]
      invariant p2 == -1 ==> p1 == i - 1
      invariant p2 != -1 ==> p1 < p2 < |line| && p2 <= i
      invariant p2 != -1 ==> forall k :: p1 < k < i ==> line[k] <= line[p2]
    {
      if line[i] > line[p1] && i < |line| - 1 {
        p1 := i;
        p2 := -1;
      } else {
        if p2 == -1 || line[i] > line[p2] {
          p2 := i;
        }
      }
      i := i + 1;
    }
    // the source panics here when p2 is still unassigned, which the invariants exclude
    assert p2 != -1;
    r := [line[p1], line[p2]];
    assert Picks(line, [p1, p2], r);
    forall a, b | 0 <= a < b < |line|
      ensures line[a] < r[0] || (line[a] == r[0] && line[b] <= r[1])
    {
      if line[a] == line[p1] {
        assert p1 <= a;
      }
    }
    if IsBank(line) {
      var a, b := BestPairAttained(line);
      PairOrder(line[a], line[b], r[0], r[1]);
      BestPairAbove(line);
      assert 10 * line[p1] + line[p2] <= BestPair(line);
    }
  }

  /** Part one's joltage of one bank: digitsToInt of nothing is 0. */
  function PairJoltage(line: seq<int>): int
  { if |line| < 2 then 0 else BestPair(line) }

  /** Sum of part one's joltage over the banks. */
  function TotalPairs(lines: seq<seq<int>>): int
  { if lines == [] then 0 else TotalPairs(lines[..|lines| - 1]) + PairJoltage(lines[|lines| - 1]) }

  /** A bank contributes a two-digit number, so the total is at most 99 per bank. */
  lemma {:induction false} TotalPairsBound(lines: seq<seq<int>>)
    requires forall k :: 0 <= k < |lines| ==> IsBank(lines[k])
    ensures 0 <= TotalPairs(lines) <= 99 * |lines|
  {
    if lines != [] {
      var n := |lines| - 1;
      TotalPairsBound(lines[..n]);
      var line := lines[n];
      if |line| >= 2 {
        var a, b := BestPairAttained(line);
      }
    }
  }

  /** Solve1: sums digitsToInt(FindLargestPair(line)) over the banks and prints it in decimal. */
  method Solve1(lines: seq<seq<int>>) returns (result: string, total: int)
    requires forall k :: 0 <= k < |lines| ==> IsBank(lines[k])
    ensures total == TotalPairs(lines)
    ensures result == GoMath.Itoa(total)
  {
    total := 0;
    var i := 0;
    while i < |lines|
      invariant 0 <= i <= |lines|
      invariant total == TotalPairs(lines[..i])
    {
      var digits := FindLargestPair(lines[i]);
      var v := DigitsToInt(digits);
      if |lines[i]| >= 2 {
        ValuePair(digits);
      }
      assert v == PairJoltage(lines[i]);
      assert lines[..i + 1][..i] == lines[..i];
      total := total + v;
      i := i + 1;
    }
    assert lines[..i] == lines;
    result := GoMath.Itoa(total);
  }

  // ---------------------------------------------------------------------------
  // Part two's reference: the best k batteries
  // ---------------------------------------------------------------------------

  /**
   * The first position in [lo, hi) holding the largest digit there, as a scan
   * from the left finds it when it moves only on a strictly larger digit.
   */
  function LeftMax(line: seq<int>, lo: int, hi: int): (p: int)
    requires 0 <= lo < hi <= |line|
    ensures lo <= p < hi
    decreases hi - lo
  {
    if hi - lo == 1 then lo
    else
      var p := LeftMax(line, lo, hi - 1);
      if line[hi - 1] > line[p] then hi - 1 else p
  }

  /** The scan's position holds a largest digit of [lo, hi), and every earlier one in the window is smaller. */
  lemma {:induction false} LeftMaxIsMax(line: seq<int>, lo: int, hi: int)
    requires 0 <= lo < hi <= |line|
    ensures forall q :: lo <= q < hi ==> line[q] <= line[LeftMax(line, lo, hi)]
    ensures forall q :: lo <= q < LeftMax(line, lo, hi) ==> line[q] < line[LeftMax(line, lo, hi)]
    decreases hi - lo
  {
    if hi - lo > 1 {
      LeftMaxIsMax(line, lo, hi - 1);
    }
  }

  /**
   * Reference choice of k batteries from line[lo..]: the first largest digit
   * that leaves room for k - 1 more after it, then the same choice after it.
   */
  function Greedy(line: seq<int>, lo: int, k: nat): (g: seq<int>)
    requires 0 <= lo && lo + k <= |line|
    ensures |g| == k
    ensures forall t :: 0 <= t < k ==> lo <= g[t] < |line|
    decreases k
  {
    if k == 0 then []
    else
      var p := LeftMax(line, lo, |line| - k + 1);
      [p] + Greedy(line, p + 1, k - 1)
  }

  /** The digits at positions g of line, in order. */
  function Chosen(line: seq<int>, g: seq<int>): (r: seq<int>)
    requires forall t :: 0 <= t < |g| ==> 0 <= g[t] < |line|
    ensures |r| == |g| && forall t :: 0 <= t < |g| ==> r[t] == line[g[t]]
  {
    seq(|g|, t requires 0 <= t < |g| => line[g[t]])
  }

  /** The twelve batteries part two should switch on; nothing when the bank is too short. */
  function BestTwelve(line: seq<int>): seq<int>
  {
    if |line| < Pointers then [] else Chosen(line, Greedy(line, 0, Pointers))
  }

  /** The leading digit of a fold weighs 10^(number of digits after it). */
  lemma {:induction false} ValueHead(d: seq<int>)
    requires |d| > 0
    ensures Value(d) == d[0] * Pow10(|d| - 1) + Value(d[1..])
  {
    if |d| > 1 {
      var n := |d| - 1;
      assert d[..n][0] == d[0] && d[..n][1..] == d[1..][..n - 1];
      ValueHead(d[..n]);
    }
  }

  /** The reference choice is a subsequence of the bank. */
  lemma {:induction false} GreedyPicked(line: seq<int>, lo: int, k: nat)
    requires 0 <= lo && lo + k <= |line|
    ensures Picks(line, Greedy(line, lo, k), Chosen(line, Greedy(line, lo, k)))
    decreases k
  {
    if k > 0 {
      var p := LeftMax(line, lo, |line| - k + 1);
      GreedyPicked(line, p + 1, k - 1);
      var g := Greedy(line, lo, k);
      assert g == [p] + Greedy(line, p + 1, k - 1);
      assert forall t, t' :: 0 <= t < t' < k ==> g[t] < g[t'] by {
        forall t, t' | 0 <= t < t' < k
          ensures g[t] < g[t']
        {
          if t > 0 {
            assert g[t] == Greedy(line, p + 1, k - 1)[t - 1];
          }
        }
      }
    }
  }

  /** Positions listed in increasing order, each in [lo, n). */
  predicate Ascending(idx: seq<int>, lo: int, n: int)
  {
    (forall m :: 0 <= m < |idx| ==> lo <= idx[m] < n)
    && (forall m, m' :: 0 <= m < m' < |idx| ==> idx[m] < idx[m'])
  }

  /** k increasing positions below n start no later than n - k. */
  lemma {:induction false} AscendingRoom(idx: seq<int>, lo: int, n: int)
    requires Ascending(idx, lo, n) && |idx| > 0
    ensures idx[0] + |idx| <= n
  {
    if |idx| > 1 {
      AscendingRoom(idx[1..], idx[0] + 1, n);
    }
  }

  /** Dropping the first of ascending positions leaves positions after it, hence after any p at or before it. */
  lemma AscendingTail(idx: seq<int>, lo: int, p: int, n: int)
    requires Ascending(idx, lo, n) && |idx| > 0 && p <= idx[0]
    ensures Ascending(idx[1..], p + 1, n)
  {
    assert forall m :: 0 <= m < |idx| - 1 ==> idx[1..][m] == idx[m + 1];
  }

  /** Digit strings of equal length in lexicographic order: a is not after b. */
  predicate LexLe(a: seq<int>, b: seq<int>)
    requires |a| == |b|
    decreases |a|
  {
    a == [] || a[0] < b[0] || (a[0] == b[0] && LexLe(a[1..], b[1..]))
  }

  /** On digit strings of equal length the lexicographic order is the order of the folded values. */
  lemma {:induction false} LexValue(a: seq<int>, b: seq<int>)
    requires |a| == |b| && IsBank(a) && IsBank(b) && LexLe(a, b)
    ensures Value(a) <= Value(b)
    decreases |a|
  {
    if a != [] {
      if a[0] == b[0] {
        assert IsBank(a[1..]) && IsBank(b[1..]);
        LexValue(a[1..], b[1..]);
      }
      FoldCompare(a, b);
    }
  }

  /**
   * No k positions taken in increasing order from line[lo..] spell digits
   * after the reference choice's: its first digit is the largest one that
   * leaves room, and on a tie the reference keeps the most room for the rest.
   */
  lemma {:induction false} GreedyBest(line: seq<int>, lo: int, k: nat, idx: seq<int>)
    requires 0 <= lo && lo + k <= |line|
    requires |idx| == k && Ascending(idx, lo, |line|)
    ensures LexLe(Chosen(line, idx), Chosen(line, Greedy(line, lo, k)))
    decreases k
  {
    if k > 0 {
      var p := LeftMax(line, lo, |line| - k + 1);
      AscendingRoom(idx, lo, |line|);
      LeftMaxAt(line, lo, |line| - k + 1, idx[0]);
      if line[idx[0]] == line[p] {
        AscendingTail(idx, lo, p, |line|);
        GreedyBest(line, p + 1, k - 1, idx[1..]);
      }
      LexStep(line, lo, k, p, idx);
    }
  }

  /** A position in the window holds at most the scan's digit, and strictly less before the scan's position. */
  lemma LeftMaxAt(line: seq<int>, lo: int, hi: int, q: int)
    requires 0 <= lo <= q < hi <= |line|
    ensures line[q] <= line[LeftMax(line, lo, hi)]
    ensures q < LeftMax(line, lo, hi) ==> line[q] < line[LeftMax(line, lo, hi)]
  {
    LeftMaxIsMax(line, lo, hi);
  }

  /**
   * One step of the lexicographic comparison: a competitor whose first digit
   * is smaller, or equal with a rest no later than the reference rest, is no
   * later than the reference choice.
   */
  lemma LexStep(line: seq<int>, lo: int, k: nat, p: int, idx: seq<int>)
    requires 0 <= lo && 0 < k && lo + k <= |line|
    requires p == LeftMax(line, lo, |line| - k + 1)
    requires |idx| == k && forall t :: 0 <= t < k ==> 0 <= idx[t] < |line|
    requires line[idx[0]] <= line[p]
    requires line[idx[0]] == line[p] ==>
      LexLe(Chosen(line, idx[1..]), Chosen(line, Greedy(line, p + 1, k - 1)))
    ensures LexLe(Chosen(line, idx), Chosen(line, Greedy(line, lo, k)))
  {
    ChosenCons(line, lo, k, p);
    ChosenTail(line, idx);
  }

  /** The digits after the first position are the digits at the remaining positions. */
  lemma ChosenTail(line: seq<int>, idx: seq<int>)
    requires |idx| > 0 && forall t :: 0 <= t < |idx| ==> 0 <= idx[t] < |line|
    ensures Chosen(line, idx)[1..] == Chosen(line, idx[1..])
  { }

  /** Of two equally long digit strings, the one with the smaller lead, or the same lead and a smaller rest, folds to no more. */
  lemma FoldCompare(r: seq<int>, g: seq<int>)
    requires |r| == |g| > 0 && IsBank(r) && IsBank(g)
    requires r[0] <= g[0] && (r[0] == g[0] ==> Value(r[1..]) <= Value(g[1..]))
    ensures Value(r) <= Value(g)
  {
    ValueHead(r);
    ValueHead(g);
    if r[0] < g[0] {
      assert IsBank(r[1..]) && IsBank(g[1..]);
      ValueBound(r[1..]);
      ValueBound(g[1..]);
      LeadWins(r[0], g[0], Value(r[1..]), Value(g[1..]), Pow10(|r| - 1));
    }
  }

  /** The reference choice is its first position followed by the reference choice after it. */
  lemma GreedyUnfold(line: seq<int>, lo: int, k: nat, p: int)
    requires 0 <= lo && 0 < k && lo + k <= |line|
    requires p == LeftMax(line, lo, |line| - k + 1)
    ensures Greedy(line, lo, k) == [p] + Greedy(line, p + 1, k - 1)
  { }

  /** The reference digits are the first choice's digit followed by the reference digits after it. */
  lemma ChosenCons(line: seq<int>, lo: int, k: nat, p: int)
    requires 0 <= lo && 0 < k && lo + k <= |line|
    requires p == LeftMax(line, lo, |line| - k + 1)
    ensures Chosen(line, Greedy(line, lo, k))[0] == line[p]
    ensures Chosen(line, Greedy(line, lo, k))[1..] == Chosen(line, Greedy(line, p + 1, k - 1))
  {
    var g := Greedy(line, lo, k);
    assert g == [p] + Greedy(line, p + 1, k - 1);
    assert Chosen(line, g)[1..] == Chosen(line, Greedy(line, p + 1, k - 1));
  }

  /** A smaller leading digit loses whatever follows it. */
  lemma LeadWins(a: int, b: int, x: int, y: int, w: int)
    requires a < b && 0 <= x < w && 0 <= y
    ensures a * w + x < b * w + y
  {
    assert (a + 1) * w <= b * w;
  }

  // ---------------------------------------------------------------------------
  // Part two: twelve batteries, tracked by a slice of pointers
  // ---------------------------------------------------------------------------

  /** wipePointers: every pointer from start on becomes unassigned (-1). */
  method WipePointers(p: array<int>, start: int)
    requires 0 <= start
    modifies p
    ensures forall k :: 0 <= k < p.Length ==> p[k] == (if k < start then old(p[k]) else -1)
  {
    var i := start;
    while i < p.Length
      invariant forall k :: 0 <= k < p.Length ==>
                  p[k] == (if k < start || k >= i then old(p[k]) else -1)
    {
      p[i] := -1;
      i := i + 1;
    }
  }

  /**
   * Where pointer j's window ends once positions below i have been scanned:
   * at i, or earlier when pointer j must leave room for the pointers after it.
   */
  function Reach(line: seq<int>, i: int, j: int): int
  {
    if i < |line| - Pointers + j + 1 then i else |line| - Pointers + j + 1
  }

  /** Where pointer j's window starts: just after pointer j - 1, or at lo for the first. */
  function From(ps: seq<int>, lo: int, j: int): int
    requires 0 <= j < |ps|
  {
    if j == 0 then lo else ps[j - 1] + 1
  }

  /**
   * The pointers after scanning positions below i: each of the first c holds
   * the first largest digit of its window, and when fewer than all twelve are
   * assigned the last one sits at i - 1, so the next window is still empty.
   */
  predicate Tracks(line: seq<int>, ps: seq<int>, c: int, i: int)
  {
    |ps| == Pointers && 1 <= c <= Pointers && i <= |line|
    && (forall m :: 0 <= m < c ==> 0 <= ps[m] < i)
    && (forall m :: c <= m < Pointers ==> ps[m] == -1)
    && (forall j {:trigger From(ps, 0, j)} :: 0 <= j < c ==>
          0 <= From(ps, 0, j) < Reach(line, i, j) && ps[j] == LeftMax(line, From(ps, 0, j), Reach(line, i, j)))
    && (c < Pointers ==> ps[c - 1] == i - 1)
  }

  /** Scanning position i leaves a window's first largest digit alone unless i enters the window with a larger digit. */
  lemma KeepMax(line: seq<int>, lo: int, i: int, j: int)
    requires 0 <= lo < Reach(line, i, j) && i < |line|
    requires !(line[i] > line[LeftMax(line, lo, Reach(line, i, j))] && i < |line| - Pointers + j + 1)
    ensures LeftMax(line, lo, Reach(line, i + 1, j)) == LeftMax(line, lo, Reach(line, i, j))
  { }

  /** Position i takes over a window it enters when the window was empty or i's digit beats its largest. */
  lemma TakeMax(line: seq<int>, lo: int, i: int, j: int)
    requires 0 <= lo <= i < |line| - Pointers + j + 1 && i < |line|
    requires lo < i ==> line[i] > line[LeftMax(line, lo, i)]
    ensures LeftMax(line, lo, Reach(line, i + 1, j)) == i
  { }

  /** The first j pointers keep their digits when position i is scanned. */
  predicate Kept(line: seq<int>, ps: seq<int>, i: int, j: int)
  {
    forall j' {:trigger From(ps, 0, j')} :: 0 <= j' < j && j' < |ps| ==>
      0 <= From(ps, 0, j') < Reach(line, i + 1, j') && From(ps, 0, j') < |line|
      && Reach(line, i + 1, j') <= |line|
      && ps[j'] == LeftMax(line, From(ps, 0, j'), Reach(line, i + 1, j'))
  }

  /** Pointer 0 moving to a larger digit at i restarts the scan with one pointer. */
  lemma Restarted(line: seq<int>, before: seq<int>, after: seq<int>, c: int, i: int)
    requires Tracks(line, before, c, i) && 1 <= i <= |line| - Pointers
    requires line[i] > line[before[0]]
    requires |after| == Pointers && after[0] == i && forall m :: 1 <= m < Pointers ==> after[m] == -1
    ensures Tracks(line, after, 1, i + 1)
  {
    assert From(before, 0, 0) == 0 && Reach(line, i, 0) == i;
    TakeMax(line, 0, i, 0);
  }

  /**
   * Position i placed into pointer j, after the pointers before j kept their
   * digits, with the rest wiped: the pointers still track the scan.
   */
  lemma Shifted(line: seq<int>, before: seq<int>, after: seq<int>, c: int, i: int, j: int)
    requires Tracks(line, before, c, i) && c + (|line| - i) >= Pointers && i < |line|
    requires 1 <= j <= c && j < Pointers
    requires Kept(line, before, i, j)
    requires j == c || (j < c && 0 <= before[j] < |line| && line[i] > line[before[j]] && |line| - i >= Pointers - j)
    requires |after| == Pointers
    requires forall m :: 0 <= m < Pointers ==> after[m] == (if m < j then before[m] else if m == j then i else -1)
    ensures Tracks(line, after, j + 1, i + 1) && j + 1 + (|line| - i - 1) >= Pointers
  {
    forall m | 0 <= m <= j
      ensures 0 <= after[m] <= i
    {
      if m < j {
        assert after[m] == before[m];
      }
    }
    forall j' | 0 <= j' <= j
      ensures 0 <= From(after, 0, j') < Reach(line, i + 1, j')
      ensures after[j'] == LeftMax(line, From(after, 0, j'), Reach(line, i + 1, j'))
    {
      if j' < j {
        assert From(after, 0, j') == From(before, 0, j') && after[j'] == before[j'];
      } else {
        assert From(after, 0, j) == before[j - 1] + 1;
        if j < c {
          assert Reach(line, i, j) == i;
        }
        TakeMax(line, before[j - 1] + 1, i, j);
      }
    }
  }

  /**
   * q lists k positions of line from lo on, each the first largest digit of
   * its window: from just after the previous one to where k - t - 1 digits
   * are still left after it.
   */
  predicate Windows(line: seq<int>, lo: int, k: nat, q: seq<int>)
  {
    0 <= lo && lo + k <= |line| && |q| == k
    && forall t {:trigger From(q, lo, t)} :: 0 <= t < k ==>
         0 <= From(q, lo, t) < |line| - k + t + 1
         && q[t] == LeftMax(line, From(q, lo, t), |line| - k + t + 1)
  }

  /** The windows after the first position are those of the rest of the list. */
  lemma WindowsTail(line: seq<int>, lo: int, k: nat, q: seq<int>)
    requires Windows(line, lo, k, q) && k > 0
    ensures q[0] == LeftMax(line, lo, |line| - k + 1)
    ensures Windows(line, q[0] + 1, k - 1, q[1..])
  {
    assert From(q, lo, 0) == lo;
    var rest, lo', k' := q[1..], q[0] + 1, k - 1;
    forall t {:trigger From(rest, lo', t)} | 0 <= t < k'
      ensures 0 <= From(rest, lo', t) < |line| - k' + t + 1
      ensures rest[t] == LeftMax(line, From(rest, lo', t), |line| - k' + t + 1)
    {
      assert From(rest, lo', t) == From(q, lo, t + 1) && rest[t] == q[t + 1];
    }
    assert Windows(line, lo', k', rest);
  }

  /** After scanning all of a long enough bank, the tracked pointers are the reference choice. */
  lemma {:induction false} GreedyMatches(line: seq<int>, lo: int, k: nat, q: seq<int>)
    requires Windows(line, lo, k, q)
    ensures q == Greedy(line, lo, k)
    decreases k
  {
    if k > 0 {
      WindowsTail(line, lo, k, q);
      GreedyMatches(line, q[0] + 1, k - 1, q[1..]);
      GreedyUnfold(line, lo, k, q[0]);
      assert q == [q[0]] + q[1..];
    }
  }

  /**
   * The inner pointer loop of FindLargestTwelve: position i goes into the
   * first later pointer that is unassigned, or that holds a smaller digit while
   * enough digits remain to refill the pointers after it; those are wiped.
   */
  method UpdateLater(line: seq<int>, pointers: array<int>, i: int, ghost c: int) returns (ghost c': int)
    requires 1 <= i < |line| && pointers.Length == Pointers
    requires Tracks(line, pointers[..], c, i) && c + (|line| - i) >= Pointers
    requires !(line[i] > line[pointers[0]] && i <= |line| - Pointers)
    modifies pointers
    ensures Tracks(line, pointers[..], c', i + 1) && c' + (|line| - i - 1) >= Pointers
    ensures pointers[0] == old(pointers[0])
  {
    ghost var before := pointers[..];
    c' := c;
    KeptFirst(line, before, c, i);
    var j := 1;
    while j < pointers.Length
      invariant 1 <= j <= pointers.Length
      invariant pointers[..] == before
      invariant j <= c
      invariant Kept(line, before, i, j)
    {
      var p := pointers[j];
      if p == -1 || (line[i] > line[p] && |line| - i >= pointers.Length - j) {
        c' := j + 1;
        Place(line, pointers, i, j, c);
        return;
      }
      KeptStep(line, before, c, i, j);
      j := j + 1;
    }
    KeptAll(line, before, i);
  }

  /** Pointer 0 keeps its digit when the scan does not move it. */
  lemma KeptFirst(line: seq<int>, ps: seq<int>, c: int, i: int)
    requires Tracks(line, ps, c, i) && i < |line|
    requires !(line[i] > line[ps[0]] && i <= |line| - Pointers)
    ensures Kept(line, ps, i, 1)
  {
    assert From(ps, 0, 0) == 0;
    KeepMax(line, 0, i, 0);
  }

  /** Pointer j keeps its digit when position i does not beat it or comes too late for it. */
  lemma KeptStep(line: seq<int>, ps: seq<int>, c: int, i: int, j: int)
    requires Tracks(line, ps, c, i) && i < |line| && 1 <= j < Pointers && Kept(line, ps, i, j)
    requires ps[j] != -1 && !(line[i] > line[ps[j]] && |line| - i >= Pointers - j)
    ensures Kept(line, ps, i, j + 1)
  {
    assert j < c;
    KeepMax(line, From(ps, 0, j), i, j);
  }

  /** With all twelve pointers kept, the slice still tracks the scan one position later. */
  lemma KeptAll(line: seq<int>, ps: seq<int>, i: int)
    requires Tracks(line, ps, Pointers, i) && i < |line| && Kept(line, ps, i, Pointers)
    ensures Tracks(line, ps, Pointers, i + 1)
  { }

  /** Pointer j takes position i and the pointers after it are wiped. */
  method Place(line: seq<int>, pointers: array<int>, i: int, j: int, ghost c: int)
    requires pointers.Length == Pointers && i < |line|
    requires Tracks(line, pointers[..], c, i) && c + (|line| - i) >= Pointers
    requires 1 <= j <= c && j < Pointers && Kept(line, pointers[..], i, j)
    requires j == c || (j < c && 0 <= pointers[j] < |line| && line[i] > line[pointers[j]] && |line| - i >= Pointers - j)
    modifies pointers
    ensures Tracks(line, pointers[..], j + 1, i + 1) && j + 1 + (|line| - i - 1) >= Pointers
    ensures pointers[0] == old(pointers[0])
  {
    ghost var before := pointers[..];
    pointers[j] := i;
    WipePointers(pointers, j + 1);
    Shifted(line, before, pointers[..], c, i, j);
  }

  /**
   * FindLargestTwelve: nothing for fewer than twelve digits; otherwise the
   * reference choice, twelve entries of the line taken at increasing
   * positions whose joltage no other twelve batteries in bank order beat.
   */
  method FindLargestTwelve(line: seq<int>) returns (r: seq<int>)
    ensures r == BestTwelve(line)
    ensures |line| < Pointers ==> r == []
    ensures |line| >= Pointers ==> |r| == Pointers && IsPicked(line, r)
    ensures |line| >= Pointers ==> forall k :: 0 <= k <= |line| - Pointers ==> line[k] <= r[0]
    ensures IsBank(line) && |line| >= Pointers ==>
      forall idx, r' :: Picks(line, idx, r') && |r'| == Pointers ==> Value(r') <= Value(r)
    ensures IsBank(line) ==> IsBank(r)
  {
    if |line| < Pointers {
      return [];
    }
    var pointers := ScanPointers(line);
    ghost var g := pointers[..];
    r := [];
    var m := 0;
    while m < pointers.Length
      invariant 0 <= m <= pointers.Length
      invariant pointers[..] == g
      invariant |r| == m
      invariant forall m' :: 0 <= m' < m ==> r[m'] == line[g[m']]
    {
      r := r + [line[pointers[m]]];
      m := m + 1;
    }
    assert r == BestTwelve(line);
    BestTwelveLargest(line);
  }

  /**
   * The pointer loop of FindLargestTwelve: after the scan the twelve pointers
   * are the reference choice.
   */
  method ScanPointers(line: seq<int>) returns (pointers: array<int>)
    requires |line| >= Pointers
    ensures fresh(pointers) && pointers[..] == Greedy(line, 0, Pointers)
  {
    pointers := new int[Pointers];
    pointers[0] := 0;
    var k := 1;
    while k < pointers.Length
      invariant 1 <= k <= pointers.Length
      invariant pointers[0] == 0
      invariant forall m :: 1 <= m < k ==> pointers[m] == -1
    {
      pointers[k] := -1;
      k := k + 1;
    }
    Started(line, pointers[..]);
    ghost var c := ScanFrom(line, pointers);
    Finished(line, pointers[..], c);
  }

  /** The loop over the line from position 1: the pointers track the scan to the end. */
  method ScanFrom(line: seq<int>, pointers: array<int>) returns (ghost c: int)
    requires pointers.Length == Pointers && |line| >= Pointers
    requires Tracks(line, pointers[..], 1, 1)
    modifies pointers
    ensures Tracks(line, pointers[..], c, |line|) && c >= Pointers
  {
    c := 1;
    var i := 1;
    while i < |line|
      invariant 1 <= i <= |line|
      invariant Tracks(line, pointers[..], c, i)
      invariant c + (|line| - i) >= Pointers
    {
      c := ScanStep(line, pointers, i, c);
      i := i + 1;
    }
  }

  /** One iteration of the scan: position i moves pointer 0 or goes to the later pointers. */
  method ScanStep(line: seq<int>, pointers: array<int>, i: int, ghost c: int) returns (ghost c': int)
    requires pointers.Length == Pointers && 1 <= i < |line|
    requires Tracks(line, pointers[..], c, i) && c + (|line| - i) >= Pointers
    modifies pointers
    ensures Tracks(line, pointers[..], c', i + 1) && c' + (|line| - i - 1) >= Pointers
  {
    if line[i] > line[pointers[0]] && i <= |line| - pointers.Length {
      Restart(line, pointers, i, c);
      c' := 1;
    } else {
      c' := UpdateLater(line, pointers, i, c);
    }
  }

  /** Pointer 0 takes position i and every later pointer is wiped. */
  method Restart(line: seq<int>, pointers: array<int>, i: int, ghost c: int)
    requires pointers.Length == Pointers && 1 <= i <= |line| - Pointers
    requires Tracks(line, pointers[..], c, i) && line[i] > line[pointers[0]]
    modifies pointers
    ensures Tracks(line, pointers[..], 1, i + 1)
  {
    ghost var before := pointers[..];
    pointers[0] := i;
    WipePointers(pointers, 1);
    Restarted(line, before, pointers[..], c, i);
  }

  /** Once every position is scanned, all twelve pointers are assigned and they are the reference choice. */
  lemma Finished(line: seq<int>, ps: seq<int>, c: int)
    requires Tracks(line, ps, c, |line|) && c >= Pointers && |line| >= Pointers
    ensures ps == Greedy(line, 0, Pointers)
  {
    forall t | 0 <= t < Pointers
      ensures Reach(line, |line|, t) == |line| - Pointers + t + 1
    { }
    assert Windows(line, 0, Pointers, ps);
    GreedyMatches(line, 0, Pointers, ps);
  }

  /** Before the scan, pointer 0 sits on position 0 and tracks the one-digit window. */
  lemma Started(line: seq<int>, ps: seq<int>)
    requires |line| >= Pointers && |ps| == Pointers
    requires ps[0] == 0 && forall m :: 1 <= m < Pointers ==> ps[m] == -1
    ensures Tracks(line, ps, 1, 1)
  {
    assert From(ps, 0, 0) == 0;
  }

  /**
   * The reference twelve are batteries in bank order, the first the largest
   * digit that leaves room for eleven more, and on a bank of digits no twelve
   * batteries in bank order fold to a larger joltage.
   */
  lemma BestTwelveLargest(line: seq<int>)
    requires |line| >= Pointers
    ensures |BestTwelve(line)| == Pointers && IsPicked(line, BestTwelve(line))
    ensures forall k :: 0 <= k <= |line| - Pointers ==> line[k] <= BestTwelve(line)[0]
    ensures IsBank(line) ==> IsBank(BestTwelve(line))
    ensures IsBank(line) ==>
      forall idx, r' :: Picks(line, idx, r') && |r'| == Pointers ==> Value(r') <= Value(BestTwelve(line))
  {
    var g := Greedy(line, 0, Pointers);
    GreedyPicked(line, 0, Pointers);
    assert Picks(line, g, BestTwelve(line));
    BestTwelveLead(line);
    forall idx, r' | IsBank(line) && Picks(line, idx, r') && |r'| == Pointers
      ensures Value(r') <= Value(BestTwelve(line))
    {
      TwelveLargest(line, idx, r');
    }
  }

  /** The reference twelve open with the largest digit that leaves room for eleven more, and are digits when the bank is. */
  lemma BestTwelveLead(line: seq<int>)
    requires |line| >= Pointers
    ensures forall k :: 0 <= k <= |line| - Pointers ==> line[k] <= BestTwelve(line)[0]
    ensures IsBank(line) ==> IsBank(BestTwelve(line))
  {
    var p := LeftMax(line, 0, |line| - Pointers + 1);
    var b := Chosen(line, Greedy(line, 0, Pointers));
    ChosenCons(line, 0, Pointers, p);
    assert BestTwelve(line) == b && b[0] == line[p];
    forall k | 0 <= k <= |line| - Pointers
      ensures line[k] <= b[0]
    {
      LeftMaxAt(line, 0, |line| - Pointers + 1, k);
    }
    if IsBank(line) {
      ChosenBank(line, Greedy(line, 0, Pointers));
    }
  }

  /** Digits taken from a bank of digits are digits. */
  lemma ChosenBank(line: seq<int>, g: seq<int>)
    requires IsBank(line) && forall t :: 0 <= t < |g| ==> 0 <= g[t] < |line|
    ensures IsBank(Chosen(line, g))
  { }

  /** One competitor at a time: twelve batteries in bank order fold to no more than the reference twelve. */
  lemma TwelveLargest(line: seq<int>, idx: seq<int>, r: seq<int>)
    requires IsBank(line) && |line| >= Pointers
    requires Picks(line, idx, r) && |r| == Pointers
    ensures Value(r) <= Value(BestTwelve(line))
  {
    var g := Greedy(line, 0, Pointers);
    var b := Chosen(line, g);
    assert BestTwelve(line) == b;
    assert r == Chosen(line, idx);
    assert Ascending(idx, 0, |line|);
    GreedyBest(line, 0, Pointers, idx);
    ChosenBank(line, idx);
    ChosenBank(line, g);
    LexValue(r, b);
  }

  /** Part two's joltage of one bank: the reference twelve, folded; 0 for a short bank. */
  function TwelveJoltage(line: seq<int>): int
  { Value(BestTwelve(line)) }

  /** Sum of part two's joltage over the banks. */
  function TotalTwelve(lines: seq<seq<int>>): int
  { if lines == [] then 0 else TotalTwelve(lines[..|lines| - 1]) + TwelveJoltage(lines[|lines| - 1]) }

  /** One bank's part-two joltage has at most twelve digits. */
  lemma TwelveJoltageBound(line: seq<int>)
    requires IsBank(line)
    ensures 0 <= TwelveJoltage(line) <= Pow10(Pointers) - 1
  {
    var b := BestTwelve(line);
    if |line| >= Pointers {
      BestTwelveLead(line);
    }
    ValueBound(b);
    Pow10Mono(|b|, Pointers);
  }

  /** A bank contributes a number of at most twelve digits. */
  lemma {:induction false} TotalTwelveBound(lines: seq<seq<int>>)
    requires forall k :: 0 <= k < |lines| ==> IsBank(lines[k])
    ensures 0 <= TotalTwelve(lines)
    ensures TotalTwelve(lines) <= |lines| * (Pow10(Pointers) - 1)
  {
    assert Pow10(Pointers) == 1_000_000_000_000;
    if lines != [] {
      var n := |lines| - 1;
      TotalTwelveBound(lines[..n]);
      TwelveJoltageBound(lines[n]);
      assert TotalTwelve(lines) == TotalTwelve(lines[..n]) + TwelveJoltage(lines[n]);
      assert |lines[..n]| == n;
    }
  }

  /**
   * Solve2: sums digitsToInt(FindLargestTwelve(line)) over the banks and prints
   * it in decimal: the sum of the reference joltages, each of at most twelve digits.
   */
  method Solve2(lines: seq<seq<int>>) returns (result: string, total: int)
    requires forall k :: 0 <= k < |lines| ==> IsBank(lines[k])
    ensures total == TotalTwelve(lines)
    ensures 0 <= total <= |lines| * (Pow10(Pointers) - 1)
    ensures result == GoMath.Itoa(total)
  {
    total := 0;
    var i := 0;
    while i < |lines|
      invariant 0 <= i <= |lines|
      invariant total == TotalTwelve(lines[..i])
    {
      var digits := FindLargestTwelve(lines[i]);
      var v := DigitsToInt(digits);
      assert lines[..i + 1][..i] == lines[..i];
      total := total + v;
      i := i + 1;
    }
    assert lines[..i] == lines;
    TotalTwelveBound(lines);
    result := GoMath.Itoa(total);
  }
}
