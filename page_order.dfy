/**
 * The print-queue updates of 2024 day 5. A rule "k|v" says page k must be
 * printed before page v; the rules are kept as a map from k to the list of
 * its v values, in input order. Part one sums the middle pages of the
 * updates that break no rule; part two reorders the others in place and
 * sums their middle pages.
 */
module PageOrder {
  import GoMath

  type Rules = map<int, seq<int>>

  /** The rule values of a page: what the scan over the map collects for the one matching key. */
  function Applicable(rules: Rules, page: int): (rs: seq<int>)
    ensures page !in rules ==> rs == []
  {
    if page in rules then rules[page] else []
  }

  /** contains: a linear scan that stops at the first equal element. */
  method Contains(seenPages: seq<int>, rule: int) returns (found: bool)
    ensures found <==> rule in seenPages
  {
    var n := 0;
    while n < |seenPages|
      invariant 0 <= n <= |seenPages| && rule !in seenPages[..n]
    {
      if seenPages[n] == rule {
        return true;
      }
      assert seenPages[..n + 1] == seenPages[..n] + [seenPages[n]];
      n := n + 1;
    }
    assert seenPages[..n] == seenPages;
    return false;
  }

  // ------------------------------------------------------------ part one

  /** r is among the first n pages of u. */
  function Seen(u: seq<int>, r: int, n: nat): bool
    requires n <= |u|
  {
    n > 0 && (u[n - 1] == r || Seen(u, r, n - 1))
  }

  lemma {:induction false} SeenIn(u: seq<int>, r: int, n: nat)
    requires n <= |u|
    ensures Seen(u, r, n) <==> r in u[..n]
  {
    if n > 0 {
      SeenIn(u, r, n - 1);
      assert u[..n] == u[..n - 1] + [u[n - 1]];
    }
  }

  /** One of the first k values of rs is among the first n pages of u. */
  function AnySeen(rs: seq<int>, u: seq<int>, n: nat, k: nat): bool
    requires n <= |u| && k <= |rs|
  {
    k > 0 && (AnySeen(rs, u, n, k - 1) || Seen(u, rs[k - 1], n))
  }

  lemma {:induction false} AnySeenSome(rs: seq<int>, u: seq<int>, n: nat, k: nat)
    requires n <= |u| && k <= |rs|
    ensures AnySeen(rs, u, n, k) <==> exists t :: 0 <= t < k && rs[t] in u[..n]
  {
    if k > 0 {
      AnySeenSome(rs, u, n, k - 1);
      SeenIn(u, rs[k - 1], n);
    }
  }

  /**
   * The check of Solve1 up to page n: no page among the first n has a rule
   * value among the pages seen so far, the page itself included.
   */
  function ValidPrefix(rules: Rules, u: seq<int>, n: nat): bool
    requires n <= |u|
  {
    n == 0 ||
    (ValidPrefix(rules, u, n - 1) &&
     !AnySeen(Applicable(rules, u[n - 1]), u, n, |Applicable(rules, u[n - 1])|))
  }

  predicate Valid(rules: Rules, u: seq<int>)
  {
    ValidPrefix(rules, u, |u|)
  }

  /** No rule value of page p occurs among the pages up to and including p. */
  predicate PageValid(rules: Rules, u: seq<int>, p: nat)
    requires p < |u|
  {
    forall r :: r in Applicable(rules, u[p]) ==> r !in u[..p + 1]
  }

  lemma PageInvalid(rules: Rules, u: seq<int>, p: nat, r: int)
    requires p < |u| && r in Applicable(rules, u[p]) && r in u[..p + 1]
    ensures !PageValid(rules, u, p)
  {
  }

  /** Validity spelled out: every page passes on its own. */
  lemma {:induction false} ValidMeans(rules: Rules, u: seq<int>, n: nat)
    requires n <= |u|
    ensures ValidPrefix(rules, u, n) <==> forall p :: 0 <= p < n ==> PageValid(rules, u, p)
  {
    if n > 0 {
      ValidMeans(rules, u, n - 1);
      var rs := Applicable(rules, u[n - 1]);
      AnySeenSome(rs, u, n, |rs|);
      if AnySeen(rs, u, n, |rs|) {
        var t :| 0 <= t < |rs| && rs[t] in u[..n];
        assert u[..(n - 1) + 1] == u[..n];
        assert rs[t] in rs && rs[t] in u[..(n - 1) + 1];
        PageInvalid(rules, u, n - 1, rs[t]);
      } else {
        forall r | r in rs ensures r !in u[..n] {
          var t :| 0 <= t < |rs| && rs[t] == r;
        }
        assert u[..(n - 1) + 1] == u[..n];
        assert PageValid(rules, u, n - 1);
      }
    }
  }

  /** The inner loops of Solve1 for one update. */
  method CheckUpdate(rules: Rules, update: seq<int>) returns (valid: bool)
    ensures valid == Valid(rules, update)
  {
    var seenPages: seq<int> := [];
    valid := true;
    var n := 0;
    while n < |update|
      invariant 0 <= n <= |update| && seenPages == update[..n]
      invariant valid == ValidPrefix(rules, update, n)
    {
      var page := update[n];
      seenPages := seenPages + [page];
      assert seenPages == update[..n + 1];
      var applicableRules := Applicable(rules, page);
      var k := 0;
      ghost var before := valid;
      while k < |applicableRules|
        invariant 0 <= k <= |applicableRules|
        invariant valid == (before && !AnySeen(applicableRules, update, n + 1, k))
      {
        var c := Contains(seenPages, applicableRules[k]);
        SeenIn(update, applicableRules[k], n + 1);
        if c {
          valid := false;
        }
        k := k + 1;
      }
      n := n + 1;
    }
  }

  /** The sum of the middle pages of the valid updates. */
  function ValidMiddleSum(rules: Rules, updates: seq<seq<int>>): int
    requires forall k :: 0 <= k < |updates| ==> |updates[k]| > 0
  {
    if updates == [] then 0
    else
      var u := updates[|updates| - 1];
      ValidMiddleSum(rules, updates[..|updates| - 1]) + (if Valid(rules, u) then u[|u| / 2] else 0)
  }

  /**
   * Part one. Every update must be non-empty: an empty update breaks no
   * rule, and taking its middle page panics.
   */
  method Solve1(rules: Rules, updates: seq<seq<int>>) returns (results: seq<string>, rollingSum: int)
    requires forall k :: 0 <= k < |updates| ==> |updates[k]| > 0
    ensures rollingSum == ValidMiddleSum(rules, updates)
    ensures results == ["Result 1: " + GoMath.Itoa(rollingSum)]
  {
    rollingSum := 0;
    var n := 0;
    while n < |updates|
      invariant 0 <= n <= |updates| && rollingSum == ValidMiddleSum(rules, updates[..n])
    {
      assert updates[..n + 1][..n] == updates[..n];
      var update := updates[n];
      var valid := CheckUpdate(rules, update);
      if valid {
        rollingSum := rollingSum + update[|update| / 2];
      }
      n := n + 1;
    }
    assert updates[..n] == updates;
    results := ["Result 1: " + GoMath.Itoa(rollingSum)];
  }

  // ------------------------------------------------------------ move

  /** s with the element at i taken out and put back in at j. */
  function Moved(s: seq<int>, i: nat, j: nat): seq<int>
    requires i < |s| && j < |s|
  {
    var rest := s[..i] + s[i + 1..];
    rest[..j] + [s[i]] + rest[j..]
  }

  /** Where each element of Moved comes from. */
  lemma MovedAt(s: seq<int>, i: nat, j: nat, k: nat)
    requires i < |s| && j < |s| && k < |s|
    ensures |Moved(s, i, j)| == |s|
    ensures Moved(s, i, j)[k] ==
      if k == j then s[i]
      else if i < j && i <= k < j then s[k + 1]
      else if j < i && j < k <= i then s[k - 1]
      else s[k]
  {
  }

  /** Moving an element keeps the same elements. */
  lemma MovedPermutes(s: seq<int>, i: nat, j: nat)
    requires i < |s| && j < |s|
    ensures multiset(Moved(s, i, j)) == multiset(s)
  {
    var rest := s[..i] + s[i + 1..];
    assert s[..i] + [s[i]] + s[i + 1..] == s;
    Splice(s[..i], s[i], s[i + 1..]);
    assert rest[..j] + rest[j..] == rest;
    Splice(rest[..j], s[i], rest[j..]);
  }

  /** Putting x between a and b adds x to the elements of a + b. */
  lemma Splice(a: seq<int>, x: int, b: seq<int>)
    ensures multiset(a + [x] + b) == multiset(a + b) + multiset{x}
  {
    assert a + [x] + b == (a + [x]) + b;
    assert multiset(a + [x]) == multiset(a) + multiset{x};
  }

  /** A move to the same position changes nothing. */
  lemma MovedInPlace(s: seq<int>, i: nat)
    requires i < |s|
    ensures Moved(s, i, i) == s
  {
    assert s == s[..i] + [s[i]] + s[i + 1..];
  }

  /**
   * move: the element at startPosition goes to endPosition and the elements
   * in between shift by one toward the gap it left, as the two copy calls do.
   */
  method Move(slice: array<int>, startPosition: nat, endPosition: nat)
    requires startPosition < slice.Length && endPosition < slice.Length
    modifies slice
    ensures slice[..] == Moved(old(slice[..]), startPosition, endPosition)
  {
    ghost var s := slice[..];
    if startPosition == endPosition {
      MovedInPlace(s, startPosition);
      return;
    }
    var value := slice[startPosition];
    if startPosition < endPosition {
      var k := startPosition;
      while k < endPosition
        invariant startPosition <= k <= endPosition
        invariant forall t :: 0 <= t < slice.Length && !(startPosition <= t < k) ==> slice[t] == s[t]
        invariant forall t :: startPosition <= t < k ==> slice[t] == s[t + 1]
      {
        slice[k] := slice[k + 1];
        k := k + 1;
      }
    } else {
      var k := startPosition;
      while k > endPosition
        invariant endPosition <= k <= startPosition
        invariant forall t :: 0 <= t < slice.Length && !(k < t <= startPosition) ==> slice[t] == s[t]
        invariant forall t :: k < t <= startPosition ==> slice[t] == s[t - 1]
      {
        slice[k] := slice[k - 1];
        k := k - 1;
      }
    }
    slice[endPosition] := value;
    forall t | 0 <= t < slice.Length
      ensures slice[t] == Moved(s, startPosition, endPosition)[t]
    {
      MovedAt(s, startPosition, endPosition, t);
    }
    MovedAt(s, startPosition, endPosition, 0);
  }

  // ------------------------------------------------------------ part two

  /** Page q of s is in order: none of its rule values occurs before it. */
  predicate PageInOrder(rules: Rules, s: seq<int>, q: nat)
    requires q < |s|
  {
    forall r :: r in Applicable(rules, s[q]) ==> r !in s[..q]
  }

  /** Every page of s is in order: what sortUpdate leaves behind when it returns. */
  predicate Ordered(rules: Rules, s: seq<int>)
  {
    forall q :: 0 <= q < |s| ==> PageInOrder(rules, s, q)
  }

  lemma OrderedPrefix(rules: Rules, s: seq<int>, n: nat)
    requires Ordered(rules, s) && n <= |s|
    ensures Ordered(rules, s[..n])
  {
    forall q | 0 <= q < n ensures PageInOrder(rules, s[..n], q) {
      assert s[..n][..q] == s[..q];
      assert PageInOrder(rules, s, q);
    }
  }

  lemma OrderedExtend(rules: Rules, s: seq<int>, n: nat)
    requires n < |s| && Ordered(rules, s[..n])
    requires forall r :: r in Applicable(rules, s[n]) ==> r !in s[..n]
    ensures Ordered(rules, s[..n + 1])
  {
    var p := s[..n + 1];
    forall q | 0 <= q < |p| ensures PageInOrder(rules, p, q) {
      assert p[..q] == s[..q];
      if q < n {
        assert s[..n][..q] == s[..q];
        assert PageInOrder(rules, s[..n], q);
      }
    }
  }

  /** An update that passes the check of part one is also in order. */
  lemma ValidOrdered(rules: Rules, u: seq<int>)
    requires Valid(rules, u)
    ensures Ordered(rules, u)
  {
    ValidMeans(rules, u, |u|);
    forall q | 0 <= q < |u| ensures PageInOrder(rules, u, q) {
      assert PageValid(rules, u, q);
      forall r | r in Applicable(rules, u[q]) ensures r !in u[..q] {
        assert u[..q] <= u[..q + 1];
      }
    }
  }

  /** After a move from i to an earlier j, the prefix before j is untouched. */
  lemma MovedPrefix(s: seq<int>, i: nat, j: nat)
    requires j < i < |s|
    ensures Moved(s, i, j)[..j] == s[..j] && Moved(s, i, j)[j] == s[i]
  {
    forall t | 0 <= t <= j ensures Moved(s, i, j)[t] == (if t == j then s[i] else s[t]) {
      MovedAt(s, i, j, t);
    }
  }

  /**
   * What the walk of sortUpdate knows at page i after checking k of its rule
   * values: the pages before i are in order and none of the first k rule
   * values of the page is among them.
   */
  predicate Scanned(rules: Rules, s: seq<int>, i: nat, rs: seq<int>, k: nat)
    requires i <= |s| && k <= |rs|
  {
    Ordered(rules, s[..i]) && forall k' :: 0 <= k' < k ==> rs[k'] !in s[..i]
  }

  /** Moving the page from i to the first index j that holds a rule value keeps what the walk knows. */
  lemma ScannedAfterMove(rules: Rules, s: seq<int>, i: nat, j: nat, rs: seq<int>, k: nat)
    requires j < i < |s| && k < |rs| && Scanned(rules, s, i, rs, k) && rs[k] !in s[..j]
    ensures |Moved(s, i, j)| == |s| && Moved(s, i, j)[j] == s[i]
    ensures multiset(Moved(s, i, j)) == multiset(s)
    ensures Scanned(rules, Moved(s, i, j), j, rs, k + 1)
  {
    MovedAt(s, i, j, 0);
    MovedPermutes(s, i, j);
    MovedPrefix(s, i, j);
    var m := Moved(s, i, j);
    assert m[..j] == s[..j] && s[..j] <= s[..i];
    OrderedPrefix(rules, s[..i], j);
    assert s[..i][..j] == s[..j];
  }

  /**
   * sortUpdate: walk the pages; when a rule value of the current page sits
   * at an earlier index j, move the page to j and carry on from there. The
   * walk does not stop on rules that contradict each other, so the model
   * runs the outer loop at most fuel times and reports whether it finished.
   */
  method SortUpdate(rules: Rules, update: array<int>, fuel: nat) returns (done: bool)
    modifies update
    ensures multiset(update[..]) == multiset(old(update[..]))
    ensures done ==> Ordered(rules, update[..])
  {
    var i := 0;
    var steps := fuel;
    while i < update.Length && steps > 0
      invariant 0 <= i <= update.Length
      invariant multiset(update[..]) == multiset(old(update[..]))
      invariant Ordered(rules, update[..i])
      decreases steps
    {
      var page := update[i];
      var applicableRules := Applicable(rules, page);
      var k := 0;
      while k < |applicableRules|
        invariant 0 <= k <= |applicableRules|
        invariant 0 <= i < update.Length && update[i] == page
        invariant multiset(update[..]) == multiset(old(update[..]))
        invariant Scanned(rules, update[..], i, applicableRules, k)
      {
        var rule := applicableRules[k];
        var j := 0;
        while j < i
          invariant 0 <= i < update.Length && update[i] == page && j <= i
          invariant multiset(update[..]) == multiset(old(update[..]))
          invariant Scanned(rules, update[..], i, applicableRules, k)
          invariant rule !in update[..j]
        {
          if update[j] == rule {
            break;
          }
          assert update[..j + 1] == update[..j] + [update[j]];
          j := j + 1;
        }
        if j < i {
          // The page goes to j; the inner loop then ends because its
          // counter moves past the new index.
          ghost var s := update[..];
          Move(update, i, j);
          ScannedAfterMove(rules, s, i, j, applicableRules, k);
          i := j;
        } else {
          assert Scanned(rules, update[..], i, applicableRules, k + 1);
        }
        k := k + 1;
      }
      OrderedExtend(rules, update[..], i);
      i := i + 1;
      steps := steps - 1;
    }
    done := i >= update.Length;
    if done {
      assert update[..i] == update[..];
    }
  }

  /** sortUpdate on a slice holding the pages of u. */
  method SortCopy(rules: Rules, u: seq<int>, fuel: nat) returns (done: bool, sorted: seq<int>)
    ensures |sorted| == |u| && multiset(sorted) == multiset(u)
    ensures done ==> Ordered(rules, sorted)
  {
    var update := new int[|u|](t => 0);
    var t := 0;
    while t < update.Length
      invariant 0 <= t <= update.Length && update[..t] == u[..t]
    {
      update[t] := u[t];
      t := t + 1;
    }
    assert update[..] == u;
    done := SortUpdate(rules, update, fuel);
    sorted := update[..];
    assert |sorted| == |multiset(sorted)| == |multiset(u)| == |u|;
  }

  /** The updates that fail the check of part one, in order. */
  function Invalid(rules: Rules, updates: seq<seq<int>>): (r: seq<seq<int>>)
    ensures |r| <= |updates|
    ensures forall k :: 0 <= k < |r| ==> r[k] in updates && !Valid(rules, r[k])
  {
    if updates == [] then []
    else
      var u := updates[|updates| - 1];
      Invalid(rules, updates[..|updates| - 1]) + (if Valid(rules, u) then [] else [u])
  }

  function MiddleSum(us: seq<seq<int>>): int
    requires forall k :: 0 <= k < |us| ==> |us[k]| > 0
  {
    if us == [] then 0 else MiddleSum(us[..|us| - 1]) + us[|us| - 1][|us[|us| - 1]| / 2]
  }

  /**
   * Part two: every invalid update is sorted, and the middle pages of the
   * sorted updates are summed. The result is what Solve2 computes when every
   * sort finishes within fuel rounds (done); sorted holds the reordered
   * updates, each a permutation of its invalid update with every page in order.
   */
  method Solve2(rules: Rules, updates: seq<seq<int>>, fuel: nat)
    returns (results: seq<string>, rollingSum: int, done: bool, sorted: seq<seq<int>>)
    requires forall k :: 0 <= k < |updates| ==> |updates[k]| > 0
    ensures done ==> |sorted| == |Invalid(rules, updates)|
    ensures done ==> forall k :: 0 <= k < |sorted| ==>
      multiset(sorted[k]) == multiset(Invalid(rules, updates)[k]) && Ordered(rules, sorted[k])
    ensures done ==> rollingSum == MiddleSum(sorted)
    ensures done ==> results == ["Result 2: " + GoMath.Itoa(rollingSum)]
  {
    var invalid := Invalid(rules, updates);
    sorted := [];
    done := true;
    var n := 0;
    while n < |invalid|
      invariant 0 <= n <= |invalid| && |sorted| == n
      invariant forall k :: 0 <= k < n ==> multiset(sorted[k]) == multiset(invalid[k]) && Ordered(rules, sorted[k])
      invariant forall k :: 0 <= k < n ==> |sorted[k]| > 0
    {
      var ok, update := SortCopy(rules, invalid[n], fuel);
      if !ok {
        return [], 0, false, sorted;
      }
      sorted := sorted + [update];
      n := n + 1;
    }
    rollingSum := 0;
    n := 0;
    while n < |sorted|
      invariant 0 <= n <= |sorted| && rollingSum == MiddleSum(sorted[..n])
    {
      assert sorted[..n + 1][..n] == sorted[..n];
      rollingSum := rollingSum + sorted[n][|sorted[n]| / 2];
      n := n + 1;
    }
    assert sorted[..n] == sorted;
    results := ["Result 2: " + GoMath.Itoa(rollingSum)];
  }

  // ------------------------------------------------------------ the worked example

  const ExampleRules: Rules := map[
    47 := [53, 13, 61, 29], 97 := [13, 61, 47, 29, 53, 75], 75 := [29, 53, 47, 61, 13],
    61 := [13, 53, 29], 29 := [13], 53 := [29, 13]]

  const ExampleUpdates: seq<seq<int>> := [
    [75, 47, 61, 53, 29], [97, 61, 53, 29, 13], [75, 29, 13],
    [75, 97, 47, 61, 53], [61, 13, 29], [97, 13, 75, 29, 47]]

  lemma ValidMiddleSumAppend(rules: Rules, us: seq<seq<int>>, u: seq<int>)
    requires forall k :: 0 <= k < |us| ==> |us[k]| > 0
    requires |u| > 0
    ensures forall k :: 0 <= k < |us + [u]| ==> |(us + [u])[k]| > 0
    ensures ValidMiddleSum(rules, us + [u]) == ValidMiddleSum(rules, us) + (if Valid(rules, u) then u[|u| / 2] else 0)
  {
    assert (us + [u])[..|us|] == us;
  }

  lemma ExampleRuleValues(rules: Rules)
    requires rules == ExampleRules
    ensures Applicable(rules, 75) == [29, 53, 47, 61, 13] && Applicable(rules, 47) == [53, 13, 61, 29]
    ensures Applicable(rules, 61) == [13, 53, 29] && Applicable(rules, 53) == [29, 13]
    ensures Applicable(rules, 29) == [13] && Applicable(rules, 13) == []
    ensures Applicable(rules, 97) == [13, 61, 47, 29, 53, 75]
  {
  }

  /** The three updates of the worked example that break no rule. */
  lemma ExampleValid(rules: Rules)
    requires rules == ExampleRules
    ensures Valid(rules, [75, 47, 61, 53, 29]) && Valid(rules, [97, 61, 53, 29, 13]) && Valid(rules, [75, 29, 13])
  {
    ExampleRuleValues(rules);
    ExampleValidFirst(rules);
    ExampleValidSecond(rules);
    var x := [75, 29, 13];
    assert !AnySeen([29, 53, 47, 61, 13], x, 1, 5) && !AnySeen([13], x, 2, 1);
    assert ValidPrefix(rules, x, 1) && ValidPrefix(rules, x, 2);
  }

  lemma ExampleValidFirst(rules: Rules)
    requires rules == ExampleRules
    ensures Valid(rules, [75, 47, 61, 53, 29])
  {
    ExampleRuleValues(rules);
    var u := [75, 47, 61, 53, 29];
    assert !AnySeen([29, 53, 47, 61, 13], u, 1, 5) && !AnySeen([53, 13, 61, 29], u, 2, 4);
    assert !AnySeen([13, 53, 29], u, 3, 3) && !AnySeen([29, 13], u, 4, 2) && !AnySeen([13], u, 5, 1);
    assert ValidPrefix(rules, u, 1) && ValidPrefix(rules, u, 2) && ValidPrefix(rules, u, 3) && ValidPrefix(rules, u, 4);
  }

  lemma ExampleValidSecond(rules: Rules)
    requires rules == ExampleRules
    ensures Valid(rules, [97, 61, 53, 29, 13])
  {
    ExampleRuleValues(rules);
    var w := [97, 61, 53, 29, 13];
    assert !AnySeen([13, 61, 47, 29, 53, 75], w, 1, 6) && !AnySeen([13, 53, 29], w, 2, 3);
    assert !AnySeen([29, 13], w, 3, 2) && !AnySeen([13], w, 4, 1);
    assert ValidPrefix(rules, w, 1) && ValidPrefix(rules, w, 2) && ValidPrefix(rules, w, 3) && ValidPrefix(rules, w, 4);
  }

  /** The three updates of the worked example that break a rule. */
  lemma ExampleInvalid(rules: Rules)
    requires rules == ExampleRules
    ensures !Valid(rules, [75, 97, 47, 61, 53]) && !Valid(rules, [61, 13, 29]) && !Valid(rules, [97, 13, 75, 29, 47])
  {
    ExampleRuleValues(rules);
    var u := [75, 97, 47, 61, 53];
    assert AnySeen([13, 61, 47, 29, 53, 75], u, 2, 6);
    assert !ValidPrefix(rules, u, 2) && !ValidPrefix(rules, u, 3) && !ValidPrefix(rules, u, 4);
    var w := [61, 13, 29];
    assert AnySeen([13], w, 3, 1);
    var x := [97, 13, 75, 29, 47];
    assert AnySeen([29, 53, 47, 61, 13], x, 3, 5);
    assert !ValidPrefix(rules, x, 3) && !ValidPrefix(rules, x, 4);
  }

  /** The worked example: the three valid updates have middle pages 61, 53 and 29. */
  lemma ExampleSolve1()
    ensures ValidMiddleSum(ExampleRules, ExampleUpdates) == 143
  {
    ExampleValid(ExampleRules);
    ExampleInvalid(ExampleRules);
    var e := ExampleUpdates;
    assert e == e[..5] + [e[5]] && e[..5] == e[..4] + [e[4]] && e[..4] == e[..3] + [e[3]];
    assert e[..3] == e[..2] + [e[2]] && e[..2] == e[..1] + [e[1]] && e[..1] == [] + [e[0]];
    ValidMiddleSumAppend(ExampleRules, [], e[0]);
    ValidMiddleSumAppend(ExampleRules, e[..1], e[1]);
    ValidMiddleSumAppend(ExampleRules, e[..2], e[2]);
    ValidMiddleSumAppend(ExampleRules, e[..3], e[3]);
    ValidMiddleSumAppend(ExampleRules, e[..4], e[4]);
    ValidMiddleSumAppend(ExampleRules, e[..5], e[5]);
  }
}
