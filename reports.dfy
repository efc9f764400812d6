/**
 * The reactor reports of 2024 day 2. A report is safe when its levels move
 * in one direction only and every step between neighbours is 1, 2 or 3.
 * The "problem dampener" of part two also accepts a report that becomes
 * safe once one level is taken out.
 */
module Reports {
  import GoMath

  function Abs(x: int): nat { if x < 0 then -x else x }

  /** Every step r[k+1] - r[k] lies in [lo, hi]. */
  function StepsIn(r: seq<int>, lo: int, hi: int): bool
  {
    |r| <= 1 || (lo <= r[1] - r[0] <= hi && StepsIn(r[1..], lo, hi))
  }

  /** The reference definition: strictly increasing by 1..3, or strictly decreasing by 1..3. */
  function Safe(r: seq<int>): bool
  {
    StepsIn(r, 1, 3) || StepsIn(r, -3, -1)
  }

  lemma {:induction false} StepsInAt(r: seq<int>, lo: int, hi: int)
    ensures StepsIn(r, lo, hi) <==> forall k :: 0 <= k < |r| - 1 ==> lo <= r[k + 1] - r[k] <= hi
  {
    if |r| > 1 {
      StepsInAt(r[1..], lo, hi);
      if StepsIn(r, lo, hi) {
        forall k | 0 <= k < |r| - 1 ensures lo <= r[k + 1] - r[k] <= hi {
          if k > 0 { assert r[k + 1] - r[k] == r[1..][k] - r[1..][k - 1]; }
        }
      } else if lo <= r[1] - r[0] <= hi {
        var k :| 0 <= k < |r| - 2 && !(lo <= r[1..][k + 1] - r[1..][k] <= hi);
        assert r[1..][k + 1] - r[1..][k] == r[k + 2] - r[k + 1];
      }
    }
  }

  /** Some step among the first n rises. */
  function Rises(r: seq<int>, n: nat): bool
    requires n == 0 || n < |r|
  {
    n > 0 && (Rises(r, n - 1) || r[n - 1] < r[n])
  }

  /** Some step among the first n falls. */
  function Falls(r: seq<int>, n: nat): bool
    requires n == 0 || n < |r|
  {
    n > 0 && (Falls(r, n - 1) || r[n - 1] > r[n])
  }

  /** Every step among the first n moves by 1, 2 or 3. */
  function Gaps(r: seq<int>, n: nat): bool
    requires n == 0 || n < |r|
  {
    n == 0 || (Gaps(r, n - 1) && 1 <= Abs(r[n - 1] - r[n]) <= 3)
  }

  /** The number of steps of r. */
  function Steps(r: seq<int>): nat { if |r| == 0 then 0 else |r| - 1 }

  lemma {:induction false} RisesSome(r: seq<int>, n: nat)
    requires n == 0 || n < |r|
    ensures Rises(r, n) <==> exists k :: 0 <= k < n && r[k] < r[k + 1]
  {
    if n > 0 { RisesSome(r, n - 1); }
  }

  lemma {:induction false} FallsSome(r: seq<int>, n: nat)
    requires n == 0 || n < |r|
    ensures Falls(r, n) <==> exists k :: 0 <= k < n && r[k] > r[k + 1]
  {
    if n > 0 { FallsSome(r, n - 1); }
  }

  lemma {:induction false} GapsAll(r: seq<int>, n: nat)
    requires n == 0 || n < |r|
    ensures Gaps(r, n) <==> forall k :: 0 <= k < n ==> 1 <= Abs(r[k] - r[k + 1]) <= 3
  {
    if n > 0 { GapsAll(r, n - 1); }
  }

  /**
   * ValidateReport: rule 1 scans for a rise and a fall and stops at the
   * first report that has both; rule 2 stops at the first step outside
   * 1..3. The verdict is exactly the reference definition Safe.
   */
  method ValidateReport(report: seq<int>) returns (validity: bool)
    ensures validity == Safe(report)
  {
    validity := true;
    var increasing, decreasing := false, false;
    var i := 0;
    while i < |report|
      invariant 0 <= i <= Steps(report)
      invariant increasing == Rises(report, i) && decreasing == Falls(report, i)
      invariant validity == !(increasing && decreasing)
    {
      if i == |report| - 1 {
        break;
      }
      if report[i] < report[i + 1] {
        increasing := true;
      }
      if report[i] > report[i + 1] {
        decreasing := true;
      }
      if increasing && decreasing {
        validity := false;
        break;
      }
      i := i + 1;
    }
    ghost var monotone := validity;
    assert monotone ==> !(Rises(report, Steps(report)) && Falls(report, Steps(report))) by {
      if monotone { assert i == Steps(report); }
    }
    assert !monotone ==> Rises(report, Steps(report)) && Falls(report, Steps(report)) by {
      if !monotone { BothStay(report, i + 1); }
    }
    i := 0;
    while i < |report|
      invariant 0 <= i <= Steps(report)
      invariant Gaps(report, i)
      invariant validity == monotone
    {
      if i == |report| - 1 {
        break;
      }
      var diff := Abs(report[i] - report[i + 1]);
      if diff < 1 || diff > 3 {
        validity := false;
        break;
      }
      i := i + 1;
    }
    assert validity ==> Gaps(report, Steps(report));
    assert monotone && !validity ==> !Gaps(report, Steps(report)) by {
      if monotone && !validity { GapsFail(report, i + 1, Steps(report)); }
    }
    SafeByRules(report);
  }

  /** The loop of rule 1 left early only because it had seen both a rise and a fall. */
  lemma {:induction false} BothStay(r: seq<int>, i: nat)
    requires i <= Steps(r) && Rises(r, i) && Falls(r, i)
    ensures Rises(r, Steps(r)) && Falls(r, Steps(r))
    decreases Steps(r) - i
  {
    if i < Steps(r) { BothStay(r, i + 1); }
  }

  /** Once a step is out of range, every longer prefix has one too. */
  lemma {:induction false} GapsFail(r: seq<int>, k: nat, k': nat)
    requires k <= k' <= Steps(r) && !Gaps(r, k)
    ensures !Gaps(r, k')
    decreases k' - k
  {
    if k < k' { GapsFail(r, k + 1, k'); }
  }

  /** The two rules together say the same as the reference definition. */
  lemma SafeByRules(r: seq<int>)
    ensures Safe(r) <==> !(Rises(r, Steps(r)) && Falls(r, Steps(r))) && Gaps(r, Steps(r))
  {
    if !(Rises(r, Steps(r)) && Falls(r, Steps(r))) && Gaps(r, Steps(r)) {
      RulesSafe(r);
    }
    if StepsIn(r, 1, 3) {
      RisingRules(r, 1, 3);
    }
    if StepsIn(r, -3, -1) {
      RisingRules(r, -3, -1);
    }
  }

  lemma RulesSafe(r: seq<int>)
    requires !(Rises(r, Steps(r)) && Falls(r, Steps(r))) && Gaps(r, Steps(r))
    ensures Safe(r)
  {
    var n := Steps(r);
    RisesSome(r, n);
    FallsSome(r, n);
    GapsAll(r, n);
    if !Falls(r, n) {
      StepsInAt(r, 1, 3);
      forall k | 0 <= k < |r| - 1 ensures 1 <= r[k + 1] - r[k] <= 3 {
        assert 1 <= Abs(r[k] - r[k + 1]) <= 3;
      }
    } else {
      StepsInAt(r, -3, -1);
      forall k | 0 <= k < |r| - 1 ensures -3 <= r[k + 1] - r[k] <= -1 {
        assert 1 <= Abs(r[k] - r[k + 1]) <= 3;
      }
    }
  }

  /** A report whose steps all lie in 1..3, or all in -3..-1, passes both rules. */
  lemma RisingRules(r: seq<int>, lo: int, hi: int)
    requires (lo, hi) == (1, 3) || (lo, hi) == (-3, -1)
    requires StepsIn(r, lo, hi)
    ensures !(Rises(r, Steps(r)) && Falls(r, Steps(r))) && Gaps(r, Steps(r))
  {
    var n := Steps(r);
    StepsInAt(r, lo, hi);
    RisesSome(r, n);
    FallsSome(r, n);
    GapsAll(r, n);
  }

  /** A report of at most one level is safe. */
  lemma ShortSafe(r: seq<int>)
    requires |r| <= 1
    ensures Safe(r)
  {
  }

  /** r with the level at index i taken out. */
  function Without(r: seq<int>, i: nat): (s: seq<int>)
    requires i < |r|
    ensures |s| == |r| - 1
  {
    r[..i] + r[i + 1..]
  }

  /** Taking out one of the first k levels makes r safe. */
  function SafeWithout(r: seq<int>, k: nat): bool
    requires k <= |r|
  {
    k > 0 && (SafeWithout(r, k - 1) || Safe(Without(r, k - 1)))
  }

  lemma {:induction false} SafeWithoutSome(r: seq<int>, k: nat)
    requires k <= |r|
    ensures SafeWithout(r, k) <==> exists i :: 0 <= i < k && Safe(Without(r, i))
  {
    if k > 0 {
      SafeWithoutSome(r, k - 1);
    }
  }

  lemma {:induction false} SafeWithoutGrows(r: seq<int>, k: nat, k': nat)
    requires k <= k' <= |r| && SafeWithout(r, k)
    ensures SafeWithout(r, k')
    decreases k' - k
  {
    if k < k' { SafeWithoutGrows(r, k + 1, k'); }
  }

  /** The dampened verdict: safe as it is, or after taking out one level. */
  predicate Dampened(r: seq<int>)
  {
    Safe(r) || SafeWithout(r, |r|)
  }

  lemma DampenedMeans(r: seq<int>)
    ensures Dampened(r) <==> Safe(r) || exists i :: 0 <= i < |r| && Safe(Without(r, i))
  {
    SafeWithoutSome(r, |r|);
  }

  function CountSafe(reports: seq<seq<int>>): nat
  {
    if reports == [] then 0
    else CountSafe(reports[..|reports| - 1]) + (if Safe(reports[|reports| - 1]) then 1 else 0)
  }

  function CountDampened(reports: seq<seq<int>>): nat
  {
    if reports == [] then 0
    else CountDampened(reports[..|reports| - 1]) + (if Dampened(reports[|reports| - 1]) then 1 else 0)
  }

  /** Part one: the number of safe reports, written as "Safe Reports: N". */
  method Solve1(reports: seq<seq<int>>) returns (results: seq<string>, rollingSum: nat)
    ensures rollingSum == CountSafe(reports) && rollingSum <= |reports|
    ensures results == ["Safe Reports: " + GoMath.Itoa(rollingSum)]
  {
    rollingSum := 0;
    var n := 0;
    while n < |reports|
      invariant 0 <= n <= |reports| && rollingSum == CountSafe(reports[..n]) && rollingSum <= n
    {
      assert reports[..n + 1][..n] == reports[..n];
      var validity := ValidateReport(reports[n]);
      if validity {
        rollingSum := rollingSum + 1;
      }
      n := n + 1;
    }
    assert reports[..n] == reports;
    results := ["Safe Reports: " + GoMath.Itoa(rollingSum)];
  }

  /** Solve2's test of one report: as it is, else with each level removed in turn until one works. */
  method DampenedReport(report: seq<int>) returns (validity: bool)
    ensures validity == Dampened(report)
  {
    validity := ValidateReport(report);
    if !validity {
      var i := 0;
      while i < |report|
        invariant 0 <= i <= |report| && !SafeWithout(report, i)
      {
        var newReport := report[..i] + report[i + 1..];
        var newValidity := ValidateReport(newReport);
        if newValidity {
          SafeWithoutGrows(report, i + 1, |report|);
          validity := true;
          break;
        }
        i := i + 1;
      }
    }
  }

  /** Part two: the number of reports that are safe with the dampener. */
  method Solve2(reports: seq<seq<int>>) returns (results: seq<string>, rollingSum: nat)
    ensures rollingSum == CountDampened(reports) && rollingSum <= |reports|
    ensures results == ["Actually Safe Reports: " + GoMath.Itoa(rollingSum)]
  {
    rollingSum := 0;
    var n := 0;
    while n < |reports|
      invariant 0 <= n <= |reports| && rollingSum == CountDampened(reports[..n]) && rollingSum <= n
    {
      assert reports[..n + 1][..n] == reports[..n];
      var validity := DampenedReport(reports[n]);
      if validity {
        rollingSum := rollingSum + 1;
      }
      n := n + 1;
    }
    assert reports[..n] == reports;
    results := ["Actually Safe Reports: " + GoMath.Itoa(rollingSum)];
  }

  /** The dampener only ever adds reports: part two counts at least as many as part one. */
  lemma {:induction false} DampenerCountsMore(reports: seq<seq<int>>)
    ensures CountSafe(reports) <= CountDampened(reports)
  {
    if reports != [] {
      DampenerCountsMore(reports[..|reports| - 1]);
    }
  }

  const Example: seq<seq<int>> := [[7, 6, 4, 2, 1], [1, 2, 7, 8, 9], [9, 7, 6, 2, 1], [1, 3, 2, 4, 5], [8, 6, 4, 4, 1], [1, 3, 6, 7, 9]]

  lemma CountsAppend(reports: seq<seq<int>>, r: seq<int>)
    ensures CountSafe(reports + [r]) == CountSafe(reports) + (if Safe(r) then 1 else 0)
    ensures CountDampened(reports + [r]) == CountDampened(reports) + (if Dampened(r) then 1 else 0)
  {
    assert (reports + [r])[..|reports|] == reports;
  }

  /** Dampened by listing every removal. */
  lemma DampenedBy(r: seq<int>, ws: seq<seq<int>>)
    requires |ws| == |r| && forall i :: 0 <= i < |r| ==> ws[i] == Without(r, i)
    ensures Dampened(r) <==> Safe(r) || exists i :: 0 <= i < |ws| && Safe(ws[i])
  {
    DampenedMeans(r);
  }

  /** The verdicts on the six reports of the worked example. */
  lemma ExampleVerdicts()
    ensures Safe(Example[0]) && !Safe(Example[1]) && !Safe(Example[2])
    ensures !Safe(Example[3]) && !Safe(Example[4]) && Safe(Example[5])
  {
  }

  lemma ExampleDampenedRising()
    ensures !Dampened(Example[1]) && Dampened(Example[3])
  {
    DampenedBy(Example[1], [[2, 7, 8, 9], [1, 7, 8, 9], [1, 2, 8, 9], [1, 2, 7, 9], [1, 2, 7, 8]]);
    DampenedBy(Example[3], [[3, 2, 4, 5], [1, 2, 4, 5], [1, 3, 4, 5], [1, 3, 2, 5], [1, 3, 2, 4]]);
  }

  lemma ExampleDampenedFalling()
    ensures !Dampened(Example[2]) && Dampened(Example[4])
  {
    DampenedBy(Example[2], [[7, 6, 2, 1], [9, 6, 2, 1], [9, 7, 2, 1], [9, 7, 6, 1], [9, 7, 6, 2]]);
    DampenedBy(Example[4], [[6, 4, 4, 1], [8, 4, 4, 1], [8, 6, 4, 1], [8, 6, 4, 1], [8, 6, 4, 4]]);
  }

  /** The worked example: two reports are safe, four with the dampener. */
  lemma ExampleCounts()
    ensures CountSafe(Example) == 2 && CountDampened(Example) == 4
  {
    ExampleVerdicts();
    ExampleDampenedRising();
    ExampleDampenedFalling();
    var e := Example;
    assert e == e[..5] + [e[5]] && e[..5] == e[..4] + [e[4]] && e[..4] == e[..3] + [e[3]];
    assert e[..3] == e[..2] + [e[2]] && e[..2] == e[..1] + [e[1]] && e[..1] == [] + [e[0]];
    CountsAppend([], e[0]);
    CountsAppend(e[..1], e[1]);
    CountsAppend(e[..2], e[2]);
    CountsAppend(e[..3], e[3]);
    CountsAppend(e[..4], e[4]);
    CountsAppend(e[..5], e[5]);
  }
}
