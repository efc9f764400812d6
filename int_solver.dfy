/**
 * minButtonPressesVoltage and solveNonNegativeIntegerSystem of 2025 day 10:
 * the buttons become the columns of a 0/1 matrix A, the target voltages the
 * right-hand side v, and a depth-first branch-and-bound search looks for a
 * non-negative integer x with A x = v and the least total number of presses.
 */
module IntSolver {
  import opened Wrappers
  import opened Equation
  import GoMath

  // ------------------------------------------------------------ sums over index lists

  /** The contribution of column j to a row w: x[j] when w has a 1 there. */
  function Weigh(w: seq<int>, x: seq<int>, j: int): int
  {
    if 0 <= j < |w| && 0 <= j < |x| && w[j] == 1 then x[j] else 0
  }

  /** The sum of the contributions of the columns js, in order. */
  function Dot(w: seq<int>, x: seq<int>, js: seq<int>): int
  {
    if js == [] then 0 else Dot(w, x, js[..|js| - 1]) + Weigh(w, x, js[|js| - 1])
  }

  function Iota(n: nat): (r: seq<int>)
    ensures |r| == n && forall k :: 0 <= k < n ==> r[k] == k
  {
    seq(n, k => k)
  }

  function Ones(n: nat): seq<int>
  {
    seq(n, _ => 1)
  }

  /** The total of a vector, summed left to right. */
  function Sum(x: seq<int>): int
  {
    if x == [] then 0 else Sum(x[..|x| - 1]) + x[|x| - 1]
  }

  lemma {:induction false} DotAppend(w: seq<int>, x: seq<int>, p: seq<int>, q: seq<int>)
    ensures Dot(w, x, p + q) == Dot(w, x, p) + Dot(w, x, q)
    decreases |q|
  {
    if q == [] {
      assert p + q == p;
    } else {
      var q' := q[..|q| - 1];
      assert (p + q)[..|p + q| - 1] == p + q';
      DotAppend(w, x, p, q');
    }
  }

  /** Only the entries of x at the listed columns matter. */
  lemma {:induction false} DotAgree(w: seq<int>, x: seq<int>, y: seq<int>, js: seq<int>)
    requires |x| == |y|
    requires forall k :: 0 <= k < |js| && 0 <= js[k] < |x| ==> x[js[k]] == y[js[k]]
    ensures Dot(w, x, js) == Dot(w, y, js)
  {
    if js != [] {
      var js' := js[..|js| - 1];
      assert forall k :: 0 <= k < |js'| ==> js'[k] == js[k];
      DotAgree(w, x, y, js');
    }
  }

  lemma DotRemove(w: seq<int>, x: seq<int>, ks: seq<int>, p: int)
    requires 0 <= p < |ks|
    ensures Dot(w, x, ks) == Dot(w, x, ks[..p] + ks[p + 1..]) + Weigh(w, x, ks[p])
  {
    assert ks == ks[..p] + ([ks[p]] + ks[p + 1..]);
    DotAppend(w, x, ks[..p], [ks[p]] + ks[p + 1..]);
    DotAppend(w, x, [ks[p]], ks[p + 1..]);
    DotAppend(w, x, ks[..p], ks[p + 1..]);
    assert [ks[p]][..0] == [];
  }

  /** The order of the columns does not matter. */
  lemma {:induction false} DotPerm(w: seq<int>, x: seq<int>, js: seq<int>, ks: seq<int>)
    requires multiset(js) == multiset(ks)
    ensures Dot(w, x, js) == Dot(w, x, ks)
    decreases |js|
  {
    if js == [] {
      assert |ks| == |multiset(ks)| == 0;
    } else {
      var t := js[|js| - 1];
      var js' := js[..|js| - 1];
      assert js == js' + [t];
      assert t in multiset(ks);
      var p :| 0 <= p < |ks| && ks[p] == t;
      var ks' := ks[..p] + ks[p + 1..];
      assert ks == ks[..p] + [t] + ks[p + 1..];
      assert multiset(ks') == multiset(ks) - multiset{t};
      DotPerm(w, x, js', ks');
      DotRemove(w, x, ks, p);
    }
  }

  /** With a row of ones, Dot over the first k columns is the sum of the first k entries. */
  lemma {:induction false} DotOnes(x: seq<int>, k: nat)
    requires k <= |x|
    ensures Dot(Ones(|x|), x, Iota(k)) == Sum(x[..k])
  {
    if k > 0 {
      assert Iota(k)[..k - 1] == Iota(k - 1);
      assert x[..k][..k - 1] == x[..k - 1];
      DotOnes(x, k - 1);
    }
  }

  // ------------------------------------------------------------ the system

  /** Column j of A has a 1 in row i. */
  predicate Touches(a: seq<seq<int>>, i: int, j: int)
  {
    0 <= i < |a| && 0 <= j < |a[i]| && a[i][j] == 1
  }

  predicate Rectangular(a: seq<seq<int>>, n: nat)
  {
    forall i :: 0 <= i < |a| ==> |a[i]| == n
  }

  /** x is a non-negative integer solution of A x = v; entries of A other than 1 count as 0. */
  predicate Solution(a: seq<seq<int>>, x: seq<int>, v: seq<int>)
  {
    |a| == |v|
    && (forall j :: 0 <= j < |x| ==> x[j] >= 0)
    && forall i :: 0 <= i < |v| ==> Dot(a[i], x, Iota(|x|)) == v[i]
  }

  /** The matrix of a machine: row i, column j is 1 exactly when button j toggles light i, and 0 otherwise. */
  function Matrix(buttons: seq<Button>, m: nat): (a: seq<seq<int>>)
    ensures |a| == m && Rectangular(a, |buttons|)
    ensures forall i, j :: 0 <= i < m && 0 <= j < |buttons| ==> (a[i][j] == 1 <==> Bit(buttons[j], i)) && (a[i][j] == 0 <==> !Bit(buttons[j], i))
  {
    seq(m, i => seq(|buttons|, j requires 0 <= j < |buttons| => if Bit(buttons[j], i) then 1 else 0))
  }

  /** Step 1 of minButtonPressesVoltage: A from the button bits and V from the target voltages. */
  method BuildSystem(buttons: seq<Button>, voltage: seq<int>) returns (a: seq<seq<int>>, v: seq<int>)
    ensures a == Matrix(buttons, |voltage|) && v == voltage
  {
    var m := |voltage|;
    var n := |buttons|;
    a := seq(m, _ => []);
    v := seq(m, _ => 0);
    var i := 0;
    while i < m
      invariant 0 <= i <= m && |a| == m && |v| == m
      invariant forall k :: 0 <= k < i ==> a[k] == Matrix(buttons, m)[k] && v[k] == voltage[k]
    {
      var row := seq(n, _ => 0);
      var j := 0;
      while j < n
        invariant 0 <= j <= n && |row| == n
        invariant forall l :: 0 <= l < j ==> row[l] == if Bit(buttons[l], i) then 1 else 0
      {
        if Bit(buttons[j], i) {
          row := row[j := 1];
        } else {
          row := row[j := 0];
        }
        j := j + 1;
      }
      a := a[i := row];
      v := v[i := voltage[i]];
      i := i + 1;
    }
  }

  // ------------------------------------------------------------ shape checks

  /** The first row at or after i whose length is not n, if any. */
  function RowError(a: seq<seq<int>>, n: nat, i: nat): (r: Option<string>)
    decreases |a| - i
  {
    if i >= |a| then None
    else if |a[i]| != n then
      Some("row " + GoMath.Itoa(i) + " of A has length " + GoMath.Itoa(|a[i]|) + "; want " + GoMath.Itoa(n))
    else RowError(a, n, i + 1)
  }

  /** The errors solveNonNegativeIntegerSystem reports before it searches. */
  function ShapeError(a: seq<seq<int>>, v: seq<int>): Option<string>
  {
    if |a| == 0 then Some("empty system")
    else if |v| != |a| then
      Some("dimension mismatch: v has " + GoMath.Itoa(|v|) + " rows, A has " + GoMath.Itoa(|a|))
    else RowError(a, |a[0]|, 0)
  }

  lemma {:induction false} RowErrorNone(a: seq<seq<int>>, n: nat, i: nat)
    ensures RowError(a, n, i).None? <==> forall k :: i <= k < |a| ==> |a[k]| == n
    decreases |a| - i
  {
    if i < |a| {
      RowErrorNone(a, n, i + 1);
    }
  }

  /** The search runs exactly on a non-empty rectangular system with as many targets as rows. */
  lemma ShapeErrorNone(a: seq<seq<int>>, v: seq<int>)
    ensures ShapeError(a, v).None? <==> |a| > 0 && |v| == |a| && Rectangular(a, |a[0]|)
  {
    if |a| > 0 && |v| == |a| {
      RowErrorNone(a, |a[0]|, 0);
    }
  }

  method CheckShape(a: seq<seq<int>>, v: seq<int>) returns (r: Option<string>)
    ensures r == ShapeError(a, v)
  {
    var m := |a|;
    if m == 0 {
      return Some("empty system");
    }
    var n := |a[0]|;
    if |v| != m {
      return Some("dimension mismatch: v has " + GoMath.Itoa(|v|) + " rows, A has " + GoMath.Itoa(m));
    }
    var i := 0;
    while i < m
      invariant 0 <= i <= m
      invariant RowError(a, n, 0) == RowError(a, n, i)
    {
      if |a[i]| != n {
        return Some("row " + GoMath.Itoa(i) + " of A has length " + GoMath.Itoa(|a[i]|) + "; want " + GoMath.Itoa(n));
      }
      i := i + 1;
    }
    return None;
  }

  // ------------------------------------------------------------ upper bounds

  /** The running minimum over the first k rows of the targets of the rows column j touches; -1 marks "none yet". */
  function UbFold(a: seq<seq<int>>, v: seq<int>, j: int, k: nat): int
    requires k <= |a| && k <= |v|
  {
    if k == 0 then -1
    else
      var acc := UbFold(a, v, j, k - 1);
      if Touches(a, k - 1, j) && (acc == -1 || v[k - 1] < acc) then v[k - 1] else acc
  }

  /** ub[j]: the running minimum, or 0 when column j touches no row. */
  function Ub(a: seq<seq<int>>, v: seq<int>, j: int): int
    requires |a| <= |v|
  {
    var r := UbFold(a, v, j, |a|);
    if r == -1 then 0 else r
  }

  lemma {:induction false} UbFoldMin(a: seq<seq<int>>, v: seq<int>, j: int, k: nat)
    requires k <= |a| && k <= |v|
    requires forall i :: 0 <= i < |v| ==> v[i] >= 0
    ensures UbFold(a, v, j, k) == -1 <==> forall i :: 0 <= i < k ==> !Touches(a, i, j)
    ensures forall i :: 0 <= i < k && Touches(a, i, j) ==> UbFold(a, v, j, k) <= v[i]
    ensures UbFold(a, v, j, k) != -1 ==> exists i :: 0 <= i < k && Touches(a, i, j) && v[i] == UbFold(a, v, j, k)
  {
    if k > 0 {
      UbFoldMin(a, v, j, k - 1);
    }
  }

  /** With non-negative targets, ub[j] is the least target among the rows column j touches, or 0 if it touches none. */
  lemma UbIsMin(a: seq<seq<int>>, v: seq<int>, j: int)
    requires |a| == |v| && forall i :: 0 <= i < |v| ==> v[i] >= 0
    ensures forall i :: 0 <= i < |a| && Touches(a, i, j) ==> Ub(a, v, j) <= v[i]
    ensures (exists i :: 0 <= i < |a| && Touches(a, i, j)) ==> exists i :: 0 <= i < |a| && Touches(a, i, j) && v[i] == Ub(a, v, j)
    ensures (forall i :: 0 <= i < |a| ==> !Touches(a, i, j)) ==> Ub(a, v, j) == 0
  {
    UbFoldMin(a, v, j, |a|);
  }

  /** Every solution of the system stays within the bounds on every column that touches a row. */
  lemma SolutionWithinUb(a: seq<seq<int>>, v: seq<int>, x: seq<int>, j: int, i: int)
    requires Solution(a, x, v) && 0 <= j < |x| && 0 <= i < |a| && Touches(a, i, j)
    ensures x[j] <= v[i]
  {
    var n := |x|;
    assert Iota(n) == Iota(n)[..j] + [j] + Iota(n)[j + 1..];
    DotAppend(a[i], x, Iota(n)[..j] + [j], Iota(n)[j + 1..]);
    DotAppend(a[i], x, Iota(n)[..j], [j]);
    assert [j][..0] == [];
    DotNonNegative(a[i], x, Iota(n)[..j]);
    DotNonNegative(a[i], x, Iota(n)[j + 1..]);
  }

  lemma {:induction false} DotNonNegative(w: seq<int>, x: seq<int>, js: seq<int>)
    requires forall j :: 0 <= j < |x| ==> x[j] >= 0
    ensures Dot(w, x, js) >= 0
  {
    if js != [] {
      DotNonNegative(w, x, js[..|js| - 1]);
    }
  }

  method UpperBounds(a: seq<seq<int>>, v: seq<int>, n: nat) returns (ub: seq<int>)
    requires |a| == |v| && Rectangular(a, n)
    ensures |ub| == n && forall j :: 0 <= j < n ==> ub[j] == Ub(a, v, j)
  {
    var m := |a|;
    ub := seq(n, _ => 0);
    var j := 0;
    while j < n
      invariant 0 <= j <= n && |ub| == n
      invariant forall l :: 0 <= l < j ==> ub[l] == Ub(a, v, l)
    {
      var minVal := -1;
      var i := 0;
      while i < m
        invariant 0 <= i <= m
        invariant minVal == UbFold(a, v, j, i)
      {
        if a[i][j] == 1 {
          if minVal == -1 || v[i] < minVal {
            minVal := v[i];
          }
        }
        i := i + 1;
      }
      if minVal == -1 {
        ub := ub[j := 0];
      } else {
        ub := ub[j := minVal];
      }
      j := j + 1;
    }
  }

  // ------------------------------------------------------------ variable order

  datatype VarInfo = VarInfo(idx: int, ub: int, degree: int)

  /** The number of rows among the first k that column j touches. */
  function Degree(a: seq<seq<int>>, j: int, k: nat): (r: nat)
    requires k <= |a|
    ensures r <= k
  {
    if k == 0 then 0 else Degree(a, j, k - 1) + (if Touches(a, k - 1, j) then 1 else 0)
  }

  method VarInfos(a: seq<seq<int>>, ub: seq<int>, n: nat) returns (vars: seq<VarInfo>)
    requires Rectangular(a, n) && |ub| == n
    ensures |vars| == n && forall j :: 0 <= j < n ==> vars[j] == VarInfo(j, ub[j], Degree(a, j, |a|))
  {
    vars := seq(n, _ => VarInfo(0, 0, 0));
    var j := 0;
    while j < n
      invariant 0 <= j <= n && |vars| == n
      invariant forall l :: 0 <= l < j ==> vars[l] == VarInfo(l, ub[l], Degree(a, l, |a|))
    {
      var deg := 0;
      var i := 0;
      while i < |a|
        invariant 0 <= i <= |a| && deg == Degree(a, j, i)
      {
        if a[i][j] == 1 {
          deg := deg + 1;
        }
        i := i + 1;
      }
      vars := vars[j := VarInfo(j, ub[j], deg)];
      j := j + 1;
    }
  }

  /** sort.Slice's comparison: smaller bound first, then higher degree, then smaller index. */
  predicate Less(x: VarInfo, y: VarInfo)
  {
    if x.ub != y.ub then x.ub < y.ub
    else if x.degree != y.degree then x.degree > y.degree
    else x.idx < y.idx
  }

  predicate SortedVars(s: seq<VarInfo>)
  {
    forall k :: 0 <= k < |s| - 1 ==> !Less(s[k + 1], s[k])
  }

  function Insert(x: VarInfo, s: seq<VarInfo>): (r: seq<VarInfo>)
    ensures |r| == |s| + 1 && (r[0] == x || (s != [] && r[0] == s[0]))
  {
    if s == [] || Less(x, s[0]) then [x] + s else [s[0]] + Insert(x, s[1..])
  }

  /** The sort the search order is taken from, as an insertion sort. */
  function SortVars(s: seq<VarInfo>): (r: seq<VarInfo>)
    ensures |r| == |s|
  {
    if s == [] then [] else Insert(s[0], SortVars(s[1..]))
  }

  function Idxs(s: seq<VarInfo>): (r: seq<int>)
    ensures |r| == |s| && forall k :: 0 <= k < |s| ==> r[k] == s[k].idx
  {
    if s == [] then [] else [s[0].idx] + Idxs(s[1..])
  }

  lemma {:induction false} InsertSorted(x: VarInfo, s: seq<VarInfo>)
    requires SortedVars(s)
    ensures SortedVars(Insert(x, s))
  {
    if s != [] && !Less(x, s[0]) {
      assert SortedVars(s[1..]);
      InsertSorted(x, s[1..]);
      var r := Insert(x, s[1..]);
      assert [s[0]] + r == Insert(x, s);
      assert r[0] == x || r[0] == s[1];
    }
  }

  lemma {:induction false} SortVarsSorted(s: seq<VarInfo>)
    ensures SortedVars(SortVars(s))
  {
    if s != [] {
      SortVarsSorted(s[1..]);
      InsertSorted(s[0], SortVars(s[1..]));
    }
  }

  lemma {:induction false} InsertPerm(x: VarInfo, s: seq<VarInfo>)
    ensures multiset(Insert(x, s)) == multiset(s) + multiset{x}
  {
    if s != [] && !Less(x, s[0]) {
      InsertPerm(x, s[1..]);
      assert Insert(x, s) == [s[0]] + Insert(x, s[1..]);
      assert multiset(s) == multiset{s[0]} + multiset(s[1..]) by {
        assert s == [s[0]] + s[1..];
      }
    }
  }

  /** SortVars returns a permutation of its input. */
  lemma {:induction false} SortVarsPerm(s: seq<VarInfo>)
    ensures multiset(SortVars(s)) == multiset(s)
  {
    if s != [] {
      var r := SortVars(s[1..]);
      SortVarsPerm(s[1..]);
      InsertPerm(s[0], r);
      assert SortVars(s) == Insert(s[0], r);
      assert multiset(s) == multiset{s[0]} + multiset(s[1..]) by {
        assert s == [s[0]] + s[1..];
      }
    }
  }

  lemma {:induction false} InsertIdxs(x: VarInfo, s: seq<VarInfo>)
    ensures multiset(Idxs(Insert(x, s))) == multiset(Idxs(s)) + multiset{x.idx}
  {
    if s != [] && !Less(x, s[0]) {
      InsertIdxs(x, s[1..]);
      assert Idxs(Insert(x, s)) == [s[0].idx] + Idxs(Insert(x, s[1..]));
    }
  }

  /** The search order is a permutation of the indices it was built from. */
  lemma {:induction false} SortVarsIdxs(s: seq<VarInfo>)
    ensures multiset(Idxs(SortVars(s))) == multiset(Idxs(s))
  {
    if s != [] {
      SortVarsIdxs(s[1..]);
      InsertIdxs(s[0], SortVars(s[1..]));
    }
  }

  method OrderOf(vars: seq<VarInfo>) returns (order: seq<int>)
    ensures order == Idxs(vars)
  {
    order := seq(|vars|, _ => 0);
    var d := 0;
    while d < |vars|
      invariant 0 <= d <= |vars| && |order| == |vars|
      invariant forall k :: 0 <= k < d ==> order[k] == vars[k].idx
    {
      order := order[d := vars[d].idx];
      d := d + 1;
    }
  }

  // ------------------------------------------------------------ permutations of 0..n-1

  /** order lists every column 0..n-1 exactly once. */
  predicate IsPermutation(order: seq<int>, n: nat)
  {
    |order| == n && multiset(order) == multiset(Iota(n)) && Distinct(order)
    && forall k :: 0 <= k < n ==> 0 <= order[k] < n
  }

  lemma {:induction false} DistinctCount(t: seq<int>, e: int)
    requires Distinct(t)
    ensures multiset(t)[e] <= 1
  {
    if t != [] {
      var t' := t[..|t| - 1];
      assert t == t' + [t[|t| - 1]];
      DistinctCount(t', e);
      if t[|t| - 1] == e {
        assert e !in t';
      }
    }
  }

  lemma DupCount(s: seq<int>, k1: int, k2: int)
    requires 0 <= k1 < k2 < |s| && s[k1] == s[k2]
    ensures multiset(s)[s[k1]] >= 2
  {
    assert s == s[..k2] + [s[k2]] + s[k2 + 1..];
    assert s[k1] in s[..k2];
  }

  /** Sorting 0..n-1 gives a permutation of 0..n-1. */
  lemma PermutationOf(order: seq<int>, n: nat)
    requires |order| == n && multiset(order) == multiset(Iota(n))
    ensures IsPermutation(order, n)
  {
    forall k1, k2 | 0 <= k1 < k2 < |order|
      ensures order[k1] != order[k2]
    {
      if order[k1] == order[k2] {
        DupCount(order, k1, k2);
        DistinctCount(Iota(n), order[k1]);
      }
    }
    forall k | 0 <= k < n
      ensures 0 <= order[k] < n
    {
      assert order[k] in multiset(Iota(n));
    }
  }

  /** Every column appears in a permutation of 0..n-1. */
  lemma InPermutation(order: seq<int>, n: nat, j: int)
    requires IsPermutation(order, n) && 0 <= j < n
    ensures exists k :: 0 <= k < n && order[k] == j
  {
    assert Iota(n)[j] == j;
    assert j in multiset(order);
  }

  // ------------------------------------------------------------ remaining capacity

  /** The most the columns at depths d.. can add to a row w, each taking at most its bound. */
  lemma {:induction false} RowMaxBound(w: seq<int>, x: seq<int>, ub: seq<int>, js: seq<int>)
    requires |x| == |ub| && forall j :: 0 <= j < |x| ==> 0 <= x[j] <= ub[j]
    ensures 0 <= Dot(w, x, js) <= Dot(w, ub, js)
  {
    if js != [] {
      RowMaxBound(w, x, ub, js[..|js| - 1]);
    }
  }

  method RowMaxRemaining(a: seq<seq<int>>, ub: seq<int>, order: seq<int>) returns (rm: seq<seq<int>>)
    requires IsPermutation(order, |ub|) && Rectangular(a, |ub|)
    ensures |rm| == |order| + 1 && Rectangular(rm, |a|)
    ensures forall d, i :: 0 <= d <= |order| && 0 <= i < |a| ==> rm[d][i] == Dot(a[i], ub, order[d..])
  {
    var n := |order|;
    var m := |a|;
    rm := seq(n + 1, _ => seq(m, _ => 0));
    var d := n - 1;
    while d >= 0
      invariant -1 <= d < n && |rm| == n + 1 && Rectangular(rm, m)
      invariant forall e, i :: d < e <= n && 0 <= i < m ==> rm[e][i] == Dot(a[i], ub, order[e..])
    {
      var j := order[d];
      var row := seq(m, _ => 0);
      var i := 0;
      while i < m
        invariant 0 <= i <= m && |row| == m
        invariant forall l :: 0 <= l < i ==> row[l] == rm[d + 1][l] + Weigh(a[l], ub, j)
      {
        row := row[i := rm[d + 1][i]];
        if a[i][j] == 1 {
          row := row[i := row[i] + ub[j]];
        }
        i := i + 1;
      }
      forall l | 0 <= l < m
        ensures row[l] == Dot(a[l], ub, order[d..])
      {
        assert order[d..] == [j] + order[d + 1..];
        DotAppend(a[l], ub, [j], order[d + 1..]);
        assert [j][..0] == [];
      }
      rm := rm[d := row];
      d := d - 1;
    }
  }

  // ------------------------------------------------------------ the search

  /**
   * The search state: rowSums[i] is row i's total over the columns assigned
   * so far, currentSum their total, and every assigned value is non-negative.
   */
  predicate Tracks(a: seq<seq<int>>, order: seq<int>, rowSums: seq<int>, x: seq<int>, d: nat, currentSum: int)
    requires d <= |order| && |rowSums| == |a|
  {
    (forall i :: 0 <= i < |a| ==> rowSums[i] == Dot(a[i], x, order[..d]))
    && currentSum == Dot(Ones(|x|), x, order[..d])
    && forall k :: 0 <= k < d && 0 <= order[k] < |x| ==> x[order[k]] >= 0
  }

  /** x and y agree on the columns assigned at depths below d. */
  predicate Agree(x: seq<int>, y: seq<int>, order: seq<int>, d: nat)
    requires d <= |order|
  {
    |x| == |y| && forall k :: 0 <= k < d && 0 <= order[k] < |x| ==> x[order[k]] == y[order[k]]
  }

  lemma TracksFrame(a: seq<seq<int>>, order: seq<int>, rowSums: seq<int>, x: seq<int>, y: seq<int>, d: nat, cs: int)
    requires d <= |order| && |rowSums| == |a|
    requires Tracks(a, order, rowSums, x, d, cs) && Agree(x, y, order, d)
    ensures Tracks(a, order, rowSums, y, d, cs)
  {
    assert forall k :: 0 <= k < d ==> order[..d][k] == order[k];
    forall i | 0 <= i < |a|
      ensures rowSums[i] == Dot(a[i], y, order[..d])
    {
      DotAgree(a[i], x, y, order[..d]);
    }
    DotAgree(Ones(|x|), x, y, order[..d]);
  }

  /** Assigning xj to column order[d] and adding its column to rowSums keeps the state tracked at depth d + 1. */
  lemma TracksStep(a: seq<seq<int>>, order: seq<int>, n: nat, rowSums: seq<int>, rowSums': seq<int>,
                   x: seq<int>, d: nat, cs: int, xj: int)
    requires IsPermutation(order, n) && d < n && |x| == n && |rowSums| == |a| && |rowSums'| == |a|
    requires Rectangular(a, n) && xj >= 0
    requires Tracks(a, order, rowSums, x, d, cs)
    requires forall i :: 0 <= i < |a| ==> rowSums'[i] == rowSums[i] + (if a[i][order[d]] == 1 then xj else 0)
    ensures Tracks(a, order, rowSums', x[order[d] := xj], d + 1, cs + xj)
  {
    var j := order[d];
    var x' := x[j := xj];
    assert order[..d + 1][..d] == order[..d];
    assert forall k :: 0 <= k < d ==> order[..d][k] == order[k] && order[k] != j;
    forall i | 0 <= i < |a|
      ensures rowSums'[i] == Dot(a[i], x', order[..d + 1])
    {
      DotAgree(a[i], x, x', order[..d]);
    }
    DotAgree(Ones(n), x, x', order[..d]);
  }

  /** At full depth a tracked state whose row totals hit the targets is a solution, and currentSum is its total. */
  lemma TracksSolution(a: seq<seq<int>>, v: seq<int>, order: seq<int>, n: nat, rowSums: seq<int>, x: seq<int>, cs: int)
    requires IsPermutation(order, n) && |x| == n && |rowSums| == |a| && |a| == |v|
    requires Tracks(a, order, rowSums, x, n, cs)
    requires forall i :: 0 <= i < |v| ==> rowSums[i] == v[i]
    ensures Solution(a, x, v) && cs == Sum(x)
  {
    assert order[..n] == order;
    forall i | 0 <= i < |a|
      ensures Dot(a[i], x, Iota(n)) == v[i]
    {
      DotPerm(a[i], x, order, Iota(n));
    }
    forall j | 0 <= j < n
      ensures x[j] >= 0
    {
      InPermutation(order, n, j);
    }
    DotPerm(Ones(n), x, order, Iota(n));
    DotOnes(x, n);
    assert x[..n] == x;
  }

  /** y is what the search enumerates: a solution with every column within its bound. */
  ghost predicate Candidate(a: seq<seq<int>>, v: seq<int>, ub: seq<int>, y: seq<int>)
  {
    |y| == |ub| && Solution(a, y, v) && forall j :: 0 <= j < |y| ==> y[j] <= ub[j]
  }

  /**
   * For any y that agrees with a tracked state on the columns assigned so far,
   * each row total and the total of y split into the assigned part and the rest.
   */
  lemma SplitAt(a: seq<seq<int>>, order: seq<int>, n: nat, rowSums: seq<int>, x: seq<int>, d: nat, cs: int, y: seq<int>)
    requires IsPermutation(order, n) && d <= n && |x| == n && |y| == n && |rowSums| == |a|
    requires Tracks(a, order, rowSums, x, d, cs) && Agree(x, y, order, d)
    ensures forall i :: 0 <= i < |a| ==> Dot(a[i], y, Iota(n)) == rowSums[i] + Dot(a[i], y, order[d..])
    ensures Sum(y) == cs + Dot(Ones(n), y, order[d..])
  {
    assert forall k :: 0 <= k < d ==> order[..d][k] == order[k];
    assert order == order[..d] + order[d..];
    forall i | 0 <= i < |a|
      ensures Dot(a[i], y, Iota(n)) == rowSums[i] + Dot(a[i], y, order[d..])
    {
      DotAgree(a[i], x, y, order[..d]);
      DotAppend(a[i], y, order[..d], order[d..]);
      DotPerm(a[i], y, order, Iota(n));
    }
    DotAgree(Ones(n), x, y, order[..d]);
    DotAppend(Ones(n), y, order[..d], order[d..]);
    DotPerm(Ones(n), y, order, Iota(n));
    DotOnes(y, n);
    assert y[..n] == y;
  }

  /** The columns at depths d.. add at least column order[d]'s own contribution. */
  lemma RestAtLeast(w: seq<int>, y: seq<int>, order: seq<int>, d: nat)
    requires d < |order|
    ensures (forall j :: 0 <= j < |y| ==> y[j] >= 0) ==> Dot(w, y, order[d..]) >= Weigh(w, y, order[d])
  {
    if forall j :: 0 <= j < |y| ==> y[j] >= 0 {
      assert order[d..] == [order[d]] + order[d + 1..];
      DotAppend(w, y, [order[d]], order[d + 1..]);
      DotNonNegative(w, y, order[d + 1..]);
      assert [order[d]][..0] == [];
    }
  }

  /** Within the bounds, the columns at depths d.. add between 0 and their capacity. */
  lemma RestWithin(w: seq<int>, y: seq<int>, ub: seq<int>, js: seq<int>)
    requires |y| == |ub|
    ensures (forall j :: 0 <= j < |y| ==> 0 <= y[j] <= ub[j]) ==> 0 <= Dot(w, y, js) <= Dot(w, ub, js)
  {
    if forall j :: 0 <= j < |y| ==> 0 <= y[j] <= ub[j] {
      RowMaxBound(w, y, ub, js);
    }
  }

  /** Fixing column order[d] to y's value extends the agreement by one depth. */
  lemma AgreeStep(x: seq<int>, y: seq<int>, order: seq<int>, n: nat, d: nat)
    requires IsPermutation(order, n) && d < n && |x| == n && Agree(x, y, order, d)
    ensures Agree(x[order[d] := y[order[d]]], y, order, d + 1)
  {
    assert forall k :: 0 <= k < d ==> order[k] != order[d];
  }

  /** At full depth a solution agreeing with the state is the state itself: the rows match and its total is currentSum. */
  lemma AtFullDepth(a: seq<seq<int>>, v: seq<int>, order: seq<int>, n: nat, rowSums: seq<int>, x: seq<int>, cs: int)
    requires IsPermutation(order, n) && |x| == n && |rowSums| == |a| && |a| == |v|
    requires Tracks(a, order, rowSums, x, n, cs)
    ensures forall y :: |y| == n && Agree(x, y, order, n) && Solution(a, y, v) ==>
              (forall i :: 0 <= i < |v| ==> rowSums[i] == v[i]) && Sum(y) == cs
  {
    forall y | |y| == n && Agree(x, y, order, n)
      ensures (forall i :: 0 <= i < |a| ==> Dot(a[i], y, Iota(n)) == rowSums[i]) && Sum(y) == cs
    {
      SplitAt(a, order, n, rowSums, x, n, cs, y);
      assert order[n..] == [];
    }
  }

  /** When some row has overshot or can no longer reach its target, no candidate extends the state. */
  lemma OutOfReach(a: seq<seq<int>>, v: seq<int>, ub: seq<int>, order: seq<int>, n: nat, rowSums: seq<int>,
                   x: seq<int>, d: nat, cs: int, cap: seq<int>)
    requires IsPermutation(order, n) && d <= n && |x| == n && |ub| == n && |rowSums| == |a| && |a| == |v|
    requires Tracks(a, order, rowSums, x, d, cs)
    requires |cap| == |v| && forall i :: 0 <= i < |v| ==> cap[i] == Dot(a[i], ub, order[d..])
    requires exists i :: 0 <= i < |v| && (rowSums[i] > v[i] || rowSums[i] + cap[i] < v[i])
    ensures forall y :: |y| == n && Agree(x, y, order, d) ==> !Candidate(a, v, ub, y)
  {
    forall y | |y| == n && Agree(x, y, order, d)
      ensures !Candidate(a, v, ub, y)
    {
      SplitAt(a, order, n, rowSums, x, d, cs, y);
      var i :| 0 <= i < |v| && (rowSums[i] > v[i] || rowSums[i] + cap[i] < v[i]);
      RestWithin(a[i], y, ub, order[d..]);
    }
  }

  /**
   * Column order[d] of a candidate that extends the state is at most the cap
   * MaxValue computes, and the candidate's total is at least currentSum plus
   * that column.
   */
  lemma WithinCap(a: seq<seq<int>>, v: seq<int>, ub: seq<int>, order: seq<int>, n: nat, rowSums: seq<int>,
                  x: seq<int>, d: nat, cs: int, maxX: int, ok: bool)
    requires IsPermutation(order, n) && d < n && |x| == n && |ub| == n && |rowSums| == |a| && |a| == |v|
    requires Rectangular(a, n) && Tracks(a, order, rowSums, x, d, cs)
    requires ok <==> forall i :: 0 <= i < |v| && a[i][order[d]] == 1 ==> rowSums[i] <= v[i]
    requires ok ==> maxX == ub[order[d]] || exists i :: 0 <= i < |v| && a[i][order[d]] == 1 && maxX == v[i] - rowSums[i]
    ensures forall y :: Candidate(a, v, ub, y) && Agree(x, y, order, d) ==>
              ok && y[order[d]] <= maxX && Sum(y) >= cs + y[order[d]]
  {
    var j := order[d];
    forall y | Candidate(a, v, ub, y) && Agree(x, y, order, d)
      ensures ok && y[j] <= maxX && Sum(y) >= cs + y[j]
    {
      SplitAt(a, order, n, rowSums, x, d, cs, y);
      RestAtLeast(Ones(n), y, order, d);
      forall i | 0 <= i < |v|
        ensures Dot(a[i], y, order[d..]) >= Weigh(a[i], y, j)
      {
        RestAtLeast(a[i], y, order, d);
      }
    }
  }

  /** When adding xj to column order[d] overshoots a row, no solution extends the state with that value. */
  lemma Overshoot(a: seq<seq<int>>, v: seq<int>, order: seq<int>, n: nat, rowSums: seq<int>,
                  x: seq<int>, d: nat, cs: int, xj: int)
    requires IsPermutation(order, n) && d < n && |x| == n && |rowSums| == |a| && |a| == |v| && Rectangular(a, n)
    requires Tracks(a, order, rowSums, x, d, cs)
    requires exists i :: 0 <= i < |v| && a[i][order[d]] == 1 && rowSums[i] + xj > v[i]
    ensures forall y :: |y| == n && Agree(x, y, order, d) && y[order[d]] == xj ==> !Solution(a, y, v)
  {
    forall y | |y| == n && Agree(x, y, order, d) && y[order[d]] == xj
      ensures !Solution(a, y, v)
    {
      SplitAt(a, order, n, rowSums, x, d, cs, y);
      var i :| 0 <= i < |v| && a[i][order[d]] == 1 && rowSums[i] + xj > v[i];
      RestAtLeast(a[i], y, order, d);
    }
  }

  /** The closure state of solveNonNegativeIntegerSystem's depth-first search. */
  class Searcher {
    const a: seq<seq<int>>
    const v: seq<int>
    const n: nat
    const ub: seq<int>
    const order: seq<int>
    const rowMax: seq<seq<int>>
    var rowSums: seq<int>
    var xCurrent: seq<int>
    var bestX: seq<int>
    var bestFound: bool
    var bestSum: int
    /** Every solution the search has reached, in order. */
    ghost var found: seq<seq<int>>

    ghost predicate Valid()
      reads this
    {
      |a| == |v| && Rectangular(a, n) && |ub| == n && IsPermutation(order, n)
      && |rowMax| == n + 1 && Rectangular(rowMax, |v|)
      && |rowSums| == |v| && |xCurrent| == n && |bestX| == n
      && (forall k :: 0 <= k < |found| ==> |found[k]| == n && Solution(a, found[k], v))
      && (bestFound <==> found != [])
      && (bestFound ==> bestX in found && Sum(bestX) == bestSum)
      && (forall k :: 0 <= k < |found| ==> bestSum <= Sum(found[k]))
    }

    constructor (a: seq<seq<int>>, v: seq<int>, n: nat, ub: seq<int>, order: seq<int>, rowMax: seq<seq<int>>)
      requires |a| == |v| && Rectangular(a, n) && |ub| == n && IsPermutation(order, n)
      requires |rowMax| == n + 1 && Rectangular(rowMax, |v|)
      ensures Valid() && !bestFound && found == []
      ensures this.a == a && this.v == v && this.n == n && this.ub == ub && this.order == order && this.rowMax == rowMax
      ensures rowSums == seq(|v|, _ => 0) && xCurrent == seq(n, _ => 0)
    {
      this.a := a;
      this.v := v;
      this.n := n;
      this.ub := ub;
      this.order := order;
      this.rowMax := rowMax;
      rowSums := seq(|v|, _ => 0);
      xCurrent := seq(n, _ => 0);
      bestX := seq(n, _ => 0);
      bestFound := false;
      bestSum := 0;
      found := [];
    }

    /** Every row total equals its target. */
    method Matches() returns (b: bool)
      requires Valid()
      ensures b <==> forall i :: 0 <= i < |v| ==> rowSums[i] == v[i]
    {
      var i := 0;
      while i < |v|
        invariant 0 <= i <= |v| && forall l :: 0 <= l < i ==> rowSums[l] == v[l]
      {
        if rowSums[i] != v[i] {
          return false;
        }
        i := i + 1;
      }
      return true;
    }

    /** The early feasibility check: no row overshoots, and every row can still reach its target. */
    method InReach(d: nat) returns (b: bool)
      requires Valid() && d <= n
      ensures b <==> forall i :: 0 <= i < |v| ==> rowSums[i] <= v[i] && rowSums[i] + rowMax[d][i] >= v[i]
    {
      var i := 0;
      while i < |v|
        invariant 0 <= i <= |v|
        invariant forall l :: 0 <= l < i ==> rowSums[l] <= v[l] && rowSums[l] + rowMax[d][l] >= v[l]
      {
        if rowSums[i] > v[i] {
          return false;
        }
        if rowSums[i] + rowMax[d][i] < v[i] {
          return false;
        }
        i := i + 1;
      }
      return true;
    }

    /** The largest value column j may take: its bound, cut to what every row it touches still lacks. */
    method MaxValue(j: int) returns (maxX: int, ok: bool)
      requires Valid() && 0 <= j < n
      ensures ok <==> forall i :: 0 <= i < |v| && a[i][j] == 1 ==> rowSums[i] <= v[i]
      ensures ok ==> maxX <= ub[j] && forall i :: 0 <= i < |v| && a[i][j] == 1 ==> maxX <= v[i] - rowSums[i]
      ensures ok ==> maxX == ub[j] || exists i :: 0 <= i < |v| && a[i][j] == 1 && maxX == v[i] - rowSums[i]
    {
      maxX := ub[j];
      var i := 0;
      while i < |v|
        invariant 0 <= i <= |v| && maxX <= ub[j]
        invariant forall l :: 0 <= l < i && a[l][j] == 1 ==> rowSums[l] <= v[l] && maxX <= v[l] - rowSums[l]
        invariant maxX == ub[j] || exists l :: 0 <= l < i && a[l][j] == 1 && maxX == v[l] - rowSums[l]
      {
        if a[i][j] == 1 {
          var remaining := v[i] - rowSums[i];
          if remaining < 0 {
            return maxX, false;
          }
          if remaining < maxX {
            maxX := remaining;
          }
        }
        i := i + 1;
      }
      return maxX, true;
    }

    /** Adds xj to every row column j touches; valid when none of them then overshoots. */
    method AddColumn(j: int, xj: int) returns (valid: bool)
      requires Valid() && 0 <= j < n
      modifies this
      ensures Valid() && xCurrent == old(xCurrent) && unchanged(this`bestX, this`bestFound, this`bestSum, this`found)
      ensures forall i :: 0 <= i < |v| ==> rowSums[i] == old(rowSums[i]) + (if a[i][j] == 1 then xj else 0)
      ensures valid <==> forall i :: 0 <= i < |v| && a[i][j] == 1 ==> rowSums[i] <= v[i]
    {
      valid := true;
      var i := 0;
      while i < |v|
        invariant 0 <= i <= |v| && Valid() && xCurrent == old(xCurrent)
        invariant unchanged(this`bestX, this`bestFound, this`bestSum, this`found)
        invariant forall l :: 0 <= l < i ==> rowSums[l] == old(rowSums[l]) + (if a[l][j] == 1 then xj else 0)
        invariant forall l :: i <= l < |v| ==> rowSums[l] == old(rowSums[l])
        invariant valid <==> forall l :: 0 <= l < i && a[l][j] == 1 ==> rowSums[l] <= v[l]
      {
        if a[i][j] == 1 {
          rowSums := rowSums[i := rowSums[i] + xj];
          if rowSums[i] > v[i] {
            valid := false;
          }
        }
        i := i + 1;
      }
    }

    /** Takes xj back off every row column j touches. */
    method SubColumn(j: int, xj: int)
      requires Valid() && 0 <= j < n
      modifies this
      ensures Valid() && xCurrent == old(xCurrent) && unchanged(this`bestX, this`bestFound, this`bestSum, this`found)
      ensures forall i :: 0 <= i < |v| ==> rowSums[i] == old(rowSums[i]) - (if a[i][j] == 1 then xj else 0)
    {
      var i := 0;
      while i < |v|
        invariant 0 <= i <= |v| && Valid() && xCurrent == old(xCurrent)
        invariant unchanged(this`bestX, this`bestFound, this`bestSum, this`found)
        invariant forall l :: 0 <= l < i ==> rowSums[l] == old(rowSums[l]) - (if a[l][j] == 1 then xj else 0)
        invariant forall l :: i <= l < |v| ==> rowSums[l] == old(rowSums[l])
      {
        if a[i][j] == 1 {
          rowSums := rowSums[i := rowSums[i] - xj];
        }
        i := i + 1;
      }
    }

    /** rowMax[d][i] is the most the columns at depths d.. can add to row i within their bounds. */
    ghost predicate Caps()
    {
      |a| == |v| && |ub| == n && |order| == n && |rowMax| == n + 1 && Rectangular(rowMax, |v|)
      && forall d, i :: 0 <= d <= n && 0 <= i < |v| ==> rowMax[d][i] == Dot(a[i], ub, order[d..])
    }

    /**
     * dfs(d, currentSum): every solution it reaches is recorded, the best one
     * kept, and every candidate that extends the columns assigned so far ends
     * up no better than the best.
     */
    method Dfs(d: nat, currentSum: int)
      requires Valid() && Caps() && d <= n && Tracks(a, order, rowSums, xCurrent, d, currentSum)
      modifies this
      ensures Valid() && rowSums == old(rowSums) && Agree(old(xCurrent), xCurrent, order, d)
      ensures old(bestFound) ==> bestFound && bestSum <= old(bestSum)
      ensures forall y :: Candidate(a, v, ub, y) && Agree(old(xCurrent), y, order, d) ==> bestFound && bestSum <= Sum(y)
      decreases n - d, 4
    {
      if d == n {
        Leaf(currentSum);
        return;
      }
      var ok := InReach(d);
      if !ok {
        OutOfReach(a, v, ub, order, n, rowSums, xCurrent, d, currentSum, rowMax[d]);
        return;
      }
      Branch(d, currentSum);
    }

    /** dfs at full depth: a state whose rows all hit their targets is recorded, and kept when it beats the best. */
    method Leaf(currentSum: int)
      requires Valid() && Tracks(a, order, rowSums, xCurrent, n, currentSum)
      modifies this
      ensures Valid() && rowSums == old(rowSums) && xCurrent == old(xCurrent)
      ensures old(bestFound) ==> bestFound && bestSum <= old(bestSum)
      ensures forall y :: Candidate(a, v, ub, y) && Agree(xCurrent, y, order, n) ==> bestFound && bestSum <= Sum(y)
    {
      var matched := Matches();
      if matched {
        TracksSolution(a, v, order, n, rowSums, xCurrent, currentSum);
        found := found + [xCurrent];
        if !bestFound || currentSum < bestSum {
          bestFound := true;
          bestSum := currentSum;
          bestX := xCurrent;
        }
      }
      assert forall y :: Candidate(a, v, ub, y) && Agree(xCurrent, y, order, n) ==> bestFound && bestSum <= Sum(y) by {
        AtFullDepth(a, v, order, n, rowSums, xCurrent, currentSum);
      }
    }

    /** The body of dfs below full depth: try every value of column order[d] from 0 to its cap. */
    method Branch(d: nat, currentSum: int)
      requires Valid() && Caps() && d < n && Tracks(a, order, rowSums, xCurrent, d, currentSum)
      modifies this
      ensures Valid() && rowSums == old(rowSums) && Agree(old(xCurrent), xCurrent, order, d)
      ensures old(bestFound) ==> bestFound && bestSum <= old(bestSum)
      ensures forall y :: Candidate(a, v, ub, y) && Agree(old(xCurrent), y, order, d) ==> bestFound && bestSum <= Sum(y)
      decreases n - d, 3
    {
      var j := order[d];
      var maxX, ok := MaxValue(j);
      WithinCap(a, v, ub, order, n, rowSums, xCurrent, d, currentSum, maxX, ok);
      if !ok {
        return;
      }
      ghost var x0 := xCurrent;
      var xj := 0;
      while xj <= maxX
        invariant Valid() && rowSums == old(rowSums) && Agree(old(xCurrent), xCurrent, order, d)
        invariant Tracks(a, order, rowSums, xCurrent, d, currentSum)
        invariant old(bestFound) ==> bestFound && bestSum <= old(bestSum)
        invariant forall y :: Candidate(a, v, ub, y) && Agree(x0, y, order, d) && y[j] < xj ==> bestFound && bestSum <= Sum(y)
        decreases maxX - xj
      {
        var newSum := currentSum + xj;
        if !(bestFound && newSum >= bestSum) {
          Try(d, currentSum, xj);
        }
        xj := xj + 1;
      }
    }

    /** One value xj of column order[d]: add its column, recurse when no row overshoots, and take it back off. */
    method Try(d: nat, currentSum: int, xj: nat)
      requires Valid() && Caps() && d < n && Tracks(a, order, rowSums, xCurrent, d, currentSum)
      modifies this
      ensures Valid() && rowSums == old(rowSums) && Agree(old(xCurrent), xCurrent, order, d)
      ensures Tracks(a, order, rowSums, xCurrent, d, currentSum)
      ensures old(bestFound) ==> bestFound && bestSum <= old(bestSum)
      ensures forall y :: Candidate(a, v, ub, y) && Agree(old(xCurrent), y, order, d) && y[order[d]] == xj ==> bestFound && bestSum <= Sum(y)
      decreases n - d, 2
    {
      var j := order[d];
      var valid := true;
      if xj > 0 {
        valid := AddColumn(j, xj);
      }
      Explore(d, currentSum, xj, valid, old(rowSums));
      if xj > 0 {
        SubColumn(j, xj);
      }
      assert rowSums == old(rowSums);
      StepAgree(old(xCurrent), xCurrent, order, n, d);
      TracksFrame(a, order, rowSums, old(xCurrent), xCurrent, d, currentSum);
    }

    /** With column order[d] already added at xj: search below when no row overshot. */
    method Explore(d: nat, currentSum: int, xj: nat, valid: bool, ghost rowSums0: seq<int>)
      requires Valid() && Caps() && d < n && |rowSums0| == |v| && Tracks(a, order, rowSums0, xCurrent, d, currentSum)
      requires forall i :: 0 <= i < |v| ==> rowSums[i] == rowSums0[i] + (if a[i][order[d]] == 1 then xj else 0)
      requires !valid ==> exists i :: 0 <= i < |v| && a[i][order[d]] == 1 && rowSums[i] > v[i]
      modifies this
      ensures Valid() && rowSums == old(rowSums) && Agree(old(xCurrent), xCurrent, order, d)
      ensures old(bestFound) ==> bestFound && bestSum <= old(bestSum)
      ensures forall y :: Candidate(a, v, ub, y) && Agree(old(xCurrent), y, order, d) && y[order[d]] == xj ==> bestFound && bestSum <= Sum(y)
      decreases n - d, 1
    {
      if valid {
        TracksStep(a, order, n, rowSums0, rowSums, xCurrent, d, currentSum, xj);
        Descend(d, currentSum + xj, xj);
      } else {
        Overshoot(a, v, order, n, rowSums0, xCurrent, d, currentSum, xj);
      }
    }

    /** Assigns xj to column order[d] and searches the depths below. */
    method Descend(d: nat, newSum: int, xj: nat)
      requires Valid() && Caps() && d < n && Tracks(a, order, rowSums, xCurrent[order[d] := xj], d + 1, newSum)
      modifies this
      ensures Valid() && rowSums == old(rowSums) && Agree(old(xCurrent)[order[d] := xj], xCurrent, order, d + 1)
      ensures old(bestFound) ==> bestFound && bestSum <= old(bestSum)
      ensures forall y :: Candidate(a, v, ub, y) && Agree(old(xCurrent), y, order, d) && y[order[d]] == xj ==> bestFound && bestSum <= Sum(y)
      decreases n - d, 0
    {
      AgreeSteps(xCurrent, order, n, d, xj);
      xCurrent := xCurrent[order[d] := xj];
      Dfs(d + 1, newSum);
    }
  }

  lemma AgreeSteps(x: seq<int>, order: seq<int>, n: nat, d: nat, xj: int)
    requires IsPermutation(order, n) && d < n && |x| == n
    ensures forall y :: |y| == n && Agree(x, y, order, d) && y[order[d]] == xj ==> Agree(x[order[d] := xj], y, order, d + 1)
  {
    forall y | |y| == n && Agree(x, y, order, d) && y[order[d]] == xj
      ensures Agree(x[order[d] := xj], y, order, d + 1)
    {
      AgreeStep(x, y, order, n, d);
    }
  }

  /** What the recursive call may change lies at depths d and below, so the prefix is kept. */
  lemma StepAgree(x0: seq<int>, x1: seq<int>, order: seq<int>, n: nat, d: nat)
    requires IsPermutation(order, n) && d < n && |x0| == n
    requires |x1| == n && forall k :: 0 <= k < d + 1 && 0 <= order[k] < n && order[k] != order[d] ==> x1[order[k]] == x0[order[k]]
    ensures Agree(x0, x1, order, d)
  {
    assert forall k :: 0 <= k < d ==> order[k] != order[d];
  }
  // ------------------------------------------------------------ from every solution to a candidate

  /** y with the columns that touch no row set to 0. */
  ghost function Trim(a: seq<seq<int>>, y: seq<int>): (z: seq<int>)
    ensures |z| == |y|
  {
    seq(|y|, j requires 0 <= j < |y| => if exists i :: 0 <= i < |a| && Touches(a, i, j) then y[j] else 0)
  }

  /** Dot only sees each column's contribution. */
  lemma {:induction false} DotSameWeigh(w: seq<int>, x: seq<int>, y: seq<int>, js: seq<int>)
    requires forall k :: 0 <= k < |js| ==> Weigh(w, x, js[k]) == Weigh(w, y, js[k])
    ensures Dot(w, x, js) == Dot(w, y, js)
  {
    if js != [] {
      var js' := js[..|js| - 1];
      assert forall k :: 0 <= k < |js'| ==> js'[k] == js[k];
      DotSameWeigh(w, x, y, js');
    }
  }

  lemma {:induction false} SumLe(x: seq<int>, y: seq<int>)
    requires |x| == |y| && forall j :: 0 <= j < |x| ==> x[j] <= y[j]
    ensures Sum(x) <= Sum(y)
  {
    if x != [] {
      SumLe(x[..|x| - 1], y[..|y| - 1]);
    }
  }

  /**
   * Every solution is matched by a candidate the search enumerates with no
   * larger total: the columns touching no row can drop to 0, and every other
   * column is already within its bound.
   */
  lemma TrimCandidate(a: seq<seq<int>>, v: seq<int>, n: nat, ub: seq<int>, y: seq<int>)
    requires |a| == |v| && Rectangular(a, n) && |y| == n && Solution(a, y, v)
    requires |ub| == n && forall j :: 0 <= j < n ==> ub[j] == Ub(a, v, j)
    ensures Candidate(a, v, ub, Trim(a, y)) && Sum(Trim(a, y)) <= Sum(y)
  {
    var z := Trim(a, y);
    forall i | 0 <= i < |v|
      ensures v[i] >= 0 && Dot(a[i], z, Iota(n)) == v[i]
    {
      DotNonNegative(a[i], y, Iota(n));
      forall k | 0 <= k < n
        ensures Weigh(a[i], z, Iota(n)[k]) == Weigh(a[i], y, Iota(n)[k])
      {
        if a[i][k] == 1 {
          assert Touches(a, i, k);
        }
      }
      DotSameWeigh(a[i], z, y, Iota(n));
    }
    forall j | 0 <= j < n
      ensures 0 <= z[j] <= ub[j] && z[j] <= y[j]
    {
      UbIsMin(a, v, j);
      if exists i :: 0 <= i < |a| && Touches(a, i, j) {
        var i :| 0 <= i < |a| && Touches(a, i, j) && v[i] == Ub(a, v, j);
        SolutionWithinUb(a, v, y, j, i);
      }
    }
    SumLe(z, y);
  }

  // ------------------------------------------------------------ the two entry points

  /** Steps 1 to 3 of solveNonNegativeIntegerSystem: the bounds, the search order and the remaining capacities. */
  method Prepare(a: seq<seq<int>>, v: seq<int>, n: nat) returns (ub: seq<int>, order: seq<int>, rowMax: seq<seq<int>>)
    requires |a| == |v| && Rectangular(a, n)
    ensures |ub| == n && forall j :: 0 <= j < n ==> ub[j] == Ub(a, v, j)
    ensures IsPermutation(order, n) && order == Idxs(SortVars(seq(n, j requires 0 <= j < n => VarInfo(j, ub[j], Degree(a, j, |a|)))))
    ensures |rowMax| == n + 1 && Rectangular(rowMax, |v|)
    ensures forall d, i :: 0 <= d <= n && 0 <= i < |a| ==> rowMax[d][i] == Dot(a[i], ub, order[d..])
  {
    ub := UpperBounds(a, v, n);
    var vars := VarInfos(a, ub, n);
    assert vars == seq(n, j requires 0 <= j < n => VarInfo(j, ub[j], Degree(a, j, |a|)));
    var sorted := SortVars(vars);
    SortVarsIdxs(vars);
    assert Idxs(vars) == Iota(n);
    order := OrderOf(sorted);
    PermutationOf(order, n);
    rowMax := RowMaxRemaining(a, ub, order);
  }

  /**
   * solveNonNegativeIntegerSystem: the shape errors, then bounds, order and
   * capacities, then the search. found is every solution the search reached.
   */
  method SolveSystem(a: seq<seq<int>>, v: seq<int>) returns (r: Result<seq<int>>, ghost found: seq<seq<int>>)
    ensures ShapeError(a, v).Some? ==> r == Err(ShapeError(a, v).value)
    ensures ShapeError(a, v).None? ==> (r.Err? <==> found == []) && (r.Err? ==> r.error == "no non-negative integer solution")
    ensures forall k :: 0 <= k < |found| ==> Solution(a, found[k], v)
    ensures r.Ok? ==> Solution(a, r.value, v) && |r.value| == |a[0]| && r.value in found
    ensures r.Ok? ==> forall k :: 0 <= k < |found| ==> Sum(r.value) <= Sum(found[k])
    ensures ShapeError(a, v).None? ==> forall y :: |y| == |a[0]| && Solution(a, y, v) ==> r.Ok? && Sum(r.value) <= Sum(y)
  {
    found := [];
    var e := CheckShape(a, v);
    if e.Some? {
      return Err(e.value), found;
    }
    ShapeErrorNone(a, v);
    var n := |a[0]|;
    var ub, order, rowMax := Prepare(a, v, n);
    r, found := Search(a, v, n, ub, order, rowMax);
    forall y | |y| == n && Solution(a, y, v)
      ensures r.Ok? && Sum(r.value) <= Sum(y)
    {
      TrimCandidate(a, v, n, ub, y);
    }
  }

  /** Steps 4 and 5 of solveNonNegativeIntegerSystem: the search from depth 0, and its verdict. */
  method Search(a: seq<seq<int>>, v: seq<int>, n: nat, ub: seq<int>, order: seq<int>, rowMax: seq<seq<int>>)
    returns (r: Result<seq<int>>, ghost found: seq<seq<int>>)
    requires |a| == |v| && Rectangular(a, n) && |ub| == n && IsPermutation(order, n)
    requires |rowMax| == n + 1 && Rectangular(rowMax, |v|)
    requires forall d, i :: 0 <= d <= n && 0 <= i < |v| ==> rowMax[d][i] == Dot(a[i], ub, order[d..])
    ensures (r.Err? <==> found == []) && (r.Err? ==> r.error == "no non-negative integer solution")
    ensures forall k :: 0 <= k < |found| ==> Solution(a, found[k], v)
    ensures r.Ok? ==> Solution(a, r.value, v) && |r.value| == n && r.value in found
    ensures r.Ok? ==> forall k :: 0 <= k < |found| ==> Sum(r.value) <= Sum(found[k])
    ensures forall y :: Candidate(a, v, ub, y) ==> r.Ok? && Sum(r.value) <= Sum(y)
  {
    var search := new Searcher(a, v, n, ub, order, rowMax);
    assert order[..0] == [];
    search.Dfs(0, 0);
    found := search.found;
    if !search.bestFound {
      return Err("no non-negative integer solution"), found;
    }
    return Ok(search.bestX), found;
  }

  /**
   * minButtonPressesVoltage with the target voltages as a parameter: the
   * total number of presses of the solution the search returns.
   */
  method MinButtonPressesVoltage(buttons: seq<Button>, voltage: seq<int>) returns (r: Result<int>, ghost presses: seq<int>)
    ensures r.Ok? ==> |presses| == |buttons| && Solution(Matrix(buttons, |voltage|), presses, voltage) && r.value == Sum(presses)
    ensures |voltage| == 0 ==> r == Err("no integer solution for equation: empty system")
    ensures r.Err? ==> exists e :: r.error == "no integer solution for equation: " + e
    ensures |voltage| > 0 ==> forall y :: |y| == |buttons| && Solution(Matrix(buttons, |voltage|), y, voltage) ==> r.Ok? && r.value <= Sum(y)
  {
    var a, v := BuildSystem(buttons, voltage);
    if |voltage| > 0 {
      ShapeErrorNone(a, v);
    }
    var x, found := SolveSystem(a, v);
    if x.Err? {
      return Err("no integer solution for equation: " + x.error), [];
    }
    var total := Total(x.value);
    return Ok(total), x.value;
  }

  /** The loop of minButtonPressesVoltage that adds up the presses. */
  method Total(x: seq<int>) returns (total: int)
    ensures total == Sum(x)
  {
    total := 0;
    var j := 0;
    while j < |x|
      invariant 0 <= j <= |x| && total == Sum(x[..j])
    {
      assert x[..j + 1][..j] == x[..j];
      total := total + x[j];
      j := j + 1;
    }
    assert x[..j] == x;
  }
}
