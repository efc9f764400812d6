/**
 * Gift-shop product IDs: a span of IDs is given by its first and last ID
 * written in decimal, and an ID is invalid when its digits are one block
 * repeated. Part one only counts a block written twice ("doubled" IDs), part
 * two a block written two or more times.
 */
module InvalidIds {
  import opened Wrappers
  import opened Decimal
  import GoMath

  /** A span of IDs, both ends written as decimal text. */
  datatype Span = Span(start: string, end: string)

  /** A non-empty digit string: what IntToArrRune produces for a non-negative number. */
  predicate IsNumeral(s: string)
  { |s| >= 1 && IsDigits(s) }

  /** ArrRuneToInt: strconv.Atoi's syntax; None where the source panics. */
  function ArrRuneToInt(r: string): Option<int>
  { GoMath.ParseInt(r) }

  // ---------------------------------------------------------------------------
  // StripPadding
  // ---------------------------------------------------------------------------

  /** StripPadding: read the text as an integer and write it back; None where Atoi fails and the source panics. */
  function StripPadding(s: string): (r: Option<string>)
    ensures r.Some? <==> GoMath.Atoi(s).Ok?
  {
    match GoMath.Atoi(s)
    case Ok(i) => Some(GoMath.Itoa(i))
    case Err(_) => None
  }

  /**
   * On a digit string StripPadding removes the leading zeros, keeping "0" for
   * an all-zero string; the result is canonical decimal.
   */
  lemma StripPaddingDigits(s: string)
    requires IsNumeral(s) && DecVal(s) <= GoMath.MaxInt64
    ensures StripPadding(s) == Some(if StripZeros(s) == [] then "0" else StripZeros(s))
    ensures Canonical(StripPadding(s).value)
  {
    GoMath.ParseDigits(s);
    StripCanonical(s);
    DecStrCanonical(DecVal(s));
  }

  /** StripPadding is idempotent. */
  lemma StripPaddingTwice(s: string)
    requires StripPadding(s).Some?
    ensures StripPadding(StripPadding(s).value) == StripPadding(s)
  {
    var i := GoMath.Atoi(s).value;
    GoMath.AtoiItoa(i);
  }

  // ---------------------------------------------------------------------------
  // Repeated blocks
  // ---------------------------------------------------------------------------

  /** Every character equals the one at the same offset in the first `size` characters. */
  predicate RepeatsWith(r: string, size: int)
    requires size >= 1
  { forall i :: 0 <= i < |r| ==> r[i] == r[i % size] }

  /** The block c written k times. */
  function Repeat(c: string, k: nat): (r: string)
    ensures |r| == k * |c|
  { if k == 0 then [] else Repeat(c, k - 1) + c }

  lemma MulSign(e: int, m: int)
    requires m >= 1
    ensures e >= 1 ==> e * m >= m
    ensures e <= -1 ==> e * m <= -m
  {
  }

  /** Euclidean division is unique: q*m + j with 0 <= j < m divides as (q, j). */
  lemma DivUnique(x: int, m: int, q: int, j: int)
    requires m >= 1 && 0 <= j < m && x == q * m + j
    ensures x / m == q && x % m == j
  {
    var d := x / m;
    var r := x % m;
    assert (d - q) * m == j - r;
    MulSign(d - q, m);
  }

  /** The i-th character of a repetition is the (i mod |c|)-th character of the block. */
  lemma {:induction false} RepeatAt(c: string, k: nat, i: int)
    requires |c| >= 1 && 0 <= i < k * |c|
    ensures Repeat(c, k)[i] == c[i % |c|]
  {
    var m := |c|;
    var p := Repeat(c, k - 1);
    assert Repeat(c, k) == p + c;
    if i < (k - 1) * m {
      RepeatAt(c, k - 1, i);
    } else {
      DivUnique(i, m, k - 1, i - (k - 1) * m);
    }
  }

  /** A string that repeats with period `size`, a divisor of its length, is its first block repeated. */
  lemma RepeatsWithBlock(r: string, size: int)
    requires 1 <= size <= |r| && |r| % size == 0 && RepeatsWith(r, size)
    ensures r == Repeat(r[..size], |r| / size)
  {
    var k := |r| / size;
    var t := Repeat(r[..size], k);
    assert |t| == |r|;
    forall i | 0 <= i < |r|
      ensures t[i] == r[i]
    {
      RepeatAt(r[..size], k, i);
    }
  }

  /** A block written k times repeats with period |block|, which divides the length. */
  lemma BlockRepeatsWith(c: string, k: nat)
    requires |c| >= 1
    ensures |Repeat(c, k)| % |c| == 0
    ensures RepeatsWith(Repeat(c, k), |c|)
  {
    var r := Repeat(c, k);
    DivUnique(|r|, |c|, k, 0);
    forall i | 0 <= i < |r|
      ensures r[i] == r[i % |c|]
    {
      RepeatAt(c, k, i);
      var j := i % |c|;
      DivUnique(j, |c|, 0, j);
      RepeatAt(c, k, j);
    }
  }

  /** The characters before position `size` repeat trivially. */
  lemma FirstBlock(r: string, size: int)
    requires size >= 1
    ensures forall k :: 0 <= k < |r| && k < size ==> r[k] == r[k % size]
  {
    forall k | 0 <= k < |r| && k < size
      ensures r[k] == r[k % size]
    {
      DivUnique(k, size, 0, k);
    }
  }

  /** isRepeatedPattern: r is r[0:size] repeated, checked from position size on. */
  method IsRepeatedPattern(r: string, size: int) returns (b: bool)
    requires size >= 1
    ensures b <==> RepeatsWith(r, size)
  {
    var i := size;
    while i < |r|
      invariant size <= i
      invariant forall k :: size <= k < i && k < |r| ==> r[k] == r[k % size]
    {
      if r[i] != r[i % size] {
        return false;
      }
      i := i + 1;
    }
    FirstBlock(r, size);
    return true;
  }

  /** Every character is '0' and there is at least one. */
  predicate AllZeros(r: string)
  { |r| > 0 && forall i :: 0 <= i < |r| ==> r[i] == '0' }

  /** isAllZeros. */
  method IsAllZeros(r: string) returns (b: bool)
    ensures b <==> AllZeros(r)
  {
    var i := 0;
    while i < |r|
      invariant 0 <= i <= |r|
      invariant forall k :: 0 <= k < i ==> r[k] == '0'
    {
      if r[i] != '0' {
        return false;
      }
      i := i + 1;
    }
    return |r| > 0;
  }

  /** The chunk sizes IsInvalidId accepts: a proper divisor of the length, at most half of it. */
  ghost predicate Invalid(r: string)
  {
    |r| >= 2 && !AllZeros(r)
    && exists size :: 1 <= size <= |r| / 2 && |r| % size == 0 && RepeatsWith(r, size)
  }

  /** IsInvalidId: at least two characters, not all zeros, and some chunk size repeats to form the whole. */
  method IsInvalidId(r: string) returns (b: bool)
    ensures b <==> Invalid(r)
  {
    var n := |r|;
    if n < 2 {
      return false;
    }
    var zeros := IsAllZeros(r);
    if zeros {
      return false;
    }
    var size := 1;
    while size <= n / 2
      invariant 1 <= size
      invariant forall s :: 1 <= s < size && n % s == 0 ==> !RepeatsWith(r, s)
    {
      if n % size == 0 {
        var repeats := n / size;
        if repeats >= 2 {
          var rep := IsRepeatedPattern(r, size);
          if rep {
            return true;
          }
        } else {
          assert false;
        }
      }
      size := size + 1;
    }
    return false;
  }

  /** r is some block of at least one character written at least twice. */
  ghost predicate IsRepetition(r: string)
  { exists c, k :: |c| >= 1 && k >= 2 && r == Repeat(c, k) }

  lemma InvalidRepeats(r: string)
    requires Invalid(r)
    ensures IsRepetition(r)
  {
    var size :| 1 <= size <= |r| / 2 && |r| % size == 0 && RepeatsWith(r, size);
    RepeatsWithBlock(r, size);
    var k := |r| / size;
    assert |r| == k * size;
    MulSign(k - 1, size);
  }

  lemma RepetitionInvalid(r: string)
    requires IsRepetition(r) && !AllZeros(r)
    ensures Invalid(r)
  {
    var c, k :| |c| >= 1 && k >= 2 && r == Repeat(c, k);
    BlockRepeatsWith(c, k);
    assert |r| >= 2 * |c|;
    assert 1 <= |c| <= |r| / 2;
  }

  /** The intended meaning: an invalid ID is some block written at least twice, and not all zeros. */
  lemma InvalidIsRepetition(r: string)
    ensures Invalid(r) <==> !AllZeros(r) && IsRepetition(r)
  {
    if Invalid(r) {
      InvalidRepeats(r);
    }
    if !AllZeros(r) && IsRepetition(r) {
      RepetitionInvalid(r);
    }
  }

  // ---------------------------------------------------------------------------
  // Part two: CheckSpan2 and its clean-up passes
  // ---------------------------------------------------------------------------

  /** Every entry is a non-empty digit string. */
  predicate Numerals(reps: seq<string>)
  { forall k :: 0 <= k < |reps| ==> IsNumeral(reps[k]) }

  /** The values of the entries increase strictly along the list. */
  predicate Ascending(reps: seq<string>)
    requires Numerals(reps)
  { forall i, j :: 0 <= i < j < |reps| ==> DecVal(reps[i]) < DecVal(reps[j]) }

  /** The values of the entries. */
  function Vals(reps: seq<string>): set<int>
    requires Numerals(reps)
  { set k | 0 <= k < |reps| :: DecVal(reps[k]) }

  lemma ValsAppend(p: seq<string>, x: string)
    requires Numerals(p) && IsNumeral(x)
    ensures Numerals(p + [x]) && Vals(p + [x]) == Vals(p) + {DecVal(x)}
  {
    var q := p + [x];
    forall y | y in Vals(q) ensures y in Vals(p) + {DecVal(x)} {
      var i :| 0 <= i < |q| && y == DecVal(q[i]);
      if i < |p| { assert q[i] == p[i]; }
    }
    forall y | y in Vals(p) ensures y in Vals(q) {
      var i :| 0 <= i < |p| && y == DecVal(p[i]);
      assert p[i] == q[i];
    }
    assert q[|p|] == x;
    assert DecVal(q[|p|]) in Vals(q);
  }

  /** The invalid IDs n with lo <= n < top, in increasing order, written in decimal. */
  ghost function InvalidsBelow(lo: nat, top: nat): seq<string>
  {
    if top <= lo then []
    else InvalidsBelow(lo, top - 1) + (if Invalid(DecStr(top - 1)) then [DecStr(top - 1)] else [])
  }

  /** The invalid IDs of the span [lo, hi]. */
  ghost function InvalidsIn(lo: nat, hi: nat): seq<string>
  { InvalidsBelow(lo, hi + 1) }

  /** An invalid ID has at least two digits, so it is at least 10. */
  lemma InvalidAtLeastTen(m: nat)
    requires Invalid(DecStr(m))
    ensures m >= 10
  {
    DecStrBounds(m);
    Pow10Mono(1, |DecStr(m)| - 1);
  }

  /** x is a canonical decimal numeral of an invalid ID in [lo, top). */
  ghost predicate Listed(x: string, lo: nat, top: nat)
  { IsNumeral(x) && lo <= DecVal(x) < top && DecVal(x) >= 10 && x == DecStr(DecVal(x)) && Invalid(x) }

  lemma {:induction false} InvalidsBelowListed(lo: nat, top: nat)
    ensures forall k :: 0 <= k < |InvalidsBelow(lo, top)| ==> Listed(InvalidsBelow(lo, top)[k], lo, top)
  {
    if top > lo {
      var p := InvalidsBelow(lo, top - 1);
      InvalidsBelowListed(lo, top - 1);
      var m := top - 1;
      if Invalid(DecStr(m)) {
        DecValStr(m);
        InvalidAtLeastTen(m);
      }
      var r := InvalidsBelow(lo, top);
      forall k | 0 <= k < |r|
        ensures Listed(r[k], lo, top)
      {
        if k < |p| {
          assert r[k] == p[k] && Listed(p[k], lo, top - 1);
        }
      }
    }
  }

  lemma {:induction false} InvalidsBelowAscending(lo: nat, top: nat)
    ensures Numerals(InvalidsBelow(lo, top)) && Ascending(InvalidsBelow(lo, top))
  {
    if top > lo {
      var p := InvalidsBelow(lo, top - 1);
      InvalidsBelowAscending(lo, top - 1);
      InvalidsBelowListed(lo, top - 1);
      var m := top - 1;
      var r := InvalidsBelow(lo, top);
      if Invalid(DecStr(m)) {
        DecValStr(m);
        assert r == p + [DecStr(m)];
        forall i, j | 0 <= i < j < |r|
          ensures DecVal(r[i]) < DecVal(r[j])
        {
          assert Listed(p[i], lo, top - 1);
          if j < |p| {
            assert r[j] == p[j];
          }
        }
      }
    }
  }

  /** Exactly the canonical, invalid IDs of [lo, top) occur in InvalidsBelow(lo, top). */
  lemma {:induction false} InvalidsBelowHas(lo: nat, top: nat, m: nat)
    requires lo <= m < top && Invalid(DecStr(m))
    ensures DecStr(m) in InvalidsBelow(lo, top)
  {
    if m < top - 1 {
      InvalidsBelowHas(lo, top - 1, m);
    }
  }

  /**
   * CheckSpan2's result is exactly the invalid IDs of the span: each lies in
   * [lo, hi], is at least 10 and is written canonically; values strictly
   * increase, so there are no duplicates; and every invalid ID of the span occurs.
   */
  lemma InvalidsInMeans(lo: nat, hi: nat)
    ensures Numerals(InvalidsIn(lo, hi)) && Ascending(InvalidsIn(lo, hi))
    ensures forall x :: x in InvalidsIn(lo, hi) ==>
              Canonical(x) && lo <= DecVal(x) <= hi && DecVal(x) >= 10 && Invalid(x)
    ensures forall m: nat :: lo <= m <= hi && Invalid(DecStr(m)) ==> DecStr(m) in InvalidsIn(lo, hi)
  {
    InvalidsBelowAscending(lo, hi + 1);
    forall x | x in InvalidsIn(lo, hi)
      ensures Canonical(x) && lo <= DecVal(x) <= hi && DecVal(x) >= 10 && Invalid(x)
    {
      var k :| 0 <= k < |InvalidsIn(lo, hi)| && InvalidsIn(lo, hi)[k] == x;
      InvalidsBelowListed(lo, hi + 1);
      assert Listed(x, lo, hi + 1);
      DecStrCanonical(DecVal(x));
    }
    forall m: nat | lo <= m <= hi && Invalid(DecStr(m))
      ensures DecStr(m) in InvalidsIn(lo, hi)
    {
      InvalidsBelowHas(lo, hi + 1, m);
    }
  }

  /** The entries whose value lies in [sNum, eNum] and is at least 10, in order. */
  function Limited(reps: seq<string>, sNum: int, eNum: int): seq<string>
    requires Numerals(reps)
  {
    if reps == [] then []
    else
      var n := |reps| - 1;
      var id := DecVal(reps[n]);
      Limited(reps[..n], sNum, eNum) + (if id < sNum || id > eNum || id < 10 then [] else [reps[n]])
  }

  /** Limited keeps exactly the entries in range. */
  lemma {:induction false} LimitedMeans(reps: seq<string>, sNum: int, eNum: int)
    requires Numerals(reps)
    ensures forall x :: x in Limited(reps, sNum, eNum) <==>
              x in reps && IsDigits(x) && sNum <= DecVal(x) <= eNum && DecVal(x) >= 10
  {
    if reps != [] {
      var n := |reps| - 1;
      var p := reps[..n];
      LimitedMeans(p, sNum, eNum);
      assert reps == p + [reps[n]];
      forall x ensures x in reps <==> x in p || x == reps[n] { }
    }
  }

  /** A list that is all in range is left as it was. */
  lemma {:induction false} LimitedAll(reps: seq<string>, sNum: int, eNum: int)
    requires Numerals(reps)
    requires forall k :: 0 <= k < |reps| ==> sNum <= DecVal(reps[k]) <= eNum && DecVal(reps[k]) >= 10
    ensures Limited(reps, sNum, eNum) == reps
  {
    if reps != [] {
      var n := |reps| - 1;
      LimitedAll(reps[..n], sNum, eNum);
      assert reps == reps[..n] + [reps[n]];
    }
  }

  /** limitMinMax: drop the entries outside [sNum, eNum] and those below 10. */
  method LimitMinMax(reps: seq<string>, sNum: int, eNum: int) returns (result: seq<string>)
    requires Numerals(reps)
    ensures result == Limited(reps, sNum, eNum)
  {
    result := [];
    var k := 0;
    while k < |reps|
      invariant 0 <= k <= |reps|
      invariant result == Limited(reps[..k], sNum, eNum)
    {
      var r := reps[k];
      GoMath.ParseDigits(r);
      var id := ArrRuneToInt(r).value;
      assert reps[..k + 1][..k] == reps[..k];
      if !(id < sNum || id > eNum || id < 10) {
        result := result + [r];
      }
      k := k + 1;
    }
    assert reps[..k] == reps;
  }

  /** The first entry of every value, in order. */
  function Deduped(reps: seq<string>): seq<string>
    requires Numerals(reps)
  {
    if reps == [] then []
    else
      var n := |reps| - 1;
      Deduped(reps[..n]) + (if DecVal(reps[n]) in Vals(reps[..n]) then [] else [reps[n]])
  }

  /** Deduped keeps one entry per value and loses no value. */
  lemma {:induction false} DedupedMeans(reps: seq<string>)
    requires Numerals(reps)
    ensures Numerals(Deduped(reps)) && Vals(Deduped(reps)) == Vals(reps)
    ensures forall x :: x in Deduped(reps) ==> x in reps
    ensures forall i, j :: 0 <= i < j < |Deduped(reps)| ==> DecVal(Deduped(reps)[i]) != DecVal(Deduped(reps)[j])
  {
    if reps != [] {
      var n := |reps| - 1;
      var p := reps[..n];
      DedupedMeans(p);
      assert reps == p + [reps[n]];
      var v := DecVal(reps[n]);
      ValsAppend(p, reps[n]);
      var d := Deduped(p);
      if v !in Vals(p) {
        var d' := d + [reps[n]];
        assert Deduped(reps) == d';
        ValsAppend(d, reps[n]);
        forall i | 0 <= i < |d|
          ensures DecVal(d'[i]) != v
        {
          assert d'[i] == d[i];
          assert DecVal(d[i]) in Vals(d);
        }
      } else {
        assert Deduped(reps) == d;
      }
    }
  }

  /** A list whose values strictly increase has no duplicate value to drop. */
  lemma {:induction false} DedupedAscending(reps: seq<string>)
    requires Numerals(reps) && Ascending(reps)
    ensures Deduped(reps) == reps
  {
    if reps != [] {
      var n := |reps| - 1;
      DedupedAscending(reps[..n]);
      assert DecVal(reps[n]) !in Vals(reps[..n]);
      assert reps == reps[..n] + [reps[n]];
    }
  }

  /** dedupeRuneSlices: keep the first entry of each value, remembering the values already seen. */
  method DedupeRuneSlices(reps: seq<string>) returns (result: seq<string>)
    requires Numerals(reps)
    ensures result == Deduped(reps)
  {
    var seen: set<int> := {};
    result := [];
    var k := 0;
    while k < |reps|
      invariant 0 <= k <= |reps|
      invariant result == Deduped(reps[..k])
      invariant seen == Vals(reps[..k])
    {
      var r := reps[k];
      GoMath.ParseDigits(r);
      var id := ArrRuneToInt(r).value;
      assert reps[..k + 1][..k] == reps[..k];
      ValsAppend(reps[..k], r);
      assert reps[..k + 1] == reps[..k] + [r];
      if id !in seen {
        seen := seen + {id};
        result := result + [r];
      }
      k := k + 1;
    }
    assert reps[..k] == reps;
  }

  /** Limiting the invalid IDs of a span to the span, then dropping duplicates, changes nothing. */
  lemma CleanupKeeps(lo: nat, hi: nat)
    ensures Numerals(InvalidsIn(lo, hi))
    ensures Limited(InvalidsIn(lo, hi), lo, hi) == InvalidsIn(lo, hi)
    ensures Deduped(InvalidsIn(lo, hi)) == InvalidsIn(lo, hi)
  {
    var r := InvalidsIn(lo, hi);
    InvalidsBelowAscending(lo, hi + 1);
    assert forall k :: 0 <= k < |r| ==> lo <= DecVal(r[k]) <= hi && DecVal(r[k]) >= 10 by {
      InvalidsBelowListed(lo, hi + 1);
    }
    LimitedAll(r, lo, hi);
    DedupedAscending(r);
  }

  /**
   * CheckSpan2: test every ID of the span with IsInvalidId, then limit to the
   * span and to two digits, drop duplicates and sort; the result is the
   * invalid IDs of the span in increasing order.
   */
  method CheckSpan2(s: Span) returns (r: seq<string>)
    requires Canonical(s.start) && Canonical(s.end)
    ensures r == InvalidsIn(DecVal(s.start), DecVal(s.end))
  {
    var lo, hi := DecVal(s.start), DecVal(s.end);
    GoMath.ParseDigits(s.start);
    GoMath.ParseDigits(s.end);
    var possibleReps: seq<string> := [];
    var start := ArrRuneToInt(s.start).value;
    var end := ArrRuneToInt(s.end).value;
    while start <= end
      invariant lo <= start && (lo <= hi ==> start <= hi + 1) && (lo > hi ==> start == lo)
      invariant possibleReps == InvalidsBelow(lo, start)
    {
      var id := GoMath.Itoa(start);
      assert id == DecStr(start);
      var bad := IsInvalidId(id);
      if bad {
        possibleReps := possibleReps + [GoMath.Itoa(start)];
      }
      assert possibleReps == InvalidsBelow(lo, start + 1);
      start := start + 1;
    }
    assert possibleReps == InvalidsIn(lo, hi);
    var sNum := ArrRuneToInt(s.start).value;
    var eNum := ArrRuneToInt(s.end).value;
    CleanupKeeps(lo, hi);
    var limited := LimitMinMax(possibleReps, sNum, eNum);
    var deduped := DedupeRuneSlices(limited);
    // sortRuneSlicesByIntValue: the list is already in strictly increasing order, so sorting it changes nothing
    return deduped;
  }

  // ---------------------------------------------------------------------------
  // Part one: CheckSpan and the doubled IDs
  // ---------------------------------------------------------------------------

  /** h written twice: the text of Sprintf("%d%d", h, h). */
  function DoubleStr(h: nat): string
  { DecStr(h) + DecStr(h) }

  /** h followed by k zeros. */
  function Shifted(h: nat, k: nat): nat
  { if k == 0 then h else 10 * Shifted(h, k - 1) }

  lemma {:induction false} ShiftedIsProduct(h: nat, k: nat)
    ensures Shifted(h, k) == h * Pow10(k)
  {
    if k > 0 {
      ShiftedIsProduct(h, k - 1);
    }
  }

  /** The value of h written twice: h shifted left by its own digit count, plus h. */
  function Double(h: nat): nat
  { Shifted(h, NumDigits(h)) + h }

  lemma MulLe(a: int, b: int, c: int)
    requires a <= b && c >= 0
    ensures a * c <= b * c
  {
  }

  /** The text of h written twice reads as Double(h), and for h >= 1 it is canonical. */
  lemma DoubleValue(h: nat)
    ensures IsNumeral(DoubleStr(h)) && DecVal(DoubleStr(h)) == Double(h)
    ensures Double(h) == h * Pow10(NumDigits(h)) + h
    ensures h >= 1 ==> DecStr(Double(h)) == DoubleStr(h)
  {
    DecValAppend(DecStr(h), DecStr(h));
    DecValStr(h);
    ShiftedIsProduct(h, NumDigits(h));
    DecStrDigits(h);
    if h >= 1 {
      DecStrCanonical(h);
      StrVal(DoubleStr(h));
    }
  }

  /** A doubled ID has twice the digits of its half, so an even number of them. */
  lemma DoubleBounds(h: nat)
    requires h >= 1
    ensures NumDigits(Double(h)) == 2 * NumDigits(h)
    ensures Pow10(2 * NumDigits(h) - 1) <= Double(h) < Pow10(2 * NumDigits(h))
  {
    DoubleValue(h);
    DecStrDigits(h);
    DecStrDigits(Double(h));
    NumDigitsBounds(Double(h));
  }

  /** A doubled ID is an ID of part two's kind: a block written twice, not all zeros. */
  lemma DoubledIsInvalid(h: nat)
    requires h >= 1
    ensures Invalid(DoubleStr(h))
  {
    var c := DecStr(h);
    assert Repeat(c, 2) == DoubleStr(h) by {
      assert Repeat(c, 1) == c;
    }
    DecStrCanonical(h);
    assert DoubleStr(h)[0] != '0';
    RepetitionInvalid(DoubleStr(h));
  }

  /** Writing a larger half gives a larger doubled ID. */
  lemma DoubleMono(h1: nat, h2: nat)
    requires 1 <= h1 < h2
    ensures Double(h1) < Double(h2)
  {
    var l1, l2 := NumDigits(h1), NumDigits(h2);
    NumDigitsBounds(h1);
    NumDigitsBounds(h2);
    if l1 > l2 {
      Pow10Mono(l2, l1 - 1);
    } else if l1 == l2 {
      DoubleValue(h1);
      DoubleValue(h2);
      MulLe(h1, h2, Pow10(l1));
    } else {
      DoubleBounds(h1);
      DoubleBounds(h2);
      Pow10Mono(2 * l1, 2 * l2 - 1);
    }
  }

  /** The doubled IDs with halves a..b whose value lies in [lo, hi], in order of their halves. */
  function Sel(a: nat, b: int, lo: int, hi: int): seq<string>
    decreases b - a
  {
    if b < a then []
    else Sel(a, b - 1, lo, hi) + (if lo <= Double(b) <= hi then [DoubleStr(b)] else [])
  }

  /** The doubled IDs of the span [lo, hi], in increasing order; a half never exceeds hi. */
  function DoublesIn(lo: nat, hi: nat): seq<string>
  { Sel(1, hi, lo, hi) }

  /** Sel depends only on which halves of a..b pass the range test. */
  lemma {:induction false} SelSame(a: nat, b: int, lo1: int, hi1: int, lo2: int, hi2: int)
    requires forall h: nat :: a <= h <= b ==> (lo1 <= Double(h) <= hi1 <==> lo2 <= Double(h) <= hi2)
    ensures Sel(a, b, lo1, hi1) == Sel(a, b, lo2, hi2)
    decreases b - a
  {
    if b >= a {
      SelSame(a, b - 1, lo1, hi1, lo2, hi2);
    }
  }

  /** Halves at the front that fail the range test can be skipped. */
  lemma {:induction false} SelDropFront(a: nat, a': nat, b: int, lo: int, hi: int)
    requires a <= a'
    requires forall h: nat :: a <= h < a' && h <= b ==> !(lo <= Double(h) <= hi)
    ensures Sel(a, b, lo, hi) == Sel(a', b, lo, hi)
    decreases b - a
  {
    if b >= a {
      SelDropFront(a, a', b - 1, lo, hi);
    }
  }

  /** Halves at the back that fail the range test can be skipped. */
  lemma {:induction false} SelDropBack(a: nat, b': int, b: int, lo: int, hi: int)
    requires b' <= b
    requires forall h: nat :: a <= h && b' < h <= b ==> !(lo <= Double(h) <= hi)
    ensures Sel(a, b, lo, hi) == Sel(a, b', lo, hi)
    decreases b - b'
  {
    if b > b' {
      SelDropBack(a, b', b - 1, lo, hi);
    }
  }

  /** Every entry of Sel is a half in a..b written twice, with its value in [lo, hi]. */
  lemma {:induction false} SelSound(a: nat, b: int, lo: int, hi: int)
    ensures forall x :: x in Sel(a, b, lo, hi) ==>
              exists h: nat :: a <= h <= b && x == DoubleStr(h) && lo <= DecVal(x) <= hi
    decreases b - a
  {
    if b >= a {
      SelSound(a, b - 1, lo, hi);
      DoubleValue(b);
      var p := Sel(a, b - 1, lo, hi);
      forall x | x in Sel(a, b, lo, hi)
        ensures exists h: nat :: a <= h <= b && x == DoubleStr(h) && lo <= DecVal(x) <= hi
      {
        if x !in p {
          assert x == DoubleStr(b);
        }
      }
    }
  }

  /** Every half in a..b whose doubled value lies in [lo, hi] has its entry in Sel. */
  lemma {:induction false} SelComplete(a: nat, b: int, lo: int, hi: int, h: nat)
    requires a <= h <= b && lo <= Double(h) <= hi
    ensures DoubleStr(h) in Sel(a, b, lo, hi)
    decreases b - a
  {
    if h < b {
      SelComplete(a, b - 1, lo, hi, h);
    }
  }

  lemma {:induction false} SelAscending(a: nat, b: int, lo: int, hi: int)
    requires a >= 1
    ensures Numerals(Sel(a, b, lo, hi)) && Ascending(Sel(a, b, lo, hi))
    ensures forall k :: 0 <= k < |Sel(a, b, lo, hi)| ==> DecVal(Sel(a, b, lo, hi)[k]) <= Double(b)
    decreases b - a
  {
    if b >= a {
      var p := Sel(a, b - 1, lo, hi);
      var r := Sel(a, b, lo, hi);
      SelAscending(a, b - 1, lo, hi);
      DoubleValue(b);
      if b > a {
        DoubleMono(b - 1, b);
      }
      assert Numerals(r) by {
        forall k | 0 <= k < |r|
          ensures IsNumeral(r[k])
        {
          if k < |p| {
            assert r[k] == p[k];
          }
        }
      }
      forall i, j | 0 <= i < j < |r|
        ensures DecVal(r[i]) < DecVal(r[j])
      {
        assert r[i] == p[i];
        if j < |p| {
          assert r[j] == p[j];
        }
      }
      forall k | 0 <= k < |r|
        ensures DecVal(r[k]) <= Double(b)
      {
        if k < |p| {
          assert r[k] == p[k];
        }
      }
    }
  }

  /**
   * The doubled IDs of a span: exactly the halves h >= 1 whose doubled value
   * lies in [lo, hi], written as h twice, in strictly increasing order.
   */
  lemma DoublesInMeans(lo: nat, hi: nat)
    ensures Numerals(DoublesIn(lo, hi)) && Ascending(DoublesIn(lo, hi))
    ensures forall x :: x in DoublesIn(lo, hi) ==>
              exists h: nat :: 1 <= h <= hi && x == DoubleStr(h) && lo <= DecVal(x) <= hi
    ensures forall h: nat :: h >= 1 && lo <= Double(h) <= hi ==> DoubleStr(h) in DoublesIn(lo, hi)
  {
    SelAscending(1, hi, lo, hi);
    SelSound(1, hi, lo, hi);
    forall h: nat | h >= 1 && lo <= Double(h) <= hi
      ensures DoubleStr(h) in DoublesIn(lo, hi)
    {
      DoubleValue(h);
      MulLe(1, Pow10(NumDigits(h)), h);
      SelComplete(1, hi, lo, hi, h);
    }
  }

  /** The smallest number with an even digit count that is at least n. */
  function NextEven(n: nat): nat
  { if NumDigits(n) % 2 == 0 then n else Pow10(NumDigits(n)) }

  /** The largest number with an even digit count (counting the sign) that is at most n. */
  function PrevEven(n: nat): int
  {
    var l := NumDigits(n);
    if l % 2 == 0 then n else if l == 1 then -1 else Pow10(l - 1) - 1
  }

  lemma NextEvenFacts(n: nat)
    ensures n <= NextEven(n) && NextEven(n) >= 10 && NumDigits(NextEven(n)) % 2 == 0
  {
    var l := NumDigits(n);
    NumDigitsBounds(n);
    if l % 2 == 0 {
      Pow10Mono(1, l - 1);
    } else {
      Pow10Mono(1, l);
      NumDigitsExact(Pow10(l), l + 1);
    }
  }

  /** No number with an even digit count lies in [n, NextEven(n)). */
  lemma NextEvenCmp(n: nat, x: nat)
    requires NumDigits(x) % 2 == 0
    ensures n <= x <==> NextEven(n) <= x
  {
    var l, m := NumDigits(n), NumDigits(x);
    NumDigitsBounds(n);
    NumDigitsBounds(x);
    if l % 2 != 0 {
      if m > l {
        Pow10Mono(l, m - 1);
      } else {
        Pow10Mono(m, l - 1);
      }
    }
  }

  lemma PrevEvenFacts(n: nat)
    ensures PrevEven(n) <= n
    ensures NumDigits(n) == 1 <==> PrevEven(n) == -1
    ensures PrevEven(n) != -1 ==> PrevEven(n) >= 10 && NumDigits(PrevEven(n)) % 2 == 0
  {
    var l := NumDigits(n);
    NumDigitsBounds(n);
    if l % 2 == 0 {
      Pow10Mono(1, l - 1);
    } else if l > 1 {
      Pow10Mono(2, l - 1);
      NumDigitsExact(Pow10(l - 1) - 1, l - 1);
    }
  }

  /** No number with an even digit count lies in (PrevEven(n), n]. */
  lemma PrevEvenCmp(n: nat, x: nat)
    requires NumDigits(x) % 2 == 0
    ensures x <= n <==> x <= PrevEven(n)
  {
    var l, m := NumDigits(n), NumDigits(x);
    NumDigitsBounds(n);
    NumDigitsBounds(x);
    if l % 2 != 0 {
      if l == 1 {
        Pow10Mono(1, m - 1);
      } else if m > l {
        Pow10Mono(l, m - 1);
      } else {
        Pow10Mono(m, l - 1);
      }
    }
  }

  /** The left half of an even-length numeral: v = left * 10^a + rest with rest < 10^a. */
  lemma SplitHalves(v: nat, a: nat)
    requires v >= 10 && |DecStr(v)| == 2 * a
    ensures IsNumeral(DecStr(v)[..a])
    ensures var left := DecVal(DecStr(v)[..a]);
            Pow10(a - 1) <= left < Pow10(a)
            && v - left * Pow10(a) < Pow10(a) && left * Pow10(a) <= v
  {
    var t := DecStr(v);
    var l, r := t[..a], t[a..];
    assert t == l + r;
    assert a >= 1 by {
      DecStrDigits(v);
      NumDigitsBounds(v);
      Pow10Mono(1, 2 * a - 1);
    }
    assert IsNumeral(l) && l[0] != '0' by {
      DecStrCanonical(v);
      assert l[0] == t[0];
    }
    DecValStr(v);
    DecValAppend(l, r);
    DecValBound(r);
    DecValBound(l);
    LeadingBound(l);
  }

  /** One more multiple: h < left gives h * p + p <= left * p. */
  lemma MulStep(h: int, left: int, p: int)
    requires p >= 0 && h < left
    ensures h * p + p <= left * p
  {
    MulLe(h + 1, left, p);
    assert (h + 1) * p == h * p + p;
  }

  /** A doubled ID at least v = left * 10^a + rest has a half at least left. */
  lemma HalfAbove(v: nat, a: nat, left: nat, h: nat)
    requires a >= 1 && Pow10(2 * a - 1) <= v && left < Pow10(a) && left * Pow10(a) <= v
    requires v - left * Pow10(a) < Pow10(a)
    requires h >= 1 && Double(h) >= v
    ensures h >= left
  {
    var l := NumDigits(h);
    NumDigitsBounds(h);
    if l < a {
      DoubleBounds(h);
      Pow10Mono(2 * l, 2 * a - 1);
    } else if l == a {
      var p := Pow10(a);
      DoubleValue(h);
      assert Double(h) == h * p + h && h < p;
      if h < left {
        MulStep(h, left, p);
      }
    } else {
      Pow10Mono(a, l - 1);
    }
  }

  /** A doubled ID at most v = left * 10^b + rest has a half at most left. */
  lemma HalfBelow(v: nat, b: nat, left: nat, h: nat)
    requires b >= 1 && v < Pow10(2 * b) && Pow10(b - 1) <= left && left * Pow10(b) <= v
    requires v - left * Pow10(b) < Pow10(b)
    requires h >= 1 && Double(h) <= v
    ensures h <= left
  {
    var l := NumDigits(h);
    NumDigitsBounds(h);
    if l > b {
      DoubleBounds(h);
      Pow10Mono(2 * b, 2 * l - 1);
    } else if l == b {
      var p := Pow10(b);
      DoubleValue(h);
      assert Double(h) == h * p + h;
      if h > left {
        MulStep(left, h, p);
      }
    } else {
      Pow10Mono(l, b - 1);
    }
  }

  /** Between two ends with the same odd digit count there is no doubled ID. */
  lemma OddNoDouble(lo: nat, hi: nat, h: nat)
    requires NumDigits(lo) == NumDigits(hi) && NumDigits(lo) % 2 == 1 && h >= 1
    ensures !(lo <= Double(h) <= hi)
  {
    NumDigitsBounds(hi);
    DoubleBounds(h);
    NextEvenCmp(lo, Double(h));
  }

  /** When both ends have the same odd digit count the span holds no doubled ID. */
  lemma OddSpan(lo: nat, hi: nat)
    requires NumDigits(lo) == NumDigits(hi) && NumDigits(lo) % 2 == 1
    ensures DoublesIn(lo, hi) == []
  {
    forall h: nat | 1 <= h < hi + 1 && h <= hi
      ensures !(lo <= Double(h) <= hi)
    {
      OddNoDouble(lo, hi, h);
    }
    SelDropFront(1, hi + 1, hi, lo, hi);
  }

  /** A doubled ID has an even digit count, so moving the ends to even counts keeps it in or out. */
  lemma DoubleInMoved(lo: nat, hi: nat, h: nat)
    requires h >= 1
    ensures NextEven(lo) <= Double(h) <= PrevEven(hi) <==> lo <= Double(h) <= hi
  {
    DoubleBounds(h);
    NextEvenCmp(lo, Double(h));
    PrevEvenCmp(hi, Double(h));
  }

  /** Halves below left(lo') give doubled IDs below lo', halves above left(hi') ones above hi'. */
  lemma HalvesOutside(lo': nat, a: nat, sl: nat, hi': nat, b: nat, el: nat, h: nat)
    requires lo' >= 10 && |DecStr(lo')| == 2 * a && IsDigits(DecStr(lo')[..a]) && sl == DecVal(DecStr(lo')[..a])
    requires hi' >= 10 && |DecStr(hi')| == 2 * b && IsDigits(DecStr(hi')[..b]) && el == DecVal(DecStr(hi')[..b])
    requires h >= 1 && lo' <= Double(h) <= hi'
    ensures sl <= h <= el
  {
    SplitHalves(lo', a);
    SplitHalves(hi', b);
    DecStrDigits(lo');
    DecStrDigits(hi');
    NumDigitsBounds(lo');
    NumDigitsBounds(hi');
    HalfAbove(lo', a, sl, h);
    HalfBelow(hi', b, el, h);
  }

  /**
   * Counting halves from left(lo') to left(hi') and keeping the doubled IDs in
   * [lo', hi'] gives the doubled IDs of [lo, hi].
   */
  lemma HalvesCover(lo: nat, hi: nat, a: nat, sl: nat, b: nat, el: nat)
    requires NextEven(lo) >= 10 && PrevEven(hi) >= 10
    requires |DecStr(NextEven(lo))| == 2 * a && sl == DecVal(DecStr(NextEven(lo))[..a])
    requires |DecStr(PrevEven(hi))| == 2 * b && el == DecVal(DecStr(PrevEven(hi))[..b])
    requires IsDigits(DecStr(NextEven(lo))[..a]) && IsDigits(DecStr(PrevEven(hi))[..b])
    ensures sl >= 1 && el <= hi
    ensures Sel(sl, el, NextEven(lo), PrevEven(hi)) == DoublesIn(lo, hi)
  {
    var lo', hi' := NextEven(lo), PrevEven(hi);
    PrevEvenFacts(hi);
    SplitHalves(lo', a);
    SplitHalves(hi', b);
    Pow10Mono(0, a - 1);
    MulLe(1, Pow10(b), el);
    forall h: nat | sl <= h <= el
      ensures lo' <= Double(h) <= hi' <==> lo <= Double(h) <= hi
    {
      DoubleInMoved(lo, hi, h);
    }
    SelSame(sl, el, lo', hi', lo, hi);
    forall h: nat | 1 <= h && el < h <= hi
      ensures !(lo <= Double(h) <= hi)
    {
      DoubleInMoved(lo, hi, h);
      if lo' <= Double(h) <= hi' {
        HalvesOutside(lo', a, sl, hi', b, el, h);
      }
    }
    SelDropBack(1, el, hi, lo, hi);
    forall h: nat | 1 <= h < sl && h <= el
      ensures !(lo <= Double(h) <= hi)
    {
      DoubleInMoved(lo, hi, h);
      if lo' <= Double(h) <= hi' {
        HalvesOutside(lo', a, sl, hi', b, el, h);
      }
    }
    SelDropFront(1, sl, el, lo, hi);
  }

  /** The value of the left half of n's text, as CheckSpan reads it; None where that panics. */
  function LeftHalf(n: int): Option<int>
  {
    var t := GoMath.Itoa(n);
    ArrRuneToInt(t[..|t| / 2])
  }

  /**
   * The left halves of the moved ends: the start's always reads as a number
   * at least 1; the end's fails exactly when the end has one digit (it was
   * moved to -1); otherwise counting the halves between them and keeping the
   * doubled IDs inside the moved span gives the doubled IDs of [lo, hi].
   */
  lemma LeftHalves(lo: nat, hi: nat)
    ensures LeftHalf(NextEven(lo)).Some? && LeftHalf(NextEven(lo)).value >= 1
    ensures LeftHalf(PrevEven(hi)).None? <==> NumDigits(hi) == 1
    ensures LeftHalf(PrevEven(hi)).Some? ==>
              Sel(LeftHalf(NextEven(lo)).value, LeftHalf(PrevEven(hi)).value, NextEven(lo), PrevEven(hi))
              == DoublesIn(lo, hi)
  {
    var sNum, eNum := NextEven(lo), PrevEven(hi);
    NextEvenFacts(lo);
    PrevEvenFacts(hi);
    DecStrDigits(sNum);
    var start := GoMath.Itoa(sNum);
    var sLeft := start[..|start| / 2];
    SplitHalves(sNum, |start| / 2);
    GoMath.ParseDigits(sLeft);
    if eNum == -1 {
      var end := GoMath.Itoa(eNum);
      assert end == "-1" && end[..|end| / 2] == "-";
    } else {
      DecStrDigits(eNum);
      var end := GoMath.Itoa(eNum);
      var eLeft := end[..|end| / 2];
      SplitHalves(eNum, |end| / 2);
      GoMath.ParseDigits(eLeft);
      HalvesCover(lo, hi, |start| / 2, DecVal(sLeft), |end| / 2, DecVal(eLeft));
    }
  }

  /** The increment loop of CheckSpan stops at NextEven. */
  lemma IncStep(lo: nat, n: nat)
    requires lo <= n <= NextEven(lo)
    requires n < NextEven(lo) ==> NumDigits(n) == NumDigits(lo)
    ensures NumDigits(n) % 2 != 0 ==> n + 1 <= NextEven(lo)
    ensures NumDigits(n) % 2 != 0 && n + 1 < NextEven(lo) ==> NumDigits(n + 1) == NumDigits(lo)
    ensures NumDigits(n) % 2 == 0 ==> n == NextEven(lo)
    ensures |GoMath.Itoa(n)| == NumDigits(n)
  {
    DecStrDigits(n);
    NextEvenFacts(lo);
    var l := NumDigits(lo);
    if NumDigits(n) % 2 != 0 && n + 1 < NextEven(lo) {
      NumDigitsBounds(n);
      NumDigitsExact(n + 1, l);
    }
  }

  /** The decrement loop of CheckSpan stops at PrevEven; -1 is written "-1", two characters. */
  lemma DecStep(hi: nat, n: int)
    requires PrevEven(hi) <= n <= hi
    requires n > PrevEven(hi) ==> n >= 0 && NumDigits(n) == NumDigits(hi)
    ensures |GoMath.Itoa(n)| % 2 != 0 ==> n - 1 >= PrevEven(hi) && n >= 0
    ensures |GoMath.Itoa(n)| % 2 != 0 && n - 1 > PrevEven(hi) ==> NumDigits(n - 1) == NumDigits(hi)
    ensures |GoMath.Itoa(n)| % 2 == 0 ==> n == PrevEven(hi)
  {
    PrevEvenFacts(hi);
    var l := NumDigits(hi);
    if n >= 0 {
      DecStrDigits(n);
    }
    if n == -1 {
      assert GoMath.Itoa(n) == "-" + DecStr(1);
    }
    if n >= 0 && NumDigits(n) % 2 != 0 && n - 1 > PrevEven(hi) {
      NumDigitsBounds(n);
      if l >= 2 {
        NumDigitsExact(n - 1, l);
      } else {
        NumDigitsExact(n - 1, 1);
      }
    }
  }

  /** CheckSpan's first loop: increment n until its decimal text has an even length. */
  method RaiseToEvenLength(n: nat) returns (m: nat)
    ensures m == NextEven(n)
  {
    m := n;
    NextEvenFacts(n);
    while |GoMath.Itoa(m)| % 2 != 0
      invariant n <= m <= NextEven(n)
      invariant m < NextEven(n) ==> NumDigits(m) == NumDigits(n)
      decreases NextEven(n) - m
    {
      IncStep(n, m);
      m := m + 1;
    }
    IncStep(n, m);
  }

  /** CheckSpan's second loop: decrement n until its text (with a sign) has an even length. */
  method LowerToEvenLength(n: nat) returns (m: int)
    ensures m == PrevEven(n)
  {
    m := n;
    PrevEvenFacts(n);
    while |GoMath.Itoa(m)| % 2 != 0
      invariant PrevEven(n) <= m <= n
      invariant m > PrevEven(n) ==> m >= 0 && NumDigits(m) == NumDigits(n)
      decreases m - PrevEven(n)
    {
      DecStep(n, m);
      m := m - 1;
    }
    DecStep(n, m);
  }

  /** CheckSpan's third loop: each half from sl to el, written twice. */
  method PossibleDoubles(sl: nat, el: int) returns (possibleDoubles: seq<string>)
    ensures |possibleDoubles| == if el < sl then 0 else el - sl + 1
    ensures forall k :: 0 <= k < |possibleDoubles| ==> possibleDoubles[k] == DoubleStr(sl + k)
  {
    possibleDoubles := [];
    var h := sl;
    while h <= el
      invariant sl <= h && (sl <= el + 1 ==> h <= el + 1) && (el < sl ==> h == sl)
      invariant |possibleDoubles| == h - sl
      invariant forall k :: 0 <= k < |possibleDoubles| ==> possibleDoubles[k] == DoubleStr(sl + k)
    {
      possibleDoubles := possibleDoubles + [GoMath.Itoa(h) + GoMath.Itoa(h)];
      h := h + 1;
    }
  }

  /** CheckSpan's fourth loop: keep the doubled IDs whose value lies in [sNum, eNum]. */
  method KeepDoubles(possibleDoubles: seq<string>, sl: nat, el: int, sNum: int, eNum: int)
    returns (doubles: seq<string>)
    requires |possibleDoubles| == if el < sl then 0 else el - sl + 1
    requires forall k :: 0 <= k < |possibleDoubles| ==> possibleDoubles[k] == DoubleStr(sl + k)
    ensures doubles == Sel(sl, el, sNum, eNum)
  {
    doubles := [];
    var k := 0;
    while k < |possibleDoubles|
      invariant 0 <= k <= |possibleDoubles|
      invariant doubles == Sel(sl, sl + k - 1, sNum, eNum)
    {
      var x := possibleDoubles[k];
      DoubleValue(sl + k);
      GoMath.ParseDigits(x);
      var i := ArrRuneToInt(x).value;
      if i >= sNum && i <= eNum {
        doubles := doubles + [x];
      }
      k := k + 1;
    }
    if el < sl {
      assert Sel(sl, el, sNum, eNum) == [];
    }
  }

  /**
   * CheckSpan: only doubled IDs can be invalid here, so it moves the ends to
   * even digit counts, counts the left halves from the start's to the end's,
   * writes each half twice and keeps those inside the moved span. The result
   * is exactly the doubled IDs of the span, in increasing order. It panics
   * (None) when the end has one digit and the start does not: the end is then
   * decremented to -1, whose left half "-" is not a number.
   */
  method CheckSpan(s: Span) returns (r: Option<seq<string>>)
    requires Canonical(s.start) && Canonical(s.end)
    ensures r.None? <==> |s.end| == 1 && |s.start| != 1
    ensures r.Some? ==> r.value == DoublesIn(DecVal(s.start), DecVal(s.end))
  {
    var lo, hi := DecVal(s.start), DecVal(s.end);
    StrVal(s.start);
    StrVal(s.end);
    DecStrDigits(lo);
    DecStrDigits(hi);
    if |s.start| == |s.end| && |s.start| % 2 != 0 {
      OddSpan(lo, hi);
      assert DoublesIn(DecVal(s.start), DecVal(s.end)) == [];
      return Some([]);
    }
    var sNum := ArrRuneToInt(s.start).value by {
      GoMath.ParseDigits(s.start);
    }
    assert sNum == lo by {
      GoMath.ParseDigits(s.start);
    }
    sNum := RaiseToEvenLength(sNum);
    var start := GoMath.Itoa(sNum);

    var eNum := ArrRuneToInt(s.end).value by {
      GoMath.ParseDigits(s.end);
    }
    assert eNum == hi by {
      GoMath.ParseDigits(s.end);
    }
    eNum := LowerToEvenLength(eNum);
    var end := GoMath.Itoa(eNum);
    var sLeft := start[..|start| / 2];
    var eLeft := end[..|end| / 2];
    var sLeftI := ArrRuneToInt(sLeft);
    var eLeftI := ArrRuneToInt(eLeft);
    LeftHalves(lo, hi);
    if sLeftI.None? || eLeftI.None? {
      return None;
    }
    var sl, el := sLeftI.value, eLeftI.value;
    var possibleDoubles := PossibleDoubles(sl, el);
    var doubles := KeepDoubles(possibleDoubles, sl, el, sNum, eNum);
    return Some(doubles);
  }
}
