/** Decimal digit strings, as produced by strconv.Itoa and read by strconv.Atoi / int(). */
module Decimal {
  predicate IsDigit(c: char) { '0' <= c <= '9' }

  predicate IsDigits(s: string) { forall i :: 0 <= i < |s| ==> IsDigit(s[i]) }

  function DigitVal(c: char): (d: nat)
    requires IsDigit(c)
    ensures d < 10
  { c as int - '0' as int }

  function DigitChar(d: nat): (c: char)
    requires d < 10
    ensures IsDigit(c) && DigitVal(c) == d
  { ('0' as int + d) as char }

  lemma DigitCharVal(c: char)
    requires IsDigit(c)
    ensures DigitChar(DigitVal(c)) == c
  { }

  function Pow10(k: nat): (r: nat)
    ensures r >= 1
  { if k == 0 then 1 else 10 * Pow10(k - 1) }

  /** The value of a digit string, most significant digit first. */
  function DecVal(s: string): nat
    requires IsDigits(s)
  { if s == [] then 0 else DecVal(s[..|s| - 1]) * 10 + DigitVal(s[|s| - 1]) }

  /** The canonical decimal spelling of n: no leading zero, and "0" for zero. */
  function DecStr(n: nat): (r: string)
    ensures IsDigits(r) && |r| >= 1
  { if n < 10 then [DigitChar(n)] else DecStr(n / 10) + [DigitChar(n % 10)] }

  /** A digit string is canonical when it has no leading zero, except "0" itself. */
  predicate Canonical(s: string)
  { IsDigits(s) && |s| >= 1 && (s[0] == '0' ==> |s| == 1) }

  /** s with every leading '0' removed (Python's lstrip("0")). */
  function StripZeros(s: string): (r: string)
    ensures |r| <= |s| && r == s[|s| - |r|..]
    ensures r == [] || r[0] != '0'
    ensures forall i :: 0 <= i < |s| - |r| ==> s[i] == '0'
  { if |s| > 0 && s[0] == '0' then StripZeros(s[1..]) else s }

  lemma {:induction false} DecValStr(n: nat)
    ensures DecVal(DecStr(n)) == n
  {
    if n >= 10 {
      DecValStr(n / 10);
      var s := DecStr(n);
      assert s[..|s| - 1] == DecStr(n / 10);
    }
  }

  lemma {:induction false} DecStrCanonical(n: nat)
    ensures Canonical(DecStr(n))
    ensures n >= 1 ==> DecStr(n)[0] != '0'
  {
    if n >= 10 {
      DecStrCanonical(n / 10);
    }
  }

  lemma {:induction false} LeadingDigitPositive(s: string)
    requires IsDigits(s) && |s| >= 1 && s[0] != '0'
    ensures DecVal(s) >= 1
  {
    if |s| > 1 {
      LeadingDigitPositive(s[..|s| - 1]);
    }
  }

  lemma {:induction false} StrVal(s: string)
    requires Canonical(s)
    ensures DecStr(DecVal(s)) == s
  {
    var p := s[..|s| - 1];
    if |s| == 1 {
      assert p == [];
      DigitCharVal(s[0]);
      assert DecStr(DecVal(s)) == [s[0]];
    } else {
      LeadingDigitPositive(p);
      StrVal(p);
      DigitCharVal(s[|s| - 1]);
      assert s == p + [s[|s| - 1]];
    }
  }

  lemma {:induction false} StripZerosVal(s: string)
    requires IsDigits(s)
    ensures IsDigits(StripZeros(s)) && DecVal(StripZeros(s)) == DecVal(s)
    decreases |s|
  {
    if |s| > 0 && s[0] == '0' {
      StripZerosVal(s[1..]);
      LeadingZeroVal(s);
    }
  }

  lemma {:induction false} LeadingZeroVal(s: string)
    requires IsDigits(s) && |s| > 0 && s[0] == '0'
    ensures DecVal(s) == DecVal(s[1..])
    decreases |s|
  {
    if |s| > 1 {
      var p := s[..|s| - 1];
      LeadingZeroVal(p);
      assert p[1..] == s[1..][..|s| - 2];
    }
  }

  /** Atoi followed by Itoa on a digit string: the canonical form of its value. */
  lemma StripCanonical(s: string)
    requires IsDigits(s)
    ensures DecStr(DecVal(s)) == (if StripZeros(s) == [] then "0" else StripZeros(s))
  {
    StripZerosVal(s);
    var t := StripZeros(s);
    if t == [] {
      assert DecVal(t) == 0;
    } else {
      StrVal(t);
    }
  }

  lemma {:induction false} DecValBound(s: string)
    requires IsDigits(s)
    ensures DecVal(s) < Pow10(|s|)
  {
    if s != [] {
      DecValBound(s[..|s| - 1]);
    }
  }

  /** Two digit strings side by side are a digit string. */
  lemma DigitsAppend(s: string, t: string)
    requires IsDigits(s) && IsDigits(t)
    ensures IsDigits(s + t)
  {
    forall i | 0 <= i < |s + t| ensures IsDigit((s + t)[i]) {
      if i < |s| { assert (s + t)[i] == s[i]; } else { assert (s + t)[i] == t[i - |s|]; }
    }
  }

  lemma {:induction false} DecValAppend(s: string, t: string)
    requires IsDigits(s) && IsDigits(t)
    ensures IsDigits(s + t) && DecVal(s + t) == DecVal(s) * Pow10(|t|) + DecVal(t)
    decreases |t|
  {
    DigitsAppend(s, t);
    if t != [] {
      var t' := t[..|t| - 1];
      assert IsDigits(t');
      DecValAppend(s, t');
      var d := DigitVal(t[|t| - 1]);
      assert (s + t)[..|s + t| - 1] == s + t';
      assert (s + t)[|s + t| - 1] == t[|t| - 1];
      assert DecVal(s + t) == DecVal(s + t') * 10 + d;
      assert DecVal(t) == DecVal(t') * 10 + d;
      assert Pow10(|t|) == 10 * Pow10(|t'|);
      ShiftDigit(DecVal(s), Pow10(|t'|), DecVal(t'), d);
    } else {
      assert s + t == s;
    }
  }

  lemma ShiftDigit(a: int, p: int, b: int, d: int)
    ensures (a * p + b) * 10 + d == a * (10 * p) + (b * 10 + d)
  {
  }

  lemma {:induction false} Pow10Add(a: nat, b: nat)
    ensures Pow10(a + b) == Pow10(a) * Pow10(b)
  {
    if b > 0 {
      Pow10Add(a, b - 1);
      assert Pow10(a + b) == 10 * Pow10(a + b - 1);
    }
  }

  lemma {:induction false} Pow10Mono(a: nat, b: nat)
    requires a <= b
    ensures Pow10(a) <= Pow10(b)
    ensures a < b ==> 10 * Pow10(a) <= Pow10(b)
  {
    if a < b {
      Pow10Mono(a, b - 1);
    }
  }

  /** A number with k digits lies in [10^(k-1), 10^k), or is 0 when k is 1. */
  lemma {:induction false} DecStrBounds(n: nat)
    ensures n < Pow10(|DecStr(n)|)
    ensures n >= 1 ==> Pow10(|DecStr(n)| - 1) <= n
  {
    if n >= 10 {
      DecStrBounds(n / 10);
      assert |DecStr(n)| == |DecStr(n / 10)| + 1;
    }
  }

  /** The length of a decimal spelling is fixed by the power-of-ten interval the number is in. */
  lemma DecStrLength(n: nat, k: nat)
    requires k >= 1 && n < Pow10(k)
    requires k >= 2 ==> Pow10(k - 1) <= n
    ensures |DecStr(n)| == k
  {
    var m := |DecStr(n)|;
    DecStrBounds(n);
    if m < k {
      Pow10Mono(m, k - 1);
    } else if m > k {
      Pow10Mono(k, m - 1);
    }
  }

  /** The number of decimal digits of n, 1 for zero: the length of its spelling. */
  function NumDigits(n: nat): (k: nat)
    ensures k >= 1
  { if n < 10 then 1 else NumDigits(n / 10) + 1 }

  lemma {:induction false} DecStrDigits(n: nat)
    ensures |DecStr(n)| == NumDigits(n)
  {
    if n >= 10 {
      DecStrDigits(n / 10);
    }
  }

  /** A number with k digits lies in [10^(k-1), 10^k), or is 0 when k is 1. */
  lemma NumDigitsBounds(n: nat)
    ensures n < Pow10(NumDigits(n))
    ensures n >= 1 ==> Pow10(NumDigits(n) - 1) <= n
  {
    DecStrDigits(n);
    DecStrBounds(n);
  }

  /** The digit count is fixed by the power-of-ten interval the number is in. */
  lemma NumDigitsExact(n: nat, k: nat)
    requires k >= 1 && n < Pow10(k)
    requires k >= 2 ==> Pow10(k - 1) <= n
    ensures NumDigits(n) == k
  {
    DecStrDigits(n);
    DecStrLength(n, k);
  }

  /** A digit string with no leading zero is at least 10^(length - 1). */
  lemma {:induction false} LeadingBound(s: string)
    requires IsDigits(s) && |s| >= 1 && s[0] != '0'
    ensures Pow10(|s| - 1) <= DecVal(s)
  {
    if |s| > 1 {
      var p := s[..|s| - 1];
      assert p[0] == s[0];
      LeadingBound(p);
    }
  }
}
