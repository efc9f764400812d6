/** The integer operations of Go that differ from Dafny's: truncating division and strconv.Atoi. */
module GoMath {
  import opened Wrappers
  import opened Decimal

  const MinInt64: int := -0x8000_0000_0000_0000
  const MaxInt64: int := 0x7FFF_FFFF_FFFF_FFFF

  function Abs(a: int): nat { if a < 0 then -a else a }

  /** Go's a / b: the quotient truncated toward zero. */
  function GoDiv(a: int, b: int): int
    requires b != 0
  {
    var q := Abs(a) / Abs(b);
    if (a < 0) != (b < 0) then -q else q
  }

  /** Go's a % b: the remainder that goes with GoDiv, carrying the sign of a. */
  function GoRem(a: int, b: int): (r: int)
    requires b != 0
    ensures a == GoDiv(a, b) * b + r
    ensures Abs(r) < Abs(b)
    ensures a >= 0 ==> r >= 0
    ensures a <= 0 ==> r <= 0
  {
    var q := Abs(a) / Abs(b);
    var m := Abs(a) % Abs(b);
    assert Abs(a) == q * Abs(b) + m;
    if a < 0 then -m else m
  }

  lemma GoRemNonNegative(a: int, b: int)
    requires a >= 0 && b > 0
    ensures GoRem(a, b) == a % b && GoDiv(a, b) == a / b
  {
  }

  /** The syntax strconv.Atoi accepts: an optional sign and at least one digit, read without a width limit. */
  function ParseInt(s: string): (r: Option<int>)
    ensures r.Some? ==> |s| >= 1
  {
    var neg := |s| > 0 && s[0] == '-';
    var body := if |s| > 0 && (s[0] == '-' || s[0] == '+') then s[1..] else s;
    if |body| == 0 || !IsDigits(body) then None
    else Some(if neg then 0 - DecVal(body) else DecVal(body))
  }

  /** A digit string reads as its decimal value. */
  lemma ParseDigits(s: string)
    requires IsDigits(s) && |s| >= 1
    ensures ParseInt(s) == Some(DecVal(s))
  {
    assert s[0] != '-' && s[0] != '+';
  }

  /** strconv.Atoi: ParseInt's syntax, within the 64-bit range. */
  function Atoi(s: string): (r: Result<int>)
    ensures r.Ok? ==> MinInt64 <= r.value <= MaxInt64
    ensures r.Ok? ==> ParseInt(s) == Some(r.value)
    ensures ParseInt(s).None? ==> r.Err?
  {
    match ParseInt(s)
    case None => Err("invalid syntax")
    case Some(v) => if v < MinInt64 || v > MaxInt64 then Err("value out of range") else Ok(v)
  }

  /** Atoi reads back what decimal formatting writes, for both signs. */
  lemma AtoiDecStr(n: nat)
    requires n <= MaxInt64
    ensures Atoi(DecStr(n)) == Ok(n)
    ensures Atoi(['-'] + DecStr(n)) == Ok(0 - n)
    ensures Atoi(['+'] + DecStr(n)) == Ok(n)
  {
    DecValStr(n);
    var d := DecStr(n);
    assert (['-'] + d)[1..] == d;
    assert (['+'] + d)[1..] == d;
    assert d[0] != '-' && d[0] != '+';
  }

  /** strconv.Itoa, and the %d verb of fmt: a minus sign for negatives, then the decimal digits. */
  function Itoa(n: int): (r: string)
  {
    if n < 0 then "-" + DecStr(-n) else DecStr(n)
  }

  /** Atoi reads back what Itoa writes. */
  lemma AtoiItoa(n: int)
    requires MinInt64 <= n <= MaxInt64
    ensures Atoi(Itoa(n)) == Ok(n)
  {
    if n < 0 {
      var d := DecStr(-n);
      DecValStr(-n);
      assert Itoa(n) == ['-'] + d;
      assert (['-'] + d)[1..] == d;
    } else {
      AtoiDecStr(n);
    }
  }
}
