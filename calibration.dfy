/**
 * The calibration equations of 2024 day 7: a total and a list of numbers,
 * and the question whether some choice of operators between the numbers,
 * evaluated strictly left to right, gives the total. The operators are the
 * characters '0' (add), '1' (multiply) and '2' (concatenate the decimal
 * spellings); Solve tries the operator strings in the order of their
 * base-3 value.
 */
module Calibration {
  import opened Wrappers
  import opened Decimal
  import GoMath

  const Add: char := '0'
  const Multiply: char := '1'
  const Or: char := '2'

  predicate IsOperator(c: char) { c == Add || c == Multiply || c == Or }

  predicate AllOperators(ops: seq<char>) { forall k :: 0 <= k < |ops| ==> IsOperator(ops[k]) }

  // ------------------------------------------------------------ evaluation

  /** The value of a non-empty run of decimal digits, None when any character is not a digit. */
  function ReadDigits(s: string): Option<nat>
  {
    if |s| == 0 || !IsDigit(s[|s| - 1]) then None
    else if |s| == 1 then Some(DigitVal(s[0]))
    else
      match ReadDigits(s[..|s| - 1])
      case None => None
      case Some(v) => Some(v * 10 + DigitVal(s[|s| - 1]))
  }

  /** big.Int SetString in base 10: an optional sign and at least one digit. */
  function ParseBig(s: string): Option<int>
  {
    var body := if |s| > 0 && (s[0] == '-' || s[0] == '+') then s[1..] else s;
    match ReadDigits(body)
    case None => None
    case Some(v) => if s[0] == '-' then Some(0 - v) else Some(v)
  }

  /** The Or operator as written: print both values with %s%d and read the text back. */
  function Joined(a: int, b: int): Option<int>
  {
    ParseBig(GoMath.Itoa(a) + GoMath.Itoa(b))
  }

  /** x with the decimal digits of b written after it. */
  function Shifted(x: nat, b: nat): nat
  {
    x * Pow10(|DecStr(b)|) + b
  }

  /**
   * The Or operator in numbers: b's digits are appended to a's and a's sign
   * carries over; a negative b has no value.
   */
  function Concat(a: int, b: int): Option<int>
  {
    if b < 0 then None
    else if a >= 0 then Some(Shifted(a, b))
    else Some(0 - Shifted(0 - a, b))
  }

  /** A run of digits reads back as its decimal value. */
  lemma {:induction false} ReadDigitsVal(s: string)
    requires IsDigits(s) && |s| >= 1
    ensures ReadDigits(s) == Some(DecVal(s))
  {
    if |s| > 1 {
      ReadDigitsVal(s[..|s| - 1]);
      assert DecVal(s[..|s| - 1][..0]) == 0;
    } else {
      assert s[..0] == [];
    }
  }

  /** Any character that is not a digit spoils the run. */
  lemma {:induction false} ReadDigitsBad(s: string, p: nat)
    requires p < |s| && !IsDigit(s[p])
    ensures ReadDigits(s) == None
  {
    if p < |s| - 1 {
      ReadDigitsBad(s[..|s| - 1], p);
    }
  }

  /** Plain digits read back as their value. */
  lemma ParseDigits(s: string)
    requires IsDigits(s) && |s| >= 1
    ensures ParseBig(s) == Some(DecVal(s))
  {
    assert IsDigit(s[0]);
    ReadDigitsVal(s);
  }

  /** A minus sign before digits reads back as the negated value. */
  lemma ParseMinus(t: string)
    requires IsDigits(t) && |t| >= 1
    ensures ParseBig("-" + t) == Some(0 - DecVal(t))
  {
    assert ("-" + t)[1..] == t;
    ReadDigitsVal(t);
  }

  /** A minus sign anywhere after the first character does not parse. */
  lemma ParseInnerMinus(s: string, p: nat)
    requires 1 <= p < |s| && s[p] == '-'
    ensures ParseBig(s) == None
  {
    if s[0] == '-' || s[0] == '+' {
      ReadDigitsBad(s[1..], p - 1);
    } else {
      ReadDigitsBad(s, p);
    }
  }

  /** Appending b's digits when b is negative: the second minus sign spoils the text. */
  lemma JoinedNegative(a: int, b: int)
    requires b < 0
    ensures Joined(a, b) == None
  {
    var s := GoMath.Itoa(a) + GoMath.Itoa(b);
    var p := |GoMath.Itoa(a)|;
    assert s[p] == '-';
    ParseInnerMinus(s, p);
  }

  /** The digits of x followed by the digits of b spell x shifted left by b's width, plus b. */
  lemma JoinedValue(x: nat, b: nat)
    ensures IsDigits(DecStr(x) + DecStr(b)) && |DecStr(x) + DecStr(b)| >= 1
    ensures DecVal(DecStr(x) + DecStr(b)) == Shifted(x, b)
  {
    DecValAppend(DecStr(x), DecStr(b));
    DecValStr(x);
    DecValStr(b);
  }

  /** Two non-negative values: the joined text reads back as the shifted value. */
  lemma JoinedNatural(a: int, b: int)
    requires a >= 0 && b >= 0
    ensures Joined(a, b) == Some(Shifted(a, b))
  {
    JoinedValue(a, b);
    ParseDigits(DecStr(a) + DecStr(b));
  }

  /** For a negative first value the text is one minus sign, then both digit strings. */
  lemma SignedText(a: int, b: int)
    requires a < 0 && b >= 0
    ensures Joined(a, b) == ParseBig("-" + (DecStr(0 - a) + DecStr(b)))
  {
    assert GoMath.Itoa(a) + GoMath.Itoa(b) == "-" + (DecStr(0 - a) + DecStr(b));
  }

  /** A negative first value: the text reads back as minus both digit strings. */
  lemma JoinedSignedText(a: int, b: int)
    requires a < 0 && b >= 0
    ensures Joined(a, b) == Some(0 - DecVal(DecStr(0 - a) + DecStr(b)))
  {
    var t := DecStr(0 - a) + DecStr(b);
    SignedText(a, b);
    DigitsAppend(DecStr(0 - a), DecStr(b));
    ParseMinus(t);
  }

  lemma NegatedShift(p: Option<int>, x: nat, b: nat)
    requires p == Some(0 - DecVal(DecStr(x) + DecStr(b)))
    ensures p == Some(0 - Shifted(x, b))
  {
    JoinedValue(x, b);
  }

  /**
   * Printing two values side by side and parsing the text back is digit
   * shifting with the first value's sign; it fails exactly when the second
   * value is negative.
   */
  lemma ConcatText(a: int, b: int)
    ensures Joined(a, b) == Concat(a, b)
  {
    if b < 0 {
      JoinedNegative(a, b);
    } else if a >= 0 {
      JoinedNatural(a, b);
    } else {
      JoinedSignedText(a, b);
      NegatedShift(Joined(a, b), 0 - a, b);
    }
  }

  /** One step of the left-to-right evaluation. */
  function Apply(acc: int, op: char, n: int): Option<int>
    requires IsOperator(op)
  {
    if op == Add then Some(acc + n)
    else if op == Multiply then Some(acc * n)
    else Concat(acc, n)
  }

  /** The running result after the first k operators: None once a concatenation fails. */
  function EvalPrefix(numbers: seq<int>, ops: seq<char>, k: nat): Option<int>
    requires |numbers| >= 1 && k <= |ops| == |numbers| - 1 && AllOperators(ops)
  {
    if k == 0 then Some(numbers[0])
    else
      match EvalPrefix(numbers, ops, k - 1)
      case None => None
      case Some(acc) => Apply(acc, ops[k - 1], numbers[k])
  }

  /** The value of the whole expression, ignoring precedence. */
  function Evaluate(numbers: seq<int>, ops: seq<char>): Option<int>
    requires |numbers| >= 1 && |ops| == |numbers| - 1 && AllOperators(ops)
  {
    EvalPrefix(numbers, ops, |ops|)
  }

  /** The first character that is not an operator, if any (convertOperatorsToSymbols). */
  function FirstBad(ops: seq<char>): (r: Option<char>)
    ensures r.None? <==> AllOperators(ops)
    ensures r.Some? ==> r.value in ops && !IsOperator(r.value)
  {
    if ops == [] then None
    else if !IsOperator(ops[0]) then Some(ops[0])
    else
      var r := FirstBad(ops[1..]);
      assert AllOperators(ops[1..]) ==> AllOperators(ops) by {
        if AllOperators(ops[1..]) {
          forall k | 0 <= k < |ops| ensures IsOperator(ops[k]) {
            if k > 0 { assert ops[k] == ops[1..][k - 1]; }
          }
        }
      }
      r
  }

  /** What Validate returns for a total, numbers and operators. */
  function Check(total: int, numbers: seq<int>, ops: seq<char>): (r: Result<bool>)
    ensures |ops| != |numbers| - 1 ==> r.Err?
    ensures r == Ok(true) ==> |numbers| >= 1 && |ops| == |numbers| - 1 && AllOperators(ops) && Evaluate(numbers, ops) == Some(total)
  {
    match FirstBad(ops)
    case Some(c) => Err("unknown operator: " + [c])
    case None =>
      if |ops| != |numbers| - 1 then Err("invalid number of operators")
      else
        match Evaluate(numbers, ops)
        case None => Err("failed to set string for big.Int")
        case Some(v) => Ok(v == total)
  }

  // ------------------------------------------------------------ operator strings

  function Pow3(k: nat): (r: nat)
    ensures r >= 1
  {
    if k == 0 then 1 else 3 * Pow3(k - 1)
  }

  function Zeros(k: nat): (r: string)
    ensures |r| == k && forall t :: 0 <= t < k ==> r[t] == '0'
  {
    seq(k, _ => '0')
  }

  /** The base-3 digits of n without leading zeros: "" for n <= 0. */
  function Digits3(n: int): string
    decreases n
  {
    if n <= 0 then "" else Digits3(n / 3) + [DigitChar(n % 3)]
  }

  /**
   * fmt.Sprintf("%0*s", width, s): zeros on the left up to width characters;
   * a negative width sets the minus flag, which pads with spaces on the right
   * up to -width characters instead.
   */
  function ZeroPad(width: int, s: string): (r: string)
    ensures |s| >= width && |s| >= -width ==> r == s
    ensures |s| < width ==> |r| == width && r[width - |s|..] == s && forall t :: 0 <= t < width - |s| ==> r[t] == '0'
    ensures |s| < -width ==> |r| == -width && r[..|s|] == s && forall t :: |s| <= t < -width ==> r[t] == ' '
  {
    if width < 0 then
      if |s| < -width then s + seq(-width - |s|, _ => ' ') else s
    else if |s| < width then Zeros(width - |s|) + s
    else s
  }

  /** toBase3 as a value: the base-3 digits of n, padded by ZeroPad to length characters. */
  function Base3(n: int, length: int): string
  {
    if n == 0 then ZeroPad(length, "0")
    else
      var digits := Digits3(n);
      if |digits| < length then ZeroPad(length, digits) else digits
  }

  /** The k digits of n mod 3^k, most significant first. */
  function Fixed3(n: nat, k: nat): (r: string)
    ensures |r| == k && AllOperators(r)
  {
    if k == 0 then "" else Fixed3(n / 3, k - 1) + [DigitChar(n % 3)]
  }

  /** The value of an operator string read as base-3 digits. */
  function Val3(s: string): nat
    requires AllOperators(s)
  {
    if s == [] then 0 else Val3(s[..|s| - 1]) * 3 + DigitVal(s[|s| - 1])
  }

  lemma {:induction false} Digits3Short(n: nat, k: nat)
    requires n < Pow3(k)
    ensures |Digits3(n)| <= k
  {
    if n > 0 { Digits3Short(n / 3, k - 1); }
  }

  lemma {:induction false} Fixed3Zero(k: nat)
    ensures Fixed3(0, k) == Zeros(k)
  {
    if k > 0 { Fixed3Zero(k - 1); }
  }

  /** The k-digit spelling is the unpadded digits with zeros in front. */
  lemma {:induction false} FixedPadded(n: nat, k: nat)
    requires |Digits3(n)| <= k
    ensures Fixed3(n, k) == Zeros(k - |Digits3(n)|) + Digits3(n)
  {
    if n == 0 {
      Fixed3Zero(k);
    } else {
      var d := Digits3(n / 3);
      var c := [DigitChar(n % 3)];
      assert Digits3(n) == d + c;
      FixedPadded(n / 3, k - 1);
      assert Fixed3(n, k) == (Zeros(k - 1 - |d|) + d) + c;
      assert Zeros(k - 1 - |d|) == Zeros(k - |Digits3(n)|);
    }
  }

  /** Below 3^k, toBase3 gives exactly the k-digit base-3 spelling. */
  lemma Base3Fixed(n: nat, k: nat)
    requires k >= 1 && n < Pow3(k)
    ensures Base3(n, k) == Fixed3(n, k)
  {
    if n == 0 {
      Fixed3Zero(k);
      Fixed3Zero(k - 1);
      assert Fixed3(0, k) == Zeros(k - 1) + "0";
    } else {
      Digits3Short(n, k);
      FixedPadded(n, k);
      assert Zeros(0) + Digits3(n) == Digits3(n);
    }
  }

  /** Every operator string of length k is the k-digit spelling of its own value, which is below 3^k. */
  lemma {:induction false} Fixed3Val(s: string)
    requires AllOperators(s)
    ensures Val3(s) < Pow3(|s|) && Fixed3(Val3(s), |s|) == s
  {
    if s != [] {
      var p := s[..|s| - 1];
      Fixed3Val(p);
      var d := DigitVal(s[|s| - 1]);
      assert (Val3(p) * 3 + d) / 3 == Val3(p) && (Val3(p) * 3 + d) % 3 == d;
      DigitCharVal(s[|s| - 1]);
      assert s == p + [s[|s| - 1]];
    }
  }

  /**
   * toBase3: collect the remainders of repeated division by three, then
   * zero-fill to length.
   */
  method ToBase3(n: int, length: int) returns (digits: string)
    ensures digits == Base3(n, length)
  {
    if n == 0 {
      return ZeroPad(length, "0");
    }
    digits := "";
    var m := n;
    while m > 0
      invariant (if m > 0 then Digits3(m) else "") + digits == Digits3(n)
    {
      assert Digits3(m) == Digits3(m / 3) + [DigitChar(m % 3)];
      digits := [DigitChar(m % 3)] + digits;
      m := m / 3;
    }
    if |digits| < length {
      digits := ZeroPad(length, digits);
    }
  }

  // ------------------------------------------------------------ the equation object

  /** Some operator string makes the numbers evaluate to the total. */
  ghost predicate Solvable(total: int, numbers: seq<int>)
  {
    exists ops :: |numbers| >= 1 && |ops| == |numbers| - 1 && AllOperators(ops) && Evaluate(numbers, ops) == Some(total)
  }

  class Equation {
    var total: int
    var numbers: seq<int>
    var operators: seq<char>
    var valid: bool
    var solved: bool

    /** NewEquation: not yet valid, not yet solved, no operators. */
    constructor (total: int, numbers: seq<int>)
      ensures this.total == total && this.numbers == numbers
      ensures operators == [] && !valid && !solved
    {
      this.total := total;
      this.numbers := numbers;
      operators := [];
      valid := false;
      solved := false;
    }

    /**
     * Validate: reject unknown operator characters, then a count other than
     * one fewer than the numbers, then evaluate left to right. A match
     * records the operators and marks the equation valid; anything else
     * leaves the object as it was.
     */
    method Validate(ops: seq<char>) returns (r: Result<bool>)
      modifies this
      ensures r == Check(total, numbers, ops)
      ensures total == old(total) && numbers == old(numbers) && solved == old(solved)
      ensures r == Ok(true) ==> valid && operators == ops
      ensures r != Ok(true) ==> valid == old(valid) && operators == old(operators)
    {
      var bad := FirstBad(ops);
      if bad.Some? {
        return Err("unknown operator: " + [bad.value]);
      }
      if |ops| != |numbers| - 1 {
        return Err("invalid number of operators");
      }
      assert AllOperators(ops) && |numbers| >= 1;
      var result := numbers[0];
      var i := 0;
      while i < |ops|
        invariant unchanged(this)
        invariant 0 <= i <= |ops| && EvalPrefix(numbers, ops, i) == Some(result)
      {
        var operator := ops[i];
        EvalStep(numbers, ops, i, result);
        if operator == Add {
          result := result + numbers[i + 1];
        } else if operator == Multiply {
          result := result * numbers[i + 1];
        } else {
          var joined := Joined(result, numbers[i + 1]);
          ConcatText(result, numbers[i + 1]);
          if joined.None? {
            FailStays(numbers, ops, i + 1);
            CheckFails(total, numbers, ops);
            return Err("failed to set string for big.Int");
          }
          result := joined.value;
        }
        i := i + 1;
      }
      CheckValue(total, numbers, ops, result);
      if result == total {
        valid := true;
        operators := ops;
        return Ok(true);
      }
      return Ok(false);
    }

    /**
     * Solve: try the 3^(n-1) operator strings in order and stop at the
     * first that validates. On Ok the answer is exactly whether the
     * equation can be made true; a single number is an error, and so is a
     * concatenation that cannot be read back.
     */
    method Solve() returns (r: Result<bool>)
      modifies this
      ensures total == old(total) && numbers == old(numbers)
      ensures |numbers| == 1 ==> r == Err("no operators needed for a single number")
      ensures r.Ok? ==> (r.value <==> Solvable(total, numbers)) && solved == r.value
      ensures r == Ok(true) ==> valid && Check(total, numbers, operators) == Ok(true)
      ensures (forall k :: 1 <= k < |numbers| ==> numbers[k] >= 0) && |numbers| != 1 ==> r.Ok?
    {
      if |numbers| - 1 == 0 {
        return Err("no operators needed for a single number");
      }
      if |numbers| == 0 {
        // 3 to the power -1 truncates to zero operator sets.
        solved := false;
        return Ok(false);
      }
      var len := |numbers| - 1;
      var count := Pow3(len);
      var i := 0;
      while i < count
        invariant 0 <= i <= count && total == old(total) && numbers == old(numbers)
        invariant Tried(total, numbers, len, i)
      {
        var operatorSet := ToBase3(i, len);
        Base3Fixed(i, len);
        var v := Validate(operatorSet);
        if v.Err? {
          NoError(total, numbers, operatorSet);
          return v;
        }
        if v.value {
          solved := true;
          FoundSolvable(total, numbers, operatorSet);
          return Ok(true);
        }
        TriedMore(total, numbers, i);
        i := i + 1;
      }
      solved := false;
      NoneSolvable(total, numbers);
      return Ok(false);
    }
  }

  /** None of the first i operator strings, in base-3 order, makes the equation true. */
  ghost predicate Tried(total: int, numbers: seq<int>, len: nat, i: nat)
    requires |numbers| >= 1 && len == |numbers| - 1
  {
    forall j: nat :: j < i ==> Evaluate(numbers, Fixed3(j, len)) != Some(total)
  }

  lemma TriedMore(total: int, numbers: seq<int>, i: nat)
    requires |numbers| >= 1 && Tried(total, numbers, |numbers| - 1, i)
    requires Check(total, numbers, Fixed3(i, |numbers| - 1)) == Ok(false)
    ensures Tried(total, numbers, |numbers| - 1, i + 1)
  {
  }

  /** An operator string that was tried does not work. */
  lemma NotWitness(total: int, numbers: seq<int>, ops: seq<char>)
    requires |numbers| >= 1 && Tried(total, numbers, |numbers| - 1, Pow3(|numbers| - 1))
    requires |ops| == |numbers| - 1 && AllOperators(ops)
    ensures Evaluate(numbers, ops) != Some(total)
  {
    Fixed3Val(ops);
    var j: nat := Val3(ops);
    assert Evaluate(numbers, Fixed3(j, |numbers| - 1)) != Some(total);
  }

  /** Having tried all 3^(n-1) strings without success, no operator string works. */
  lemma NoneSolvable(total: int, numbers: seq<int>)
    requires |numbers| >= 1 && Tried(total, numbers, |numbers| - 1, Pow3(|numbers| - 1))
    ensures !Solvable(total, numbers)
  {
    forall ops | |ops| == |numbers| - 1 && AllOperators(ops)
      ensures Evaluate(numbers, ops) != Some(total)
    {
      NotWitness(total, numbers, ops);
    }
  }

  /** A string that validates is a witness. */
  lemma FoundSolvable(total: int, numbers: seq<int>, ops: seq<char>)
    requires Check(total, numbers, ops) == Ok(true)
    ensures Solvable(total, numbers)
  {
  }

  /** With no negative number after the first, a well-formed operator string never errs. */
  lemma NoError(total: int, numbers: seq<int>, ops: seq<char>)
    requires |numbers| >= 1 && |ops| == |numbers| - 1 && AllOperators(ops)
    requires Check(total, numbers, ops).Err?
    ensures exists k :: 1 <= k < |numbers| && numbers[k] < 0
  {
    if forall k :: 1 <= k < |numbers| ==> numbers[k] >= 0 {
      NoFailure(numbers, ops, |ops|);
    }
  }

  lemma CheckValue(total: int, numbers: seq<int>, ops: seq<char>, v: int)
    requires |numbers| >= 1 && |ops| == |numbers| - 1 && AllOperators(ops)
    requires Evaluate(numbers, ops) == Some(v)
    ensures Check(total, numbers, ops) == Ok(v == total)
  {
  }

  lemma CheckFails(total: int, numbers: seq<int>, ops: seq<char>)
    requires |numbers| >= 1 && |ops| == |numbers| - 1 && AllOperators(ops)
    requires Evaluate(numbers, ops) == None
    ensures Check(total, numbers, ops) == Err("failed to set string for big.Int")
  {
  }

  /** One more operator applied to the running result. */
  lemma EvalStep(numbers: seq<int>, ops: seq<char>, i: nat, acc: int)
    requires |numbers| >= 1 && i < |ops| == |numbers| - 1 && AllOperators(ops)
    requires EvalPrefix(numbers, ops, i) == Some(acc)
    ensures EvalPrefix(numbers, ops, i + 1) == Apply(acc, ops[i], numbers[i + 1])
  {
  }

  /** A failed concatenation fails the whole evaluation. */
  lemma {:induction false} FailStays(numbers: seq<int>, ops: seq<char>, k: nat)
    requires |numbers| >= 1 && k <= |ops| == |numbers| - 1 && AllOperators(ops)
    requires EvalPrefix(numbers, ops, k) == None
    ensures Evaluate(numbers, ops) == None
    decreases |ops| - k
  {
    if k < |ops| { FailStays(numbers, ops, k + 1); }
  }

  /** With no negative number after the first, the evaluation never fails. */
  lemma {:induction false} NoFailure(numbers: seq<int>, ops: seq<char>, k: nat)
    requires |numbers| >= 1 && k <= |ops| == |numbers| - 1 && AllOperators(ops)
    requires forall t :: 1 <= t < |numbers| ==> numbers[t] >= 0
    ensures EvalPrefix(numbers, ops, k).Some?
  {
    if k > 0 {
      NoFailure(numbers, ops, k - 1);
    }
  }

  /** Two lines of the worked example: 190 = 10 * 19, and 156 = 15 || 6. */
  lemma ExampleChecks()
    ensures Check(190, [10, 19], "1") == Ok(true)
    ensures Check(156, [15, 6], "2") == Ok(true)
    ensures Check(156, [15, 6], "0") == Ok(false)
  {
    assert Evaluate([15, 6], "2") == Concat(15, 6);
    assert Shifted(15, 6) == 156;
  }
}
