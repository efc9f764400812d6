/**
 * The indicator lights and buttons of 2025 day 10 as 16-bit masks: a state
 * "[.##.]" sets bit i for a '#' at position i, a button "(0,2)" sets the bits
 * it lists, and pressing a button XORs its mask into the state.
 */
module Equation {
  import opened Wrappers
  import opened Decimal

  type State = bv16
  type Button = bv16

  /** 1 << i in 16 bits: shifts of 16 or more leave nothing. */
  function Shl(i: int): bv16
  {
    if i == 0 then 0x1 else if i == 1 then 0x2 else if i == 2 then 0x4 else if i == 3 then 0x8
    else if i == 4 then 0x10 else if i == 5 then 0x20 else if i == 6 then 0x40 else if i == 7 then 0x80
    else if i == 8 then 0x100 else if i == 9 then 0x200 else if i == 10 then 0x400 else if i == 11 then 0x800
    else if i == 12 then 0x1000 else if i == 13 then 0x2000 else if i == 14 then 0x4000 else if i == 15 then 0x8000
    else 0
  }

  lemma ShlIsShift(i: nat)
    requires i < 16
    ensures Shl(i) == (1 as bv16) << i
  {
    if i == 0 {} else if i == 1 {} else if i == 2 {} else if i == 3 {}
    else if i == 4 {} else if i == 5 {} else if i == 6 {} else if i == 7 {}
    else if i == 8 {} else if i == 9 {} else if i == 10 {} else if i == 11 {}
    else if i == 12 {} else if i == 13 {} else if i == 14 {} else {}
  }

  /** Shl gives one distinct bit for each position below 16. */
  lemma ShlBits(i: int, j: int)
    ensures 0 <= i < 16 ==> Shl(i) != 0 && Shl(i) & (Shl(i) - 1) == 0
    ensures !(0 <= i < 16) ==> Shl(i) == 0
    ensures i != j ==> Shl(i) & Shl(j) == 0
  {
  }

  /** Bit i of st. */
  predicate Bit(st: bv16, i: int)
  {
    0 <= i < 16 && st & Shl(i) != 0
  }

  lemma SetBit(st: bv16, i: int, j: int)
    ensures Bit(st | Shl(i), j) <==> Bit(st, j) || (j == i && 0 <= i < 16)
  {
    ShlBits(i, j);
    if 0 <= j < 16 {
      OrMask(st, Shl(i), Shl(j));
    }
  }

  lemma OrMask(st: bv16, m: bv16, n: bv16)
    requires n != 0 && n & (n - 1) == 0 && (m & n == 0 || m == n)
    ensures ((st | m) & n != 0) <==> (st & n != 0 || m == n)
  {
  }

  lemma XorBit(st: bv16, b: bv16, j: int)
    ensures Bit(st ^ b, j) <==> Bit(st, j) != Bit(b, j)
  {
    ShlBits(j, j);
    if 0 <= j < 16 {
      XorMask(st, b, Shl(j));
    }
  }

  lemma XorMask(st: bv16, b: bv16, n: bv16)
    requires n != 0 && n & (n - 1) == 0
    ensures ((st ^ b) & n != 0) <==> ((st & n != 0) != (b & n != 0))
  {
  }

  /** s[1 : len(s)-1]: panics unless there are two characters to strip. */
  function Inner(s: string): (r: Result<string>)
    ensures r.Ok? <==> |s| >= 2
    ensures r.Ok? ==> [s[0]] + r.value + [s[|s| - 1]] == s
  {
    if |s| < 2 then Err("slice bounds out of range") else Ok(s[1..|s| - 1])
  }

  /**
   * NewState: bit i is set exactly when character i inside the brackets is '#'
   * (positions from 16 on fall outside the mask), and the count is the
   * number of characters inside.
   */
  method NewState(s: string) returns (r: Result<(State, int)>)
    ensures r.Ok? <==> |s| >= 2
    ensures r.Ok? ==> r.value.1 == |s| - 2
    ensures r.Ok? ==> forall j :: 0 <= j < 16 ==> (Bit(r.value.0, j) <==> j < |s| - 2 && s[j + 1] == '#')
  {
    var inner := Inner(s);
    if inner.Err? {
      return Err(inner.error);
    }
    var c := inner.value;
    var st: State := 0;
    for i := 0 to |c|
      invariant forall j :: 0 <= j < 16 ==> (Bit(st, j) <==> j < i && c[j] == '#')
    {
      if c[i] == '#' {
        forall j | 0 <= j < 16 { SetBit(st, i, j); }
        st := st | Shl(i);
      }
    }
    return Ok((st, |c|));
  }

  /** String(numBits): '#' for a set bit and '.' otherwise, in brackets; a negative length panics. */
  function Render(st: State, numBits: int): (r: Result<string>)
    ensures r.Ok? <==> numBits >= 0
    ensures r.Ok? ==> |r.value| == numBits + 2 && r.value[0] == '[' && r.value[numBits + 1] == ']'
    ensures r.Ok? ==> forall i :: 0 <= i < numBits ==> r.value[i + 1] == (if Bit(st, i) then '#' else '.')
  {
    if numBits < 0 then Err("makeslice: len out of range")
    else Ok(['['] + seq(numBits, i => if Bit(st, i) then '#' else '.') + [']'])
  }

  predicate IsLights(c: string) { forall i :: 0 <= i < |c| ==> c[i] == '.' || c[i] == '#' }

  /** String inverts NewState for up to 16 lights. */
  lemma RenderNewState(s: string, st: State)
    requires |s| >= 2 && s[0] == '[' && s[|s| - 1] == ']' && IsLights(s[1..|s| - 1]) && |s| - 2 <= 16
    requires forall j :: 0 <= j < 16 ==> (Bit(st, j) <==> j < |s| - 2 && s[j + 1] == '#')
    ensures Render(st, |s| - 2) == Ok(s)
  {
    var r := Render(st, |s| - 2).value;
    forall i | 0 <= i < |s|
      ensures r[i] == s[i]
    {
      if 0 < i < |s| - 1 {
        assert s[i] == s[1..|s| - 1][i - 1];
      }
    }
    assert r == s;
  }

  /** NewState reads back the first numBits bits of what String writes. */
  lemma NewStateRender(st: State, numBits: int, j: int)
    requires 0 <= numBits && 0 <= j < 16
    ensures var s := Render(st, numBits).value;
      (j < |s| - 2 && s[j + 1] == '#') <==> (j < numBits && Bit(st, j))
  {
  }

  /** PressButton: the XOR of the state with the button. */
  function PressButton(st: State, b: Button): (r: State)
    ensures r ^ b == st && r ^ st == b
  {
    st ^ b
  }

  /** Pressing a button flips exactly the lights the button lists. */
  lemma PressFlips(st: State, b: Button, j: int)
    ensures Bit(PressButton(st, b), j) <==> Bit(st, j) != Bit(b, j)
  {
    XorBit(st, b, j);
  }

  /** Pressing a button twice restores the state. */
  lemma PressTwice(st: State, a: Button)
    ensures PressButton(PressButton(st, a), a) == st
  {
    XorTwice(st, a);
  }

  /** The order of two presses does not matter. */
  lemma PressCommutes(st: State, a: Button, b: Button)
    ensures PressButton(PressButton(st, a), b) == PressButton(PressButton(st, b), a)
  {
    XorSwap(st, a, b);
    assert PressButton(PressButton(st, a), b) == (st ^ a) ^ b;
    assert PressButton(PressButton(st, b), a) == (st ^ b) ^ a;
  }

  lemma XorTwice(x: bv16, a: bv16)
    ensures (x ^ a) ^ a == x
  {
  }

  lemma XorSwap(x: bv16, a: bv16, b: bv16)
    ensures (x ^ a) ^ b == (x ^ b) ^ a
  {
  }

  /** A button holding every index below numBits inverts every shown light. */
  lemma PressAllInverts(st: State, b: Button, numBits: int, i: int)
    requires 0 <= i < numBits <= 16
    requires forall j: nat :: j < numBits ==> Bit(b, j)
    ensures Render(PressButton(st, b), numBits).value[i + 1]
            == (if Render(st, numBits).value[i + 1] == '#' then '.' else '#')
  {
    PressFlips(st, b, i);
  }

  // ---------------------------------------------------- button parsing

  /** strings.Split(s, ","): the pieces between commas, one more than there are commas. */
  function Split(s: string): (r: seq<string>)
    ensures |r| >= 1
    ensures forall k :: 0 <= k < |r| ==> ',' !in r[k]
  {
    if ',' !in s then [s]
    else
      var i := FirstComma(s);
      [s[..i]] + Split(s[i + 1..])
  }

  function FirstComma(s: string): (i: nat)
    requires ',' in s
    ensures i < |s| && s[i] == ',' && ',' !in s[..i]
  {
    if s[0] == ',' then 0 else 1 + FirstComma(s[1..])
  }

  function Join(parts: seq<string>): string
    requires |parts| >= 1
  {
    if |parts| == 1 then parts[0] else parts[0] + [','] + Join(parts[1..])
  }

  /** Split and Join with ',' are inverse. */
  lemma {:induction false} JoinSplit(s: string)
    ensures Join(Split(s)) == s
    decreases |s|
  {
    if ',' in s {
      var i := FirstComma(s);
      var rest := Split(s[i + 1..]);
      assert Split(s) == [s[..i]] + rest;
      assert ([s[..i]] + rest)[1..] == rest;
      JoinSplit(s[i + 1..]);
      assert Join(Split(s)) == s[..i] + [','] + s[i + 1..];
      assert s == s[..i] + [','] + s[i + 1..];
    }
  }

  /**
   * unicode.IsSpace: the six ASCII spaces, NEL and NO-BREAK SPACE, and the
   * other characters Unicode gives the White_Space property.
   */
  predicate IsSpace(c: char)
  {
    c == ' ' || c == '\t' || c == '\n' || c == '\r' || c == '\U{0B}' || c == '\U{0C}'
    || c == '\U{85}' || c == '\U{A0}' || c == '\U{1680}' || '\U{2000}' <= c <= '\U{200A}'
    || c == '\U{2028}' || c == '\U{2029}' || c == '\U{202F}' || c == '\U{205F}' || c == '\U{3000}'
  }

  /** strings.TrimSpace: drops the white space at both ends. */
  function TrimSpace(s: string): (r: string)
    ensures |r| <= |s|
    ensures |r| > 0 ==> !IsSpace(r[0]) && !IsSpace(r[|r| - 1])
    decreases |s|
  {
    if |s| > 0 && IsSpace(s[0]) then TrimSpace(s[1..])
    else if |s| > 0 && IsSpace(s[|s| - 1]) then TrimSpace(s[..|s| - 1])
    else s
  }

  /** s[i..j] is what is left once white space alone is cut from both ends of s. */
  predicate CutsSpace(s: string, i: int, j: int)
  {
    0 <= i <= j <= |s| && forall k :: 0 <= k < |s| && (k < i || j <= k) ==> IsSpace(s[k])
  }

  lemma CutsFront(s: string, i: int, j: int)
    requires |s| > 0 && IsSpace(s[0]) && CutsSpace(s[1..], i, j)
    ensures CutsSpace(s, i + 1, j + 1) && s[1..][i..j] == s[i + 1..j + 1]
  {
    forall k | 0 < k < |s| ensures s[k] == s[1..][k - 1] { }
  }

  lemma CutsBack(s: string, i: int, j: int)
    requires |s| > 0 && IsSpace(s[|s| - 1]) && CutsSpace(s[..|s| - 1], i, j)
    ensures CutsSpace(s, i, j) && s[..|s| - 1][i..j] == s[i..j]
  {
    forall k | 0 <= k < |s| - 1 ensures s[k] == s[..|s| - 1][k] { }
  }

  /**
   * TrimSpace keeps a middle slice of s and everything cut off on either side
   * is white space; with TrimSpace's own ensures, what is kept neither starts
   * nor ends with white space, so nothing more could be cut.
   */
  lemma {:induction false} TrimSpaceMeans(s: string)
    ensures exists i, j :: CutsSpace(s, i, j) && TrimSpace(s) == s[i..j]
    decreases |s|
  {
    if |s| > 0 && IsSpace(s[0]) {
      TrimSpaceMeans(s[1..]);
      var i, j :| CutsSpace(s[1..], i, j) && TrimSpace(s[1..]) == s[1..][i..j];
      CutsFront(s, i, j);
    } else if |s| > 0 && IsSpace(s[|s| - 1]) {
      TrimSpaceMeans(s[..|s| - 1]);
      var i, j :| CutsSpace(s[..|s| - 1], i, j) && TrimSpace(s[..|s| - 1]) == s[..|s| - 1][i..j];
      CutsBack(s, i, j);
    } else {
      assert CutsSpace(s, 0, |s|) && s[0..|s|] == s;
    }
  }

  /** The length of the run of digits at the start of s. */
  function DigitRun(s: string): (n: nat)
    ensures n <= |s| && IsDigits(s[..n]) && (n < |s| ==> !IsDigit(s[n]))
  {
    if |s| > 0 && IsDigit(s[0]) then 1 + DigitRun(s[1..]) else 0
  }

  /**
   * fmt.Sscanf(part, "%d", &idx) with idx starting at 0: an optional sign and
   * the digits after it; when no digit follows, idx stays 0.
   */
  function ScanIndex(part: string): int
  {
    var neg := |part| > 0 && part[0] == '-';
    var body := if |part| > 0 && (part[0] == '-' || part[0] == '+') then part[1..] else part;
    var n := DigitRun(body);
    if n == 0 then 0 else if neg then 0 - DecVal(body[..n]) else DecVal(body[..n])
  }

  /** The indices a button string lists. */
  function ButtonIndices(s: string): seq<int>
    requires |s| >= 2
  {
    var parts := Split(s[1..|s| - 1]);
    seq(|parts|, k requires 0 <= k < |parts| => ScanIndex(TrimSpace(parts[k])))
  }

  /**
   * NewButton: bit k is set exactly when k is listed. A negative index is a
   * shift by a negative count, which panics.
   */
  method NewButton(s: string) returns (r: Result<Button>)
    ensures r.Ok? <==> |s| >= 2 && forall k :: 0 <= k < |ButtonIndices(s)| ==> ButtonIndices(s)[k] >= 0
    ensures r.Ok? ==> forall j :: 0 <= j < 16 ==> (Bit(r.value, j) <==> j in ButtonIndices(s))
  {
    var inner := Inner(s);
    if inner.Err? {
      return Err(inner.error);
    }
    var indices := ScanIndices(s, inner.value);
    r := MaskOf(indices);
  }

  /** The first loop of NewButton: the index read from each comma-separated part. */
  method ScanIndices(s: string, inner: string) returns (indices: seq<int>)
    requires |s| >= 2 && inner == s[1..|s| - 1]
    ensures indices == ButtonIndices(s)
  {
    var parts := Split(inner);
    indices := [];
    for k := 0 to |parts|
      invariant indices == ButtonIndices(s)[..k]
    {
      indices := indices + [ScanIndex(TrimSpace(parts[k]))];
    }
  }

  /** The second loop of NewButton: b |= 1 << idx for each index, in order. */
  method MaskOf(indices: seq<int>) returns (r: Result<Button>)
    ensures r.Ok? <==> forall k :: 0 <= k < |indices| ==> indices[k] >= 0
    ensures r.Ok? ==> forall j :: 0 <= j < 16 ==> (Bit(r.value, j) <==> j in indices)
  {
    var b: Button := 0;
    for k := 0 to |indices|
      invariant forall m :: 0 <= m < k ==> indices[m] >= 0
      invariant forall j :: 0 <= j < 16 ==> (Bit(b, j) <==> j in indices[..k])
    {
      if indices[k] < 0 {
        return Err("negative shift amount");
      }
      forall j | 0 <= j < 16 { SetBit(b, indices[k], j); }
      assert indices[..k + 1] == indices[..k] + [indices[k]];
      b := b | Shl(indices[k]);
    }
    assert indices[..|indices|] == indices;
    return Ok(b);
  }
}
