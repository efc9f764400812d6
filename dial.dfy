/**
 * The safe dial of 2025 day 1: a dial numbered 0..99 starts at 50 and is
 * turned left or right by the amounts read from the input lines. Solve
 * counts the turns that end on 0; Solve2 counts every click that points the
 * dial at 0, full turns included.
 */
module Dial {
  import opened Wrappers
  import opened GoMath
  import opened Decimal

  const DialSize: int := 100
  const Start: int := 50

  /** MoveRight: panics when either operand exceeds the dial size. */
  function MoveRight(current: int, increment: int): (r: Result<int>)
    ensures r.Ok? <==> current <= DialSize && increment <= DialSize
  {
    if current > DialSize || increment > DialSize then Err("MoveRight recieved an input larger than DIAL_SIZE")
    else Ok(GoRem(current + increment, DialSize))
  }

  /** MoveLeft: panics when either operand exceeds the dial size. */
  function MoveLeft(current: int, increment: int): (r: Result<int>)
    ensures r.Ok? <==> current <= DialSize && increment <= DialSize
  {
    if current > DialSize || increment > DialSize then Err("MoveLeft recieved an input larger than DIAL_SIZE")
    else Ok(GoRem(current - increment + DialSize, DialSize))
  }

  /** From a dial position, both moves land on the dial at the position the turn reaches. */
  lemma MoveOnDial(current: int, increment: int)
    requires 0 <= current < DialSize && 0 <= increment <= DialSize
    ensures MoveRight(current, increment).Ok? && 0 <= MoveRight(current, increment).value < DialSize
    ensures MoveRight(current, increment).value == (current + increment) % DialSize
    ensures MoveLeft(current, increment).Ok? && 0 <= MoveLeft(current, increment).value < DialSize
    ensures MoveLeft(current, increment).value == (current - increment) % DialSize
  {
    MoveRightOnDial(current, increment);
    MoveLeftOnDial(current, increment);
  }

  lemma MoveRightOnDial(current: int, increment: int)
    requires 0 <= current < DialSize && 0 <= increment <= DialSize
    ensures MoveRight(current, increment) == Ok((current + increment) % DialSize)
  {
    GoRemNonNegative(current + increment, DialSize);
  }

  lemma MoveLeftOnDial(current: int, increment: int)
    requires 0 <= current < DialSize && 0 <= increment <= DialSize
    ensures MoveLeft(current, increment) == Ok((current - increment) % DialSize)
  {
    GoRemNonNegative(current - increment + DialSize, DialSize);
    ShiftMod(current - increment);
  }

  lemma ShiftMod(x: int)
    ensures (x + DialSize) % DialSize == x % DialSize
  {
  }

  /** A full spin of 100 returns to the start. */
  lemma FullSpin(current: int)
    requires 0 <= current < DialSize
    ensures MoveRight(current, DialSize) == Ok(current) && MoveLeft(current, DialSize) == Ok(current)
  {
    MoveRightOnDial(current, DialSize);
    MoveLeftOnDial(current, DialSize);
    ShiftMod(current);
    ShiftMod(current - DialSize);
  }

  /** A left move undoes a right move of the same size. */
  lemma Undo(current: int, increment: int)
    requires 0 <= current < DialSize && 0 <= increment <= DialSize
    ensures MoveLeft(MoveRight(current, increment).value, increment) == Ok(current)
  {
    MoveRightOnDial(current, increment);
    var m := (current + increment) % DialSize;
    MoveLeftOnDial(m, increment);
    UndoMod(current, increment);
  }

  lemma UndoMod(c: int, k: int)
    requires 0 <= c < DialSize
    ensures ((c + k) % DialSize - k) % DialSize == c
  {
    var m := (c + k) % DialSize;
    var q := (c + k) / DialSize;
    assert c + k == q * DialSize + m;
    assert m - k == c - q * DialSize;
    ModMultiple(c, q);
  }

  lemma ModMultiple(c: int, q: int)
    requires 0 <= c < DialSize
    ensures (c - q * DialSize) % DialSize == c
  {
  }

  datatype Rotation = Rotation(direction: char, increment: int)

  /** A line is a direction character followed by a number; an empty line panics on line[0]. */
  function ParseLine(line: string): (r: Result<Rotation>)
    ensures r.Ok? <==> |line| > 0 && Atoi(line[1..]).Ok?
    ensures r.Ok? ==> r.value.direction == line[0] && Ok(r.value.increment) == Atoi(line[1..])
  {
    if |line| == 0 then Err("index out of range")
    else match Atoi(line[1..])
      case Err(e) => Err(e)
      case Ok(v) => Ok(Rotation(line[0], v))
  }

  /** The rotations of all lines, or the error of the first line that fails. */
  function ParseAll(lines: seq<string>): (r: Result<seq<Rotation>>)
    ensures r.Ok? <==> forall i :: 0 <= i < |lines| ==> ParseLine(lines[i]).Ok?
    ensures r.Ok? ==> |r.value| == |lines| && forall i :: 0 <= i < |lines| ==> Ok(r.value[i]) == ParseLine(lines[i])
  {
    if lines == [] then Ok([])
    else match ParseAll(lines[..|lines| - 1])
      case Err(e) => Err(e)
      case Ok(rs) =>
        match ParseLine(lines[|lines| - 1])
        case Err(e) => Err(e)
        case Ok(x) =>
          assert forall i :: 0 <= i < |lines| - 1 ==> lines[..|lines| - 1][i] == lines[i];
          Ok(rs + [x])
  }

  /** One turn of Solve: the increment is reduced to less than a full spin first. */
  function Turn(number: int, rot: Rotation): (r: int)
    requires -DialSize < number < DialSize
    ensures -DialSize < r < DialSize
  {
    var inc := GoRem(rot.increment, DialSize);
    if rot.direction == 'L' then MoveLeft(number, inc).value
    else if rot.direction == 'R' then MoveRight(number, inc).value
    else number
  }

  /** The dial position after all of rots. */
  function Position(rots: seq<Rotation>): (r: int)
    ensures -DialSize < r < DialSize
  {
    if rots == [] then Start else Turn(Position(rots[..|rots| - 1]), rots[|rots| - 1])
  }

  /** With no negative increment the dial never leaves 0..99. */
  lemma {:induction false} PositionOnDial(rots: seq<Rotation>)
    requires forall i :: 0 <= i < |rots| ==> rots[i].increment >= 0
    ensures 0 <= Position(rots) < DialSize
  {
    if rots != [] {
      var pre := rots[..|rots| - 1];
      PositionOnDial(pre);
      var inc := GoRem(rots[|rots| - 1].increment, DialSize);
      MoveOnDial(Position(pre), inc);
    }
  }

  /** How many of the turns in rots end on 0. */
  function Landings(rots: seq<Rotation>): nat
  {
    if rots == [] then 0
    else Landings(rots[..|rots| - 1]) + (if Position(rots) == 0 then 1 else 0)
  }

  lemma PrefixOfAppend<T>(s: seq<T>, x: T)
    ensures (s + [x])[..|s|] == s
  {
  }

  /** One more line parsed: the rotations so far grow by its rotation. */
  lemma ParseSnoc(lines: seq<string>, i: int, rots: seq<Rotation>, rot: Rotation)
    requires 0 <= i < |lines| && ParseAll(lines[..i]) == Ok(rots) && ParseLine(lines[i]) == Ok(rot)
    ensures ParseAll(lines[..i + 1]) == Ok(rots + [rot])
    ensures Position(rots + [rot]) == Turn(Position(rots), rot)
  {
    assert lines[..i + 1][..i] == lines[..i];
    PrefixOfAppend(rots, rot);
  }

  /** A line that does not parse makes the whole input fail. */
  lemma ParseFails(lines: seq<string>, i: int)
    requires 0 <= i < |lines| && ParseLine(lines[i]).Err?
    ensures ParseAll(lines).Err?
  {
  }

  /** One line of Solve: parse it and move the dial from number. */
  method TurnLine(number: int, line: string) returns (r: Result<int>)
    requires -DialSize < number < DialSize
    ensures r.Ok? <==> ParseLine(line).Ok?
    ensures r.Ok? ==> r.value == Turn(number, ParseLine(line).value)
  {
    var parsed := ParseLine(line);
    if parsed.Err? {
      return Err(parsed.error);
    }
    var increment := GoRem(parsed.value.increment, DialSize);
    var next := number;
    if line[0] == 'L' {
      next := MoveLeft(number, increment).value;
    }
    if line[0] == 'R' {
      next := MoveRight(number, increment).value;
    }
    return Ok(next);
  }

  /** Solve: the number of turns that leave the dial on 0. */
  method Solve(lines: seq<string>) returns (r: Result<int>)
    ensures ParseAll(lines).Err? ==> r.Err?
    ensures ParseAll(lines).Ok? ==> r == Ok(Landings(ParseAll(lines).value))
  {
    var number := Start;
    var total := 0;
    ghost var rots: seq<Rotation> := [];
    for i := 0 to |lines|
      invariant ParseAll(lines[..i]) == Ok(rots)
      invariant number == Position(rots) && total == Landings(rots)
      invariant -DialSize < number < DialSize
    {
      var moved := TurnLine(number, lines[i]);
      if moved.Err? {
        ParseFails(lines, i);
        return Err(moved.error);
      }
      var rot := ParseLine(lines[i]).value;
      ParseSnoc(lines, i, rots, rot);
      rots := rots + [rot];
      number := moved.value;
      if number == 0 {
        total := total + 1;
      }
    }
    assert lines[..|lines|] == lines;
    return Ok(total);
  }

  /** Solve2's count for one turn from number, as written: full spins, a pass over 0, and a landing on 0. */
  function SpinAsWritten(number: int, rot: Rotation): int
    requires -DialSize < number < DialSize
  {
    var next := Turn(number, rot);
    var passed := (rot.direction == 'L' && next != 0 && number != 0 && next > number)
                  || (rot.direction == 'R' && next != 0 && number != 0 && next < number);
    GoDiv(rot.increment, DialSize) + (if passed then 1 else 0) + (if next == 0 then 1 else 0)
  }

  /** The same count with the landing counted only when the dial did not start on 0. */
  function Spin(number: int, rot: Rotation): int
    requires -DialSize < number < DialSize
  {
    var next := Turn(number, rot);
    var passed := (rot.direction == 'L' && next != 0 && number != 0 && next > number)
                  || (rot.direction == 'R' && next != 0 && number != 0 && next < number);
    GoDiv(rot.increment, DialSize) + (if passed then 1 else 0) + (if next == 0 && number != 0 then 1 else 0)
  }

  /** The clicks j = 1..k of a right turn from pre that point at 0. */
  function ClicksRight(pre: int, k: nat): nat
  {
    if k == 0 then 0 else ClicksRight(pre, k - 1) + (if (pre + k) % DialSize == 0 then 1 else 0)
  }

  /** The clicks j = 1..k of a left turn from pre that point at 0. */
  function ClicksLeft(pre: int, k: nat): nat
  {
    if k == 0 then 0 else ClicksLeft(pre, k - 1) + (if (pre - k) % DialSize == 0 then 1 else 0)
  }

  /** The number of times a turn points the dial at 0, click by click. */
  function Clicks(pre: int, rot: Rotation): nat
  {
    if rot.increment < 0 then 0
    else if rot.direction == 'L' then ClicksLeft(pre, rot.increment)
    else if rot.direction == 'R' then ClicksRight(pre, rot.increment)
    else 0
  }

  lemma {:induction false} ClicksRightClosed(pre: int, k: nat)
    ensures ClicksRight(pre, k) == (pre + k) / DialSize - pre / DialSize
  {
    if k > 0 { ClicksRightClosed(pre, k - 1); }
  }

  lemma {:induction false} ClicksLeftClosed(pre: int, k: nat)
    ensures ClicksLeft(pre, k) == (pre - 1) / DialSize - (pre - k - 1) / DialSize
  {
    if k > 0 { ClicksLeftClosed(pre, k - 1); }
  }

  /** The corrected count of one turn is the number of clicks at 0. */
  lemma SpinCountsClicks(number: int, rot: Rotation)
    requires 0 <= number < DialSize && rot.increment >= 0 && rot.direction in {'L', 'R'}
    ensures Spin(number, rot) == Clicks(number, rot)
  {
    if rot.direction == 'R' {
      SpinRightClicks(number, rot);
    } else {
      SpinLeftClicks(number, rot);
    }
  }

  lemma SpinRightClicks(number: int, rot: Rotation)
    requires 0 <= number < DialSize && rot.increment >= 0 && rot.direction == 'R'
    ensures Spin(number, rot) == Clicks(number, rot)
  {
    GoRemNonNegative(rot.increment, DialSize);
    SpinTerms(number, rot);
    ClicksRightClosed(number, rot.increment);
    RightWrap(number, rot.increment);
  }

  lemma SpinLeftClicks(number: int, rot: Rotation)
    requires 0 <= number < DialSize && rot.increment >= 0 && rot.direction == 'L'
    ensures Spin(number, rot) == Clicks(number, rot)
  {
    GoRemNonNegative(rot.increment, DialSize);
    SpinTerms(number, rot);
    ClicksLeftClosed(number, rot.increment);
    LeftWrap(number, rot.increment);
  }

  /** Spin's terms for a turn from the dial: whole spins, and the move by the rest. */
  lemma SpinTerms(number: int, rot: Rotation)
    requires 0 <= number < DialSize && rot.increment >= 0
    ensures GoDiv(rot.increment, DialSize) == rot.increment / DialSize
    ensures rot.direction == 'R' ==> Turn(number, rot) == (number + rot.increment % DialSize) % DialSize
    ensures rot.direction == 'L' ==> Turn(number, rot) == (number - rot.increment % DialSize) % DialSize
  {
    GoRemNonNegative(rot.increment, DialSize);
    if rot.direction == 'R' {
      MoveRightOnDial(number, rot.increment % DialSize);
    } else if rot.direction == 'L' {
      MoveLeftOnDial(number, rot.increment % DialSize);
    }
  }

  lemma RightWrap(n: int, k: nat)
    requires 0 <= n < DialSize
    ensures var m := k % DialSize; var next := (n + m) % DialSize;
      (n + k) / DialSize - n / DialSize
      == k / DialSize + (if next != 0 && n != 0 && next < n then 1 else 0) + (if next == 0 && n != 0 then 1 else 0)
  {
    var q, m := k / DialSize, k % DialSize;
    assert k == q * DialSize + m;
    assert (n + k) / DialSize == q + (n + m) / DialSize;
    if n + m >= DialSize {
      assert (n + m) % DialSize == n + m - DialSize;
    } else {
      assert (n + m) % DialSize == n + m;
    }
  }

  lemma LeftWrap(n: int, k: nat)
    requires 0 <= n < DialSize
    ensures var m := k % DialSize; var next := (n - m) % DialSize;
      (n - 1) / DialSize - (n - k - 1) / DialSize
      == k / DialSize + (if next != 0 && n != 0 && next > n then 1 else 0) + (if next == 0 && n != 0 then 1 else 0)
  {
    var q, m := k / DialSize, k % DialSize;
    assert k == q * DialSize + m;
    assert (n - k - 1) / DialSize == (n - m - 1) / DialSize - q;
    if n == 0 {
      assert (n - 1) / DialSize == -1;
      assert (n - m - 1) / DialSize == -1;
    } else if m < n {
      assert (n - m) % DialSize == n - m;
    } else if m == n {
    } else {
      assert (n - m) % DialSize == n - m + DialSize;
      assert (n - m - 1) / DialSize == -1;
    }
  }

  /** As written, a turn that starts on 0 and is a whole number of spins counts one click too many. */
  lemma SpinAsWrittenOvercounts(number: int, rot: Rotation)
    requires 0 <= number < DialSize && rot.increment >= 0 && rot.direction in {'L', 'R'}
    ensures SpinAsWritten(number, rot)
            == Clicks(number, rot) + (if number == 0 && rot.increment % DialSize == 0 then 1 else 0)
  {
    var k := rot.increment;
    GoRemNonNegative(k, DialSize);
    MoveOnDial(number, k % DialSize);
    SpinCountsClicks(number, rot);
  }

  function TotalAsWritten(rots: seq<Rotation>): int
  {
    if rots == [] then 0
    else var pre := rots[..|rots| - 1];
      TotalAsWritten(pre) + SpinAsWritten(Position(pre), rots[|rots| - 1])
  }

  function Total(rots: seq<Rotation>): int
  {
    if rots == [] then 0
    else var pre := rots[..|rots| - 1];
      Total(pre) + Spin(Position(pre), rots[|rots| - 1])
  }

  /** Every click at 0 over the whole sequence of turns. */
  function TrueClicks(rots: seq<Rotation>): nat
  {
    if rots == [] then 0
    else var pre := rots[..|rots| - 1];
      TrueClicks(pre) + Clicks(Position(pre), rots[|rots| - 1])
  }

  /** The corrected Solve2 count is exactly the number of clicks at 0. */
  lemma {:induction false} TotalCountsClicks(rots: seq<Rotation>)
    requires forall i :: 0 <= i < |rots| ==> rots[i].increment >= 0 && rots[i].direction in {'L', 'R'}
    ensures Total(rots) == TrueClicks(rots)
  {
    if rots != [] {
      var pre := rots[..|rots| - 1];
      TotalCountsClicks(pre);
      PositionOnDial(pre);
      SpinCountsClicks(Position(pre), rots[|rots| - 1]);
    }
  }

  /** Every landing Solve counts is also a click Solve2 counts. */
  lemma {:induction false} TotalCountsLandings(rots: seq<Rotation>)
    requires forall i :: 0 <= i < |rots| ==> rots[i].increment >= 0
    ensures TotalAsWritten(rots) >= Landings(rots)
  {
    if rots != [] {
      var pre := rots[..|rots| - 1];
      TotalCountsLandings(pre);
      GoRemNonNegative(rots[|rots| - 1].increment, DialSize);
    }
  }

  /** Turning left 50 onto 0 and then right a full spin: Solve2 says 3, the dial pointed at 0 twice. */
  lemma Solve2DoubleCounts()
    ensures ParseAll(["L50", "R100"]) == Ok([Rotation('L', 50), Rotation('R', 100)])
    ensures TotalAsWritten([Rotation('L', 50), Rotation('R', 100)]) == 3
    ensures TrueClicks([Rotation('L', 50), Rotation('R', 100)]) == 2
  {
    ExampleParses();
    ExampleTotal();
    ExampleClicks();
  }

  lemma ExampleLines()
    ensures ParseLine("L50") == Ok(Rotation('L', 50))
    ensures ParseLine("R100") == Ok(Rotation('R', 100))
  {
    assert "L50"[1..] == "50" && "R100"[1..] == "100";
    assert "50"[..1] == "5" && "100"[..2] == "10" && "10"[..1] == "1";
    assert DecVal("50") == 50 && DecVal("100") == 100;
    assert Atoi("50") == Ok(50) && Atoi("100") == Ok(100);
  }

  lemma ExampleParses()
    ensures ParseAll(["L50", "R100"]) == Ok([Rotation('L', 50), Rotation('R', 100)])
  {
    ExampleLines();
    assert ["L50"][..0] == [] && ["L50"][0] == "L50";
    assert ParseAll([]) == Ok([]);
    assert [] + [Rotation('L', 50)] == [Rotation('L', 50)];
    assert ParseAll(["L50"]) == Ok([Rotation('L', 50)]);
    assert ["L50", "R100"][1] == "R100";
    assert [Rotation('L', 50)] + [Rotation('R', 100)] == [Rotation('L', 50), Rotation('R', 100)];
    assert ["L50", "R100"][..1] == ["L50"];
  }

  lemma ExamplePositions()
    ensures Position([Rotation('L', 50), Rotation('R', 100)][..1]) == 0
    ensures [Rotation('L', 50), Rotation('R', 100)][..1][..0] == []
  {
    var rots := [Rotation('L', 50), Rotation('R', 100)];
    assert rots[..1] == [Rotation('L', 50)] && rots[..1][..0] == [];
    MoveLeftOnDial(50, 50);
    GoRemNonNegative(50, DialSize);
  }

  lemma ExampleTotal()
    ensures TotalAsWritten([Rotation('L', 50), Rotation('R', 100)]) == 3
  {
    ExamplePositions();
    GoRemNonNegative(50, DialSize);
    GoRemNonNegative(100, DialSize);
    MoveRightOnDial(0, 0);
  }

  lemma ExampleClicks()
    ensures TrueClicks([Rotation('L', 50), Rotation('R', 100)]) == 2
  {
    ExamplePositions();
    ClicksLeftClosed(50, 50);
    ClicksRightClosed(0, 100);
  }

  /** Solve2 as written. */
  method Solve2(lines: seq<string>) returns (r: Result<int>)
    ensures ParseAll(lines).Err? ==> r.Err?
    ensures ParseAll(lines).Ok? ==> r == Ok(TotalAsWritten(ParseAll(lines).value))
  {
    var number := Start;
    var total := 0;
    ghost var rots: seq<Rotation> := [];
    for i := 0 to |lines|
      invariant ParseAll(lines[..i]) == Ok(rots)
      invariant number == Position(rots) && total == TotalAsWritten(rots)
    {
      var line := lines[i];
      var parsed := ParseLine(line);
      if parsed.Err? {
        return Err(parsed.error);
      }
      ghost var total0 := total;
      total := total + GoDiv(parsed.value.increment, DialSize);
      var increment := GoRem(parsed.value.increment, DialSize);
      var pre := number;
      if line[0] == 'L' {
        number := MoveLeft(number, increment).value;
        if number != 0 && pre != 0 && number > pre {
          total := total + 1;
        }
      }
      if line[0] == 'R' {
        number := MoveRight(number, increment).value;
        if number != 0 && pre != 0 && number < pre {
          total := total + 1;
        }
      }
      if number == 0 {
        total := total + 1;
      }
      assert number == Turn(pre, parsed.value);
      assert total == total0 + SpinAsWritten(pre, parsed.value);
      ParseSnoc(lines, i, rots, parsed.value);
      PrefixOfAppend(rots, parsed.value);
      rots := rots + [parsed.value];
    }
    assert lines[..|lines|] == lines;
    return Ok(total);
  }

  /** Solve2 with the landing on 0 counted only when the turn started elsewhere. */
  method Solve2Corrected(lines: seq<string>) returns (r: Result<int>)
    ensures ParseAll(lines).Err? ==> r.Err?
    ensures ParseAll(lines).Ok? ==> r == Ok(Total(ParseAll(lines).value))
  {
    var number := Start;
    var total := 0;
    ghost var rots: seq<Rotation> := [];
    for i := 0 to |lines|
      invariant ParseAll(lines[..i]) == Ok(rots)
      invariant number == Position(rots) && total == Total(rots)
    {
      var line := lines[i];
      var parsed := ParseLine(line);
      if parsed.Err? {
        return Err(parsed.error);
      }
      ghost var total0 := total;
      total := total + GoDiv(parsed.value.increment, DialSize);
      var increment := GoRem(parsed.value.increment, DialSize);
      var pre := number;
      if line[0] == 'L' {
        number := MoveLeft(number, increment).value;
        if number != 0 && pre != 0 && number > pre {
          total := total + 1;
        }
      }
      if line[0] == 'R' {
        number := MoveRight(number, increment).value;
        if number != 0 && pre != 0 && number < pre {
          total := total + 1;
        }
      }
      if number == 0 && pre != 0 {
        total := total + 1;
      }
      assert number == Turn(pre, parsed.value);
      assert total == total0 + Spin(pre, parsed.value);
      ParseSnoc(lines, i, rots, parsed.value);
      PrefixOfAppend(rots, parsed.value);
      rots := rots + [parsed.value];
    }
    assert lines[..|lines|] == lines;
    return Ok(total);
  }
}
