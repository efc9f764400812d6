/**
 * The three-register computer of 2024 day 17. A program is a list of 3-bit
 * opcodes; the instruction pointer indexes it; A, B and C are arbitrary
 * precision integers, so they are plain Dafny ints here. The output channel
 * is modelled as the sequence of the values sent on it, in order.
 */
module Computer {
  import opened Wrappers
  import GoMath

  /** Everything a Computer holds, as a value. */
  datatype Snapshot = Snapshot(opcodes: seq<int>, ip: int, a: int, b: int, c: int, output: seq<int>)

  /** Every opcode is a 3-bit value. */
  predicate ValidOpcodes(ops: seq<int>)
  {
    forall i :: 0 <= i < |ops| ==> 0 <= ops[i] <= 7
  }

  /** SetOpcodes' check: the error for the first opcode outside 0..7, if any. */
  function CheckOpcodes(ops: seq<int>): (r: Outcome)
  {
    if ops == [] then Pass
    else if ops[0] < 0 || ops[0] > 7 then Fail("invalid opcode: " + GoMath.Itoa(ops[0]))
    else CheckOpcodes(ops[1..])
  }

  /** The check passes exactly when every opcode is valid. */
  lemma {:induction false} CheckOpcodesValid(ops: seq<int>)
    ensures CheckOpcodes(ops).Pass? <==> ValidOpcodes(ops)
  {
    if ops != [] {
      CheckOpcodesValid(ops[1..]);
      assert forall i :: 1 <= i < |ops| ==> ops[1..][i - 1] == ops[i];
    }
  }

  /** The combo operand: 0-3 stand for themselves, 4, 5 and 6 for A, B and C; 7 and the rest are errors. */
  function Combo(m: Snapshot, o: int): (r: Result<int>)
    ensures r.Ok? <==> 0 <= o <= 6
  {
    if 0 <= o <= 3 then Ok(o)
    else if o == 4 then Ok(m.a)
    else if o == 5 then Ok(m.b)
    else if o == 6 then Ok(m.c)
    else if o == 7 then Err("combo operand 7 is reserved and will never appear in valid programs")
    else Err("invalid opcode: " + GoMath.Itoa(o))
  }

  /** A literal combo operand does not depend on the machine, and 4, 5, 6 read nothing but A, B and C. */
  lemma ComboReads(m: Snapshot, n: Snapshot, o: int)
    requires m.a == n.a && m.b == n.b && m.c == n.c
    ensures Combo(m, o) == Combo(n, o)
    ensures 0 <= o <= 3 ==> Combo(m, o) == Ok(o)
    ensures 4 <= o <= 6 ==> Combo(m, o).value == [m.a, m.b, m.c][o - 4]
  {
  }

  class Computer {
    var opcodes: seq<int>
    var instructionPointer: int
    var a: int
    var b: int
    var c: int
    var output: seq<int>

    function State(): Snapshot
      reads this
    {
      Snapshot(opcodes, instructionPointer, a, b, c, output)
    }

    /** NewComputer: no program, the pointer at 0 and every register 0. */
    constructor ()
      ensures State() == Snapshot([], 0, 0, 0, 0, [])
    {
      opcodes := [];
      instructionPointer := 0;
      a := 0;
      b := 0;
      c := 0;
      output := [];
    }

    /** A copy of the program. */
    method GetOpcodes() returns (ops: seq<int>)
      ensures ops == opcodes
    {
      ops := opcodes;
    }

    /** Appends ops to the program, after checking all of them; on an invalid opcode nothing changes. */
    method SetOpcodes(ops: seq<int>) returns (r: Outcome)
      modifies this
      ensures r == CheckOpcodes(ops)
      ensures r.Pass? ==> State() == old(State()).(opcodes := old(opcodes) + ops)
      ensures r.Fail? ==> State() == old(State())
    {
      var i := 0;
      while i < |ops|
        invariant 0 <= i <= |ops|
        invariant CheckOpcodes(ops) == CheckOpcodes(ops[i..])
      {
        assert ops[i..][1..] == ops[i + 1..];
        if ops[i] < 0 || ops[i] > 7 {
          return Fail("invalid opcode: " + GoMath.Itoa(ops[i]));
        }
        i := i + 1;
      }
      opcodes := opcodes + ops;
      return Pass;
    }

    method GetComboOperand(o: int) returns (r: Result<int>)
      ensures r == Combo(State(), o)
    {
      if 0 <= o <= 3 {
        r := Ok(o);
      } else if o == 4 {
        r := Ok(a);
      } else if o == 5 {
        r := Ok(b);
      } else if o == 6 {
        r := Ok(c);
      } else if o == 7 {
        r := Err("combo operand 7 is reserved and will never appear in valid programs");
      } else {
        r := Err("invalid opcode: " + GoMath.Itoa(o));
      }
    }

    method GetInstructionPointer() returns (ip: int)
      ensures ip == instructionPointer
    {
      ip := instructionPointer;
    }

    method SetInstructionPointer(value: int)
      modifies this
      ensures State() == old(State()).(ip := value)
    {
      instructionPointer := value;
    }

    method GetRegisterA() returns (v: int)
      ensures v == a
    {
      v := a;
    }

    method GetRegisterB() returns (v: int)
      ensures v == b
    {
      v := b;
    }

    method GetRegisterC() returns (v: int)
      ensures v == c
    {
      v := c;
    }

    method SetRegisterA(value: int)
      modifies this
      ensures State() == old(State()).(a := value)
    {
      a := value;
    }

    method SetRegisterB(value: int)
      modifies this
      ensures State() == old(State()).(b := value)
    {
      b := value;
    }

    method SetRegisterC(value: int)
      modifies this
      ensures State() == old(State()).(c := value)
    {
      c := value;
    }

    /** Sending value on the Output channel. */
    method Send(value: int)
      modifies this
      ensures State() == old(State()).(output := old(output) + [value])
    {
      output := output + [value];
    }
  }
}
