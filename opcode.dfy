/**
 * The eight instructions of the 2024 day 17 computer. Each one is a pure
 * step on a Snapshot, and a method that performs the same step on a
 * Computer through its getters and setters. Registers are math/big
 * integers: Div and Mod are Euclidean (as Dafny's / and %), Exp(2, y) is 1
 * for y <= 0, and Xor works on two's-complement values.
 */
module Opcode {
  import opened Wrappers
  import opened Computer
  import GoMath

  datatype Instruction = Adv | Bxl | Bst | Jnz | Bxc | Out | Bdv | Cdv

  /** The opcode of each instruction. */
  function Code(i: Instruction): (n: int)
    ensures 0 <= n <= 7
  {
    match i
    case Adv => 0 case Bxl => 1 case Bst => 2 case Jnz => 3
    case Bxc => 4 case Out => 5 case Bdv => 6 case Cdv => 7
  }

  /** GetInstruction: opcodes 0..7 name adv..cdv; anything else is an error. */
  function GetInstruction(o: int): (r: Result<Instruction>)
    ensures r.Ok? <==> 0 <= o <= 7
    ensures r.Ok? ==> Code(r.value) == o
  {
    if o == 0 then Ok(Adv) else if o == 1 then Ok(Bxl) else if o == 2 then Ok(Bst)
    else if o == 3 then Ok(Jnz) else if o == 4 then Ok(Bxc) else if o == 5 then Ok(Out)
    else if o == 6 then Ok(Bdv) else if o == 7 then Ok(Cdv)
    else Err("invalid opcode: " + GoMath.Itoa(o))
  }

  /** Decoding the opcode of an instruction gives the instruction back. */
  lemma GetInstructionCode(i: Instruction)
    ensures GetInstruction(Code(i)) == Ok(i)
  {
  }

  // ------------------------------------------------------------ arithmetic

  /** big.Int Exp(2, y, nil): 2 to the y, and 1 when y is not positive. */
  function Pow2(y: int): (r: nat)
    ensures r >= 1
    ensures y >= 1 ==> r >= 2
    decreases if y <= 0 then 0 else y
  {
    if y <= 0 then 1 else 2 * Pow2(y - 1)
  }

  function Bit(x: nat): nat { x % 2 }

  /** Bitwise exclusive or of two naturals. */
  function NatXor(x: nat, y: nat): nat
    decreases x + y
  {
    if x == 0 then y
    else if y == 0 then x
    else 2 * NatXor(x / 2, y / 2) + (if Bit(x) == Bit(y) then 0 else 1)
  }

  /** big.Int Xor: exclusive or of two's-complement integers, negative when exactly one operand is. */
  function Xor(x: int, y: int): (r: int)
  {
    if x >= 0 && y >= 0 then NatXor(x, y)
    else if x < 0 && y < 0 then NatXor(-x - 1, -y - 1)
    else if x < 0 then var n: int := NatXor(-x - 1, y); -n - 1
    else var n: int := NatXor(x, -y - 1); -n - 1
  }

  lemma XorHalf(x: nat, y: nat)
    ensures NatXor(x, y) / 2 == NatXor(x / 2, y / 2)
    ensures Bit(NatXor(x, y)) == if Bit(x) == Bit(y) then 0 else 1
  {
  }

  /** Xor-ing the same natural twice gives back the first operand. */
  lemma {:induction false} NatXorTwice(x: nat, y: nat)
    ensures NatXor(NatXor(x, y), y) == x
    decreases x + y
  {
    if x + y > 0 {
      var z := NatXor(x, y);
      var n := NatXor(z, y);
      XorHalf(x, y);
      XorHalf(z, y);
      NatXorTwice(x / 2, y / 2);
      assert n / 2 == x / 2;
      assert Bit(n) == Bit(x);
    }
  }

  /** Xor on integers is an involution too. */
  lemma XorTwice(x: int, y: int)
    ensures Xor(Xor(x, y), y) == x
  {
    if x >= 0 && y >= 0 {
      NatXorTwice(x, y);
    } else if x < 0 && y < 0 {
      NatXorTwice(-x - 1, -y - 1);
    } else if x < 0 {
      NatXorTwice(-x - 1, y);
    } else {
      NatXorTwice(x, -y - 1);
    }
  }

  // ------------------------------------------------------------ the steps

  /** The quotient adv, bdv and cdv compute: A divided by 2 to the combo operand. */
  function Quotient(m: Snapshot, combo: int): int
  {
    m.a / Pow2(combo)
  }

  function ComboError(e: string): string { "error getting combo operand: " + e }

  function AdvStep(m: Snapshot, operand: int): Result<Snapshot>
  {
    match Combo(m, operand)
    case Err(e) => Err(ComboError(e))
    case Ok(v) => Ok(m.(a := Quotient(m, v), ip := m.ip + 2))
  }

  function BxlStep(m: Snapshot, operand: int): Result<Snapshot>
  {
    Ok(m.(b := Xor(m.b, operand), ip := m.ip + 2))
  }

  function BstStep(m: Snapshot, operand: int): Result<Snapshot>
  {
    match Combo(m, operand)
    case Err(e) => Err(ComboError(e))
    case Ok(v) => Ok(m.(b := v % 8, ip := m.ip + 2))
  }

  function JnzStep(m: Snapshot, operand: int): Result<Snapshot>
  {
    if m.a == 0 then Ok(m.(ip := m.ip + 2)) else Ok(m.(ip := operand))
  }

  function BxcStep(m: Snapshot, operand: int): Result<Snapshot>
  {
    Ok(m.(b := Xor(m.b, m.c), ip := m.ip + 2))
  }

  function OutStep(m: Snapshot, operand: int): Result<Snapshot>
  {
    match Combo(m, operand)
    case Err(e) => Err(ComboError(e))
    case Ok(v) => Ok(m.(output := m.output + [v % 8], ip := m.ip + 2))
  }

  function BdvStep(m: Snapshot, operand: int): Result<Snapshot>
  {
    match Combo(m, operand)
    case Err(e) => Err(ComboError(e))
    case Ok(v) => Ok(m.(b := Quotient(m, v), ip := m.ip + 2))
  }

  function CdvStep(m: Snapshot, operand: int): Result<Snapshot>
  {
    match Combo(m, operand)
    case Err(e) => Err(ComboError(e))
    case Ok(v) => Ok(m.(c := Quotient(m, v), ip := m.ip + 2))
  }

  /** The instructions that read a combo operand; the others take a literal or none. */
  predicate UsesCombo(i: Instruction)
  {
    i in {Adv, Bst, Out, Bdv, Cdv}
  }

  /** What calling the function GetInstruction returned does to a machine. */
  function Step(m: Snapshot, i: Instruction, operand: int): (r: Result<Snapshot>)
    ensures r.Err? <==> UsesCombo(i) && !(0 <= operand <= 6)
    ensures r.Ok? ==> r.value.opcodes == m.opcodes && m.output <= r.value.output
  {
    match i
    case Adv => AdvStep(m, operand)
    case Bxl => BxlStep(m, operand)
    case Bst => BstStep(m, operand)
    case Jnz => JnzStep(m, operand)
    case Bxc => BxcStep(m, operand)
    case Out => OutStep(m, operand)
    case Bdv => BdvStep(m, operand)
    case Cdv => CdvStep(m, operand)
  }

  /** adv, bdv and cdv fail together and compute the same quotient; bdv and cdv leave A alone. */
  lemma DvShareQuotient(m: Snapshot, operand: int)
    ensures AdvStep(m, operand).Ok? == BdvStep(m, operand).Ok? == CdvStep(m, operand).Ok?
    ensures AdvStep(m, operand).Ok? ==>
      AdvStep(m, operand).value.a == BdvStep(m, operand).value.b == CdvStep(m, operand).value.c
      && BdvStep(m, operand).value.a == m.a && CdvStep(m, operand).value.a == m.a
  {
  }

  /** On a non-negative A, adv never grows A, and strictly shrinks a positive A by a positive shift. */
  lemma AdvShrinks(m: Snapshot, operand: int)
    requires m.a >= 0 && 0 <= operand <= 6
    ensures AdvStep(m, operand).Ok?
    ensures 0 <= AdvStep(m, operand).value.a <= m.a
    ensures m.a > 0 && Combo(m, operand).value >= 1 ==> AdvStep(m, operand).value.a < m.a
  {
    var v := Combo(m, operand).value;
    assert AdvStep(m, operand) == Ok(m.(a := Quotient(m, v), ip := m.ip + 2));
    var p := Pow2(v);
    DivShrinks(m.a, p);
    assert Quotient(m, v) == m.a / p;
  }

  lemma DivShrinks(a: nat, p: nat)
    requires p >= 1
    ensures a / p <= a
    ensures a > 0 && p >= 2 ==> a / p < a
  {
    var q := a / p;
    assert a == q * p + a % p;
    MulAtLeast(q, p);
    if a > 0 && p >= 2 && q > 0 {
      MulAtLeast(q, p - 1);
      assert q * p == q * (p - 1) + q;
    }
  }

  lemma {:induction false} MulAtLeast(q: nat, p: nat)
    requires p >= 1
    ensures q * p >= q
  {
    if p > 1 {
      MulAtLeast(q, p - 1);
      assert q * p == q * (p - 1) + q;
    }
  }

  /** bxl with the same literal twice restores B. */
  lemma BxlTwice(m: Snapshot, operand: int)
    ensures BxlStep(BxlStep(m, operand).value, operand).value.b == m.b
  {
    XorTwice(m.b, operand);
  }

  /** bxc ignores its operand. */
  lemma BxcIgnoresOperand(m: Snapshot, o1: int, o2: int)
    ensures BxcStep(m, o1) == BxcStep(m, o2)
  {
  }

  /** bst stores in B the very value out emits, and that value is below 8. */
  lemma BstOutAgree(m: Snapshot, operand: int)
    ensures BstStep(m, operand).Ok? <==> OutStep(m, operand).Ok?
    ensures BstStep(m, operand).Ok? ==>
      0 <= BstStep(m, operand).value.b < 8
      && OutStep(m, operand).value.output == m.output + [BstStep(m, operand).value.b]
  {
  }

  /** jnz only moves the instruction pointer: past itself when A is 0, to the operand otherwise. */
  lemma JnzOnlyJumps(m: Snapshot, operand: int)
    ensures JnzStep(m, operand).Ok?
    ensures JnzStep(m, operand).value.(ip := m.ip) == m
    ensures m.a != 0 ==> JnzStep(m, operand).value.ip == operand
    ensures m.a == 0 ==> JnzStep(m, operand).value.ip == m.ip + 2
  {
  }

  // ------------------------------------------------------------ the driver loop

  /**
   * The loop that runs a program: while the pointer is inside the program,
   * decode the opcode at it and apply it to the operand after it. Indexing
   * outside the program panics in Go, an error here; fuel bounds the number
   * of steps, since a program need not halt.
   */
  function Run(m: Snapshot, fuel: nat): (r: Result<Snapshot>)
    ensures r.Ok? ==> r.value.opcodes == m.opcodes && r.value.ip >= |m.opcodes| && m.output <= r.value.output
    decreases fuel
  {
    if m.ip >= |m.opcodes| then Ok(m)
    else if m.ip < 0 || m.ip + 1 >= |m.opcodes| then Err("index out of range")
    else if fuel == 0 then Err("out of fuel")
    else
      match GetInstruction(m.opcodes[m.ip])
      case Err(e) => Err(e)
      case Ok(i) =>
        match Step(m, i, m.opcodes[m.ip + 1])
        case Err(e) => Err(e)
        case Ok(next) => Run(next, fuel - 1)
  }

  /** If register C contains 9, the program 2,6 sets register B to 1. */
  lemma ExampleBst()
    ensures Run(Snapshot([2, 6], 0, 0, 0, 9, []), 1) == Ok(Snapshot([2, 6], 2, 0, 1, 9, []))
  {
  }

  /** If register B contains 29, the program 1,7 sets register B to 26. */
  lemma ExampleBxl()
    ensures Run(Snapshot([1, 7], 0, 0, 29, 0, []), 1) == Ok(Snapshot([1, 7], 2, 0, 26, 0, []))
  {
  }

  /** If B contains 2024 and C contains 43690, the program 4,0 sets B to 44354. */
  lemma ExampleBxc()
    ensures Run(Snapshot([4, 0], 0, 0, 2024, 43690, []), 1) == Ok(Snapshot([4, 0], 2, 0, 44354, 43690, []))
  {
    assert NatXor(0, 21) == 21;
    assert NatXor(1, 42) == 43;
    assert NatXor(3, 85) == 86;
    assert NatXor(7, 170) == 173;
    assert NatXor(15, 341) == 346;
    assert NatXor(31, 682) == 693;
    assert NatXor(63, 1365) == 1386;
    assert NatXor(126, 2730) == 2772;
    assert NatXor(253, 5461) == 5544;
    assert NatXor(506, 10922) == 11088;
    assert NatXor(1012, 21845) == 22177;
    assert NatXor(2024, 43690) == 44354;
  }

  /** The program 0,1,5,4,3,0: halve A, output its low three bits, and loop while A is not 0. */
  const Countdown: seq<int> := [0, 1, 5, 4, 3, 0]

  /** One pass of Countdown's loop takes three steps: A becomes half, and its new low three bits are output. */
  lemma CountdownPass(a: int, b: int, c: int, out: seq<int>, half: int, out': seq<int>, fuel: nat)
    requires half == a / 2 && out' == out + [half % 8]
    ensures Run(Snapshot(Countdown, 0, a, b, c, out), fuel + 3)
         == if half == 0 then Ok(Snapshot(Countdown, 6, 0, b, c, out'))
            else Run(Snapshot(Countdown, 0, half, b, c, out'), fuel)
  {
    var m0 := Snapshot(Countdown, 0, a, b, c, out);
    var m1 := m0.(a := half, ip := 2);
    var m2 := m1.(output := out', ip := 4);
    var m3 := if half == 0 then m2.(ip := 6) else m2.(ip := 0);
    assert Pow2(1) == 2;
    assert Step(m0, Adv, 1) == Ok(m1);
    assert Run(m0, fuel + 3) == Run(m1, fuel + 2);
    assert Step(m1, Out, 4) == Ok(m2);
    assert Run(m1, fuel + 2) == Run(m2, fuel + 1);
    assert Step(m2, Jnz, 0) == Ok(m3);
    assert Run(m2, fuel + 1) == Run(m3, fuel);
  }

  /** What Countdown outputs from A = a: the low three bits of every halving, down to the final 0. */
  function CountdownOutput(a: nat): seq<int>
  {
    if a / 2 == 0 then [0] else [(a / 2) % 8] + CountdownOutput(a / 2)
  }

  /** The number of passes Countdown's loop makes from A = a. */
  function Passes(a: nat): nat
  {
    if a / 2 == 0 then 1 else 1 + Passes(a / 2)
  }

  /** From a non-negative A, Countdown halts with A = 0 after Passes(a) passes, having output CountdownOutput(a). */
  lemma {:induction false} CountdownRuns(a: nat, b: int, c: int, out: seq<int>)
    ensures Run(Snapshot(Countdown, 0, a, b, c, out), 3 * Passes(a))
         == Ok(Snapshot(Countdown, 6, 0, b, c, out + CountdownOutput(a)))
  {
    var half := a / 2;
    var out' := out + [half % 8];
    if half == 0 {
      CountdownLast(a, b, c, out, out');
    } else {
      CountdownRuns(half, b, c, out');
      CountdownNext(a, b, c, out, half, out');
    }
  }

  /** The last pass of CountdownRuns. */
  lemma CountdownLast(a: nat, b: int, c: int, out: seq<int>, out': seq<int>)
    requires a / 2 == 0 && out' == out + [0]
    ensures Run(Snapshot(Countdown, 0, a, b, c, out), 3 * Passes(a))
         == Ok(Snapshot(Countdown, 6, 0, b, c, out + CountdownOutput(a)))
  {
    assert 3 * Passes(a) == 0 + 3;
    CountdownPass(a, b, c, out, 0, out', 0);
  }

  /** A pass of CountdownRuns that is not the last, given the passes after it. */
  lemma CountdownNext(a: nat, b: int, c: int, out: seq<int>, half: nat, out': seq<int>)
    requires half == a / 2 && half != 0 && out' == out + [half % 8]
    requires Run(Snapshot(Countdown, 0, half, b, c, out'), 3 * Passes(half))
          == Ok(Snapshot(Countdown, 6, 0, b, c, out' + CountdownOutput(half)))
    ensures Run(Snapshot(Countdown, 0, a, b, c, out), 3 * Passes(a))
         == Ok(Snapshot(Countdown, 6, 0, b, c, out + CountdownOutput(a)))
  {
    var f := 3 * Passes(half);
    PassesNext(a, half, f);
    CountdownPass(a, b, c, out, half, out', f);
    OutputNext(a, half, out, out');
  }

  lemma PassesNext(a: nat, half: nat, f: nat)
    requires half == a / 2 && half != 0 && f == 3 * Passes(half)
    ensures 3 * Passes(a) == f + 3
  {
  }

  lemma OutputNext(a: nat, half: nat, out: seq<int>, out': seq<int>)
    requires half == a / 2 && half != 0 && out' == out + [half % 8]
    ensures out' + CountdownOutput(half) == out + CountdownOutput(a)
  {
    assert CountdownOutput(a) == [half % 8] + CountdownOutput(half);
  }

  /** From A = 2024 the loop makes 11 passes. */
  lemma Passes2024()
    ensures Passes(2024) == 11
  {
    assert Passes(1) == 1;
    assert Passes(3) == 2;
    assert Passes(7) == 3;
    assert Passes(15) == 4;
    assert Passes(31) == 5;
    assert Passes(63) == 6;
    assert Passes(126) == 7;
    assert Passes(253) == 8;
    assert Passes(506) == 9;
    assert Passes(1012) == 10;
    assert Passes(2024) == 11;
  }

  /** From A = 2024 the loop outputs 4,2,5,6,7,7,7,7,3,1,0. */
  lemma CountdownOutput2024()
    ensures CountdownOutput(2024) == [4, 2, 5, 6, 7, 7, 7, 7, 3, 1, 0]
  {
  }

  /** With A = 2024 the program 0,1,5,4,3,0 outputs 4,2,5,6,7,7,7,7,3,1,0 and leaves A at 0. */
  lemma ExampleCountdown(start: Snapshot, out: seq<int>, fuel: nat)
    requires start == Snapshot(Countdown, 0, 2024, 0, 0, [])
    requires out == [4, 2, 5, 6, 7, 7, 7, 7, 3, 1, 0] && fuel == 33
    ensures Run(start, fuel) == Ok(Snapshot(Countdown, 6, 0, 0, 0, out))
  {
    Passes2024();
    CountdownOutput2024();
    CountdownRuns(2024, 0, 0, []);
    assert [] + CountdownOutput(2024) == out;
  }

  // ------------------------------------------------------------ on a Computer

  /** The error and the machine an instruction leaves: on an error the machine is untouched. */
  function Effect(res: Result<Snapshot>, m: Snapshot): (Outcome, Snapshot)
  {
    if res.Ok? then (Pass, res.value) else (Fail(res.error), m)
  }

  method ExecAdv(comp: Computer, operand: int) returns (r: Outcome)
    modifies comp
    ensures (r, comp.State()) == Effect(AdvStep(old(comp.State()), operand), old(comp.State()))
  {
    var combo := comp.GetComboOperand(operand);
    if combo.Err? {
      return Fail(ComboError(combo.error));
    }
    var numerator := comp.GetRegisterA();
    comp.SetRegisterA(numerator / Pow2(combo.value));
    var ip := comp.GetInstructionPointer();
    comp.SetInstructionPointer(ip + 2);
    return Pass;
  }

  method ExecBxl(comp: Computer, operand: int) returns (r: Outcome)
    modifies comp
    ensures (r, comp.State()) == Effect(BxlStep(old(comp.State()), operand), old(comp.State()))
  {
    var registerB := comp.GetRegisterB();
    comp.SetRegisterB(Xor(registerB, operand));
    var ip := comp.GetInstructionPointer();
    comp.SetInstructionPointer(ip + 2);
    return Pass;
  }

  method ExecBst(comp: Computer, operand: int) returns (r: Outcome)
    modifies comp
    ensures (r, comp.State()) == Effect(BstStep(old(comp.State()), operand), old(comp.State()))
  {
    var combo := comp.GetComboOperand(operand);
    if combo.Err? {
      return Fail(ComboError(combo.error));
    }
    comp.SetRegisterB(combo.value % 8);
    var ip := comp.GetInstructionPointer();
    comp.SetInstructionPointer(ip + 2);
    return Pass;
  }

  method ExecJnz(comp: Computer, operand: int) returns (r: Outcome)
    modifies comp
    ensures (r, comp.State()) == Effect(JnzStep(old(comp.State()), operand), old(comp.State()))
  {
    var a := comp.GetRegisterA();
    if a == 0 {
      var ip := comp.GetInstructionPointer();
      comp.SetInstructionPointer(ip + 2);
      return Pass;
    }
    comp.SetInstructionPointer(operand);
    return Pass;
  }

  method ExecBxc(comp: Computer, operand: int) returns (r: Outcome)
    modifies comp
    ensures (r, comp.State()) == Effect(BxcStep(old(comp.State()), operand), old(comp.State()))
  {
    var registerB := comp.GetRegisterB();
    var registerC := comp.GetRegisterC();
    comp.SetRegisterB(Xor(registerB, registerC));
    var ip := comp.GetInstructionPointer();
    comp.SetInstructionPointer(ip + 2);
    return Pass;
  }

  method ExecOut(comp: Computer, operand: int) returns (r: Outcome)
    modifies comp
    ensures (r, comp.State()) == Effect(OutStep(old(comp.State()), operand), old(comp.State()))
  {
    var combo := comp.GetComboOperand(operand);
    if combo.Err? {
      return Fail(ComboError(combo.error));
    }
    comp.Send(combo.value % 8);
    var ip := comp.GetInstructionPointer();
    comp.SetInstructionPointer(ip + 2);
    return Pass;
  }

  method ExecBdv(comp: Computer, operand: int) returns (r: Outcome)
    modifies comp
    ensures (r, comp.State()) == Effect(BdvStep(old(comp.State()), operand), old(comp.State()))
  {
    var combo := comp.GetComboOperand(operand);
    if combo.Err? {
      return Fail(ComboError(combo.error));
    }
    var numerator := comp.GetRegisterA();
    comp.SetRegisterB(numerator / Pow2(combo.value));
    var ip := comp.GetInstructionPointer();
    comp.SetInstructionPointer(ip + 2);
    return Pass;
  }

  method ExecCdv(comp: Computer, operand: int) returns (r: Outcome)
    modifies comp
    ensures (r, comp.State()) == Effect(CdvStep(old(comp.State()), operand), old(comp.State()))
  {
    var combo := comp.GetComboOperand(operand);
    if combo.Err? {
      return Fail(ComboError(combo.error));
    }
    var numerator := comp.GetRegisterA();
    comp.SetRegisterC(numerator / Pow2(combo.value));
    var ip := comp.GetInstructionPointer();
    comp.SetInstructionPointer(ip + 2);
    return Pass;
  }

  /** Calls the instruction function GetInstruction returned. */
  method Execute(comp: Computer, i: Instruction, operand: int) returns (r: Outcome)
    modifies comp
    ensures (r, comp.State()) == Effect(Step(old(comp.State()), i, operand), old(comp.State()))
  {
    match i
    case Adv => r := ExecAdv(comp, operand);
    case Bxl => r := ExecBxl(comp, operand);
    case Bst => r := ExecBst(comp, operand);
    case Jnz => r := ExecJnz(comp, operand);
    case Bxc => r := ExecBxc(comp, operand);
    case Out => r := ExecOut(comp, operand);
    case Bdv => r := ExecBdv(comp, operand);
    case Cdv => r := ExecCdv(comp, operand);
  }
}
