/** The three-bit computer (2024/Test0/src/dec17.rs): a machine with
    registers a, b and c, a program of numbers read in (instruction,
    operand) pairs, and an output list; and the octal digit conversions used
    when searching for a self-reproducing input.

    The parser reads every register and program entry with the pattern
    `\d+`, so they are natural numbers here. A run that does not halt is
    bounded by a fuel count. */
module Dec17 {
  import opened Wrappers
  import opened Arith

  datatype Input = Input(a: nat, b: nat, c: nat, program: seq<nat>)

  /** The registers, the program counter and the output so far. */
  datatype Machine = Machine(a: nat, b: nat, c: nat, pc: nat, out: seq<nat>)

  /** The panics of `compute_ex`. */
  datatype VmError =
    | OperandMissing(pc: nat)    // the instruction is the last program entry
    | BadCombo(val: nat)         // a combo operand above 6
    | BadInstruction(inst: nat)  // an opcode above 7
    | ShiftOverflow(val: nat)    // `1 << v` with v of 64 or more

  /** The result of a bounded run. */
  datatype Outcome = Halted(out: seq<nat>) | OutOfFuel

  /** `decode_combo_value`: operands 0 to 3 stand for themselves, 4, 5 and 6
      for registers a, b and c; anything else is an error. */
  function Combo(m: Machine, val: nat): (r: Result<nat, VmError>)
    ensures val <= 3 ==> r == Success(val)
    ensures val == 4 ==> r == Success(m.a)
    ensures val == 5 ==> r == Success(m.b)
    ensures val == 6 ==> r == Success(m.c)
    ensures r.Failure? <==> val > 6
  {
    match val
    case 0 => Success(0)
    case 1 => Success(1)
    case 2 => Success(2)
    case 3 => Success(3)
    case 4 => Success(m.a)
    case 5 => Success(m.b)
    case 6 => Success(m.c)
    case _ => Failure(BadCombo(val))
  }

  /** Opcodes that read a combo operand: adv, bst, out, bdv and cdv. */
  predicate UsesCombo(inst: nat) {
    inst == 0 || inst == 2 || inst == 5 || inst == 6 || inst == 7
  }

  /** Opcodes that divide by `1 << v`: adv, bdv and cdv. */
  predicate Shifts(inst: nat) {
    inst == 0 || inst == 6 || inst == 7
  }

  /** The instructions with a combo operand, given its decoded value v:
      adv, bdv and cdv divide a by 2^v into a, b or c; bst sets b to v mod 8;
      out appends v mod 8 to the output. The shift `1 << v` of an i64 only
      accepts v below 64. */
  function ApplyCombo(m: Machine, inst: nat, v: nat): (m': Machine)
    requires UsesCombo(inst) && (Shifts(inst) ==> v < 64)
    ensures m'.pc == m.pc + 2
    ensures inst != 5 ==> m'.out == m.out
    ensures inst == 5 ==> m'.out == m.out + [v % 8]
  {
    var next := m.pc + 2;
    match inst
    case 0 => m.(a := m.a / Pow(2, v), pc := next)  // adv
    case 2 => m.(b := v % 8, pc := next)            // bst
    case 5 => m.(out := m.out + [v % 8], pc := next) // out
    case 6 => m.(b := m.a / Pow(2, v), pc := next)  // bdv
    case 7 => m.(c := m.a / Pow(2, v), pc := next)  // cdv
  }

  /** The instructions with a literal operand: bxl, jnz and bxc. */
  function ApplyLiteral(m: Machine, inst: nat, op: nat): (m': Machine)
    requires inst == 1 || inst == 3 || inst == 4
    ensures m'.out == m.out
    ensures inst == 3 ==> m'.pc == (if m.a != 0 then op else m.pc + 2)
    ensures inst != 3 ==> m'.pc == m.pc + 2
  {
    match inst
    case 1 => m.(b := Xor(m.b, op), pc := m.pc + 2)  // bxl
    case 3 => m.(pc := if m.a != 0 then op else m.pc + 2)  // jnz
    case 4 => m.(b := Xor(m.b, m.c), pc := m.pc + 2)  // bxc
  }

  /** One instruction of `compute_ex`'s loop, for a pc inside the program.
      A shift by 64 or more panics, as an overflowing shift does in a debug
      build. */
  function Step(prog: seq<nat>, m: Machine): (r: Result<Machine, VmError>)
    requires m.pc < |prog|
    // the error cases, exactly
    ensures r.Failure? <==>
      m.pc + 1 >= |prog| || prog[m.pc] > 7 || (UsesCombo(prog[m.pc]) && prog[m.pc + 1] > 6)
      || (Shifts(prog[m.pc]) && prog[m.pc + 1] <= 6 && Combo(m, prog[m.pc + 1]).value >= 64)
    // a shift overflows only on a register operand holding 64 or more
    ensures r.Failure? && r.error.ShiftOverflow? ==> m.pc + 1 < |prog| && 4 <= prog[m.pc + 1] <= 6 && r.error.val >= 64
    // only `out` writes output, and it appends one octal digit
    ensures r.Success? && prog[m.pc] != 5 ==> r.value.out == m.out
    ensures r.Success? && prog[m.pc] == 5 ==>
      |r.value.out| == |m.out| + 1 && r.value.out[..|m.out|] == m.out && r.value.out[|m.out|] < 8
    // jnz jumps exactly when a is not zero; every other instruction moves on by two
    ensures r.Success? && prog[m.pc] == 3 ==> r.value.pc == (if m.a != 0 then prog[m.pc + 1] else m.pc + 2)
    ensures r.Success? && prog[m.pc] != 3 ==> r.value.pc == m.pc + 2
  {
    if m.pc + 1 >= |prog| then Failure(OperandMissing(m.pc))
    else
      var inst := prog[m.pc];
      var op := prog[m.pc + 1];
      if inst > 7 then Failure(BadInstruction(inst))
      else if UsesCombo(inst) then
        var v :- Combo(m, op);
        if Shifts(inst) && v >= 64 then Failure(ShiftOverflow(v))
        else Success(ApplyCombo(m, inst, v))
      else Success(ApplyLiteral(m, inst, op))
  }

  /** adv with operand 4 and a = 64 shifts by 64 and panics. */
  lemma ShiftBy64Panics()
    ensures Step([0, 4], Machine(64, 0, 0, 0, [])) == Failure(ShiftOverflow(64))
    ensures Step([0, 4], Machine(63, 0, 0, 0, [])) == Success(Machine(0, 0, 0, 2, []))
  {
    assert Pow(2, 6) == 64;
    PowMono(2, 6, 63);
  }

  /** Every value of s from position n on is an octal digit. */
  predicate DigitsFrom(s: seq<nat>, n: nat) {
    forall i :: n <= i < |s| ==> s[i] < 8
  }

  /** `compute_ex`'s loop, run for at most `fuel` instructions: it halts as
      soon as the pc is at or past the end of the program. */
  function Run(prog: seq<nat>, m: Machine, fuel: nat): (r: Result<Outcome, VmError>)
    ensures m.pc >= |prog| ==> r == Success(Halted(m.out))
    ensures r.Success? && r.value.Halted? ==>
      |m.out| <= |r.value.out| && r.value.out[..|m.out|] == m.out && DigitsFrom(r.value.out, |m.out|)
    decreases fuel
  {
    if m.pc >= |prog| then Success(Halted(m.out))
    else if fuel == 0 then Success(OutOfFuel)
    else
      var m' :- Step(prog, m);
      Run(prog, m', fuel - 1)
  }

  /** Running longer does not change the result of a run that has finished. */
  lemma {:induction false} RunMoreFuel(prog: seq<nat>, m: Machine, fuel: nat, extra: nat)
    requires Run(prog, m, fuel) != Success(OutOfFuel)
    ensures Run(prog, m, fuel + extra) == Run(prog, m, fuel)
    decreases fuel
  {
    if m.pc < |prog| && fuel > 0 {
      var s := Step(prog, m);
      if s.Success? {
        RunMoreFuel(prog, s.value, fuel - 1, extra);
      }
    }
  }

  /** `compute_ex` with the evidently intended start state: registers a, b
      and c start at the three arguments. */
  function ComputeEx(prog: seq<nat>, pa: nat, pb: nat, pc: nat, fuel: nat): (r: Result<Outcome, VmError>)
    ensures r.Success? && r.value.Halted? ==> DigitsFrom(r.value.out, 0)
  {
    Run(prog, Machine(pa, pb, pc, 0, []), fuel)
  }

  /** `compute_ex` as written: the parameter meant for register c is
      shadowed by the new program counter before c is set from it, so c
      always starts at 0. */
  function ComputeExAsWritten(prog: seq<nat>, pa: nat, pb: nat, pc: nat, fuel: nat): (r: Result<Outcome, VmError>)
    ensures r == ComputeEx(prog, pa, pb, 0, fuel)
  {
    var pc := 0;
    Run(prog, Machine(pa, pb, pc, pc, []), fuel)
  }

  /** The program `out c` (5, 6) shows the difference: started with c = 5,
      it prints 5, but as written it prints 0. */
  lemma ShadowedRegisterC()
    ensures ComputeEx([5, 6], 0, 0, 5, 1) == Success(Halted([5]))
    ensures ComputeExAsWritten([5, 6], 0, 0, 5, 1) == Success(Halted([0]))
  {
    var m := Machine(0, 0, 5, 0, []);
    assert Combo(m, 6) == Success(5);
    assert ApplyCombo(m, 5, 5) == m.(out := [5], pc := 2);
    assert Step([5, 6], m) == Success(m.(out := [5], pc := 2));
    assert Run([5, 6], m.(out := [5], pc := 2), 0) == Success(Halted([5]));
    var m0 := Machine(0, 0, 0, 0, []);
    assert Combo(m0, 6) == Success(0);
    assert ApplyCombo(m0, 5, 0) == m0.(out := [0], pc := 2);
    assert Step([5, 6], m0) == Success(m0.(out := [0], pc := 2));
    assert Run([5, 6], m0.(out := [0], pc := 2), 0) == Success(Halted([0]));
  }

  /** `compute` as written: it passes the input's registers to the written
      `compute_ex`, so register c starts at 0 whatever the input says. */
  function ComputeAsWritten(input: Input, fuel: nat): (r: Result<Outcome, VmError>)
    ensures r == ComputeEx(input.program, input.a, input.b, 0, fuel)
  {
    ComputeExAsWritten(input.program, input.a, input.b, input.c, fuel)
  }

  /** `compute` on the corrected `compute_ex`: runs the program on all
      three of the input's registers. It agrees with the source exactly
      when register c starts at 0. */
  function Compute(input: Input, fuel: nat): (r: Result<Outcome, VmError>)
    ensures r.Success? && r.value.Halted? ==> DigitsFrom(r.value.out, 0)
    ensures input.c == 0 ==> r == ComputeAsWritten(input, fuel)
  {
    ComputeEx(input.program, input.a, input.b, input.c, fuel)
  }

  /** The input a = 0, b = 0, c = 5 with the program `out c` tells the two
      apart: `compute` as written prints 0, corrected it prints 5. */
  lemma ComputeIgnoresRegisterC()
    ensures ComputeAsWritten(Input(0, 0, 5, [5, 6]), 1) == Success(Halted([0]))
    ensures Compute(Input(0, 0, 5, [5, 6]), 1) == Success(Halted([5]))
  {
    ShadowedRegisterC();
  }

  /** `to_digits`: the base-8 digits of num, least significant first, with
      Rust's truncating `%` and `/`; zero gives the single digit 0. */
  function ToDigits(num: int): (ds: seq<int>)
    ensures |ds| >= 1
    ensures num >= 0 ==> forall i :: 0 <= i < |ds| ==> 0 <= ds[i] < 8
    ensures num <= 0 ==> forall i :: 0 <= i < |ds| ==> -8 < ds[i] <= 0
    decreases Abs(num)
  {
    var l := TruncRem(num, 8);
    var ca := TruncDiv(num, 8);
    if ca == 0 then [l]
    else
      assert Abs(ca) < Abs(num);
      [l] + ToDigits(ca)
  }

  /** `from_digits`: reads the digits back, most significant (last) first. */
  function FromDigits(nums: seq<int>): int {
    if |nums| == 0 then 0 else nums[0] + 8 * FromDigits(nums[1..])
  }

  /** The round trip `from_digits(to_digits(n)) == n`, for every n. */
  lemma {:induction false} FromToDigits(num: int)
    ensures FromDigits(ToDigits(num)) == num
    decreases Abs(num)
  {
    var ca := TruncDiv(num, 8);
    if ca != 0 {
      assert Abs(ca) < Abs(num);
      FromToDigits(ca);
      assert ToDigits(num)[1..] == ToDigits(ca);
    }
  }

  /** Digit lists that `to_digits` produces for n >= 0: octal digits whose
      last (most significant) entry is non-zero unless it is the only one. */
  predicate Canonical(ds: seq<int>) {
    && |ds| >= 1
    && (forall i :: 0 <= i < |ds| ==> 0 <= ds[i] < 8)
    && (|ds| > 1 ==> ds[|ds| - 1] != 0)
  }

  /** Conversely, `to_digits(from_digits(ds)) == ds` for canonical ds. */
  lemma {:induction false} ToFromDigits(ds: seq<int>)
    requires Canonical(ds)
    ensures FromDigits(ds) >= 0
    ensures ToDigits(FromDigits(ds)) == ds
  {
    if |ds| == 1 {
      assert FromDigits(ds[1..]) == 0;
    } else {
      var rest := ds[1..];
      assert Canonical(rest) by {
        assert rest[|rest| - 1] == ds[|ds| - 1];
      }
      ToFromDigits(rest);
      var n := FromDigits(ds);
      assert n == ds[0] + 8 * FromDigits(rest);
      FromDigitsPositive(rest);
      TruncAgreesOnNaturals(n, 8);
      assert TruncRem(n, 8) == ds[0] && TruncDiv(n, 8) == FromDigits(rest);
    }
  }

  /** A canonical list of more than one digit reads as a positive number. */
  lemma {:induction false} FromDigitsPositive(ds: seq<int>)
    requires Canonical(ds) && |ds| > 0
    ensures FromDigits(ds) >= 0
    ensures |ds| > 1 || ds[0] != 0 ==> FromDigits(ds) > 0
  {
    if |ds| > 1 {
      var rest := ds[1..];
      assert rest[|rest| - 1] == ds[|ds| - 1];
      FromDigitsPositive(rest);
    } else {
      assert FromDigits(ds[1..]) == 0;
    }
  }
}
