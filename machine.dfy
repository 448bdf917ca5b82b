/**
 * The instruction set of the register machine in vm.c, as pure functions:
 * field extraction from a 32-bit instruction word, the effect of the opcode
 * switch, one step (switch, then the unconditional increment of the
 * instruction pointer) and the bounded run that `execute_vm` performs.
 */
module Machine {

  /** Number of 64-bit registers (`uint64_t reg[256]`). */
  const RegisterCount := 256

  /** 2^64: every register and the instruction pointer are `uint64_t`. */
  const Modulus64 := 0x1_0000_0000_0000_0000

  type u8 = x: int | 0 <= x < 0x100

  type u32 = x: int | 0 <= x < 0x1_0000_0000

  type u64 = x: int | 0 <= x < 0x1_0000_0000_0000_0000

  /** One instruction word, a `uint32_t` element of `ops`. */
  type Word = u32

  /** Reduction modulo 2^64, the wrap-around of `uint64_t` arithmetic. */
  function Wrap(x: int): u64 {
    x % Modulus64
  }

  // ---------------------------------------------------------------------
  // Field extraction.  `word >> n` on an unsigned word is division by 2^n;
  // assigning the result to a narrower unsigned variable keeps it modulo
  // 2^width.

  /** `opcode = word >> 8*0`, kept in a `uint8_t` */
  function Opcode(w: Word): u8 {
    w % 0x100
  }

  /** `X = word >> 8*1`, kept in a `uint8_t` */
  function FieldX(w: Word): u8 {
    w / 0x100 % 0x100
  }

  /** `Y = word >> 8*2`, kept in a `uint8_t` */
  function FieldY(w: Word): u8 {
    w / 0x1_0000 % 0x100
  }

  /** `Z = word >> 8*3`, kept in a `uint8_t` */
  function FieldZ(w: Word): u8 {
    w / 0x100_0000 % 0x100
  }

  /** `YZ = word >> 8*2`, kept in a `uint16_t` */
  function FieldYZ(w: Word): nat {
    w / 0x1_0000 % 0x1_0000
  }

  /** `XYZ = word >> 8*1`, kept in a `uint32_t` */
  function FieldXYZ(w: Word): nat {
    w / 0x100 % 0x1_0000_0000
  }

  /** The word whose bytes, least significant first, are `b0`, `b1`, `b2`, `b3`. */
  function WordOfBytes(b0: u8, b1: u8, b2: u8, b3: u8): Word {
    b0 + 0x100 * b1 + 0x1_0000 * b2 + 0x100_0000 * b3
  }

  /** Every word is the composition of its four fields: opcode bits 0-7, X bits 8-15, Y bits 16-23, Z bits 24-31. */
  lemma FieldsCompose(w: Word)
    ensures w == WordOfBytes(Opcode(w), FieldX(w), FieldY(w), FieldZ(w))
  {
    var q1 := w / 0x100;
    var q2 := q1 / 0x100;
    var q3 := q2 / 0x100;
    assert w == q1 * 0x100 + Opcode(w);
    assert q1 == q2 * 0x100 + FieldX(w);
    assert q2 == q3 * 0x100 + q2 % 0x100;
    assert w / 0x1_0000 == q2;
    assert w / 0x100_0000 == q3;
  }

  /**
   * Decoding a composed word gives back its bytes; YZ is bits 16-31 (Y low,
   * Z high) and XYZ is bits 8-31, so YZ < 2^16 and XYZ < 2^24.
   */
  lemma FieldsOfBytes(b0: u8, b1: u8, b2: u8, b3: u8)
    ensures var w := WordOfBytes(b0, b1, b2, b3);
      && Opcode(w) == b0 && FieldX(w) == b1 && FieldY(w) == b2 && FieldZ(w) == b3
      && FieldYZ(w) == b2 + 0x100 * b3 && FieldYZ(w) < 0x1_0000
      && FieldXYZ(w) == b1 + 0x100 * b2 + 0x1_0000 * b3 && FieldXYZ(w) < 0x100_0000
  {
    LowFieldsOfBytes(b0, b1, b2, b3);
    HighFieldsOfBytes(b0, b1, b2, b3);
  }

  /** Opcode, X and XYZ of a composed word. */
  lemma LowFieldsOfBytes(b0: u8, b1: u8, b2: u8, b3: u8)
    ensures var w := WordOfBytes(b0, b1, b2, b3);
      && Opcode(w) == b0 && FieldX(w) == b1
      && FieldXYZ(w) == b1 + 0x100 * b2 + 0x1_0000 * b3
  {
    var w := WordOfBytes(b0, b1, b2, b3);
    var hi1, hi2 := b1 + 0x100 * b2 + 0x1_0000 * b3, b2 + 0x100 * b3;
    assert w / 0x100 == hi1 && Opcode(w) == b0 by {
      assert w == hi1 * 0x100 + b0;
      DivMod(hi1, b0, 0x100);
    }
    assert FieldX(w) == b1 by {
      assert hi1 == hi2 * 0x100 + b1;
      DivMod(hi2, b1, 0x100);
    }
    assert FieldXYZ(w) == hi1 by {
      DivMod(0, hi1, 0x1_0000_0000);
    }
  }

  /** Y, Z and YZ of a composed word. */
  lemma HighFieldsOfBytes(b0: u8, b1: u8, b2: u8, b3: u8)
    ensures var w := WordOfBytes(b0, b1, b2, b3);
      && FieldY(w) == b2 && FieldZ(w) == b3 && FieldYZ(w) == b2 + 0x100 * b3
  {
    var w := WordOfBytes(b0, b1, b2, b3);
    var hi2 := b2 + 0x100 * b3;
    assert w / 0x1_0000 == hi2 by {
      assert w == hi2 * 0x1_0000 + (b0 + 0x100 * b1);
      DivMod(hi2, b0 + 0x100 * b1, 0x1_0000);
    }
    assert FieldY(w) == b2 by {
      DivMod(b3, b2, 0x100);
    }
    assert FieldZ(w) == b3 by {
      assert w == b3 * 0x100_0000 + (b0 + 0x100 * b1 + 0x1_0000 * b2);
      DivMod(b3, b0 + 0x100 * b1 + 0x1_0000 * b2, 0x100_0000);
    }
    assert FieldYZ(w) == hi2 by {
      DivMod(0, hi2, 0x1_0000);
    }
  }

  /** Division with remainder is unique. */
  lemma DivMod(a: int, b: int, n: int)
    requires n > 0 && 0 <= b < n
    ensures (a * n + b) / n == a && (a * n + b) % n == b
  {
    var x := a * n + b;
    var q, r := x / n, x % n;
    assert x == q * n + r;
    assert (a - q) * n == r - b;
    if a > q { MulAtLeast(a - q, n); }
    if a < q { MulAtLeast(q - a, n); }
  }

  lemma MulAtLeast(k: int, n: int)
    requires k >= 1 && n > 0
    ensures k * n >= n
  {
  }

  // ---------------------------------------------------------------------
  // Machine state and the opcode switch.

  /** Registers and instruction pointer; `ops` is passed separately since no instruction changes it. */
  datatype State = State(regs: seq<u64>, ip: u64)

  predicate WellFormed(s: State) {
    |s.regs| == RegisterCount
  }

  /** Outcome of the switch: the next state, or the opcode that hit `default` (`exit(1)`). */
  datatype Effect = Continue(next: State) | UnknownOpcode(opcode: u8)

  /** The 15 opcodes the switch handles. */
  const KnownOpcodes: set<u8> :=
    {0xF0, 0xF1, 0x18, 0x19, 0x20, 0x21, 0x24, 0x25, 0x40, 0x41, 0x42, 0x43, 0x44, 0x45, 0xE3}

  /** Opcodes that write `reg[X]`: MUL, ADD, SUB (register and immediate forms) and SETL. */
  const WritingOpcodes: set<u8> := {0x18, 0x19, 0x20, 0x21, 0x24, 0x25, 0xE3}

  /** Opcodes that may move the instruction pointer: JMP, BN, BZ, BP (forward and backward). */
  const BranchOpcodes: set<u8> := {0xF0, 0xF1, 0x40, 0x41, 0x42, 0x43, 0x44, 0x45}

  /** The `case` arms of the `switch (opcode)` in `execute_vm`, before the trailing `instr_ptr++`. */
  function Perform(s: State, w: Word): (r: State)
    requires WellFormed(s) && Opcode(w) in KnownOpcodes
    ensures WellFormed(r)
    ensures Opcode(w) in WritingOpcodes ==> r.ip == s.ip
    ensures Opcode(w) in BranchOpcodes ==> r.regs == s.regs
  {
    var op := Opcode(w);
    if op in {0xF0, 0xF1} then Jump(s, w)
    else if op in {0x18, 0x19, 0x20, 0x21, 0x24, 0x25} then Arithmetic(s, w)
    else if op in {0x40, 0x41, 0x42, 0x43, 0x44, 0x45} then Branch(s, w)
    else SetLow(s, w)
  }

  /** `case 0xF0` / `case 0xF1`: `instr_ptr += XYZ` / `instr_ptr -= XYZ`. */
  function Jump(s: State, w: Word): (r: State)
    requires Opcode(w) in {0xF0, 0xF1}
    ensures r.regs == s.regs
    ensures r.ip == (if Opcode(w) == 0xF0 then s.ip + FieldXYZ(w) else s.ip - FieldXYZ(w)) % Modulus64
  {
    var xyz := FieldXYZ(w);
    if Opcode(w) == 0xF0 then s.(ip := Wrap(s.ip + xyz)) else s.(ip := Wrap(s.ip - xyz))
  }

  /** `case 0x18` to `case 0x25`: `reg[X] = reg[Y] op reg[Z]` and `reg[X] = reg[Y] op Z`. */
  function Arithmetic(s: State, w: Word): (r: State)
    requires WellFormed(s) && Opcode(w) in {0x18, 0x19, 0x20, 0x21, 0x24, 0x25}
    ensures WellFormed(r) && r.ip == s.ip
    ensures forall i :: 0 <= i < RegisterCount && i != FieldX(w) ==> r.regs[i] == s.regs[i]
  {
    var op, x, y, z := Opcode(w), FieldX(w), FieldY(w), FieldZ(w);
    var r := s.regs;
    var v :=
      if op == 0x18 then Wrap(r[y] as int * r[z] as int)
      else if op == 0x19 then Wrap(r[y] as int * z)
      else if op == 0x20 then Wrap(r[y] as int + r[z] as int)
      else if op == 0x21 then Wrap(r[y] as int + z)
      else if op == 0x24 then Wrap(r[y] as int - r[z] as int)
      else Wrap(r[y] as int - z);
    s.(regs := r[x := v])
  }

  /**
   * `case 0x40` to `case 0x45`: BN, BZ, BP with `instr_ptr += YZ` (even
   * opcodes) or `instr_ptr -= YZ` (odd opcodes) when the test on reg[X] holds.
   */
  function Branch(s: State, w: Word): (r: State)
    requires WellFormed(s) && Opcode(w) in {0x40, 0x41, 0x42, 0x43, 0x44, 0x45}
    ensures r.regs == s.regs
    ensures r.ip != s.ip ==>
      if Opcode(w) in {0x42, 0x43} then s.regs[FieldX(w)] == 0 else s.regs[FieldX(w)] > 0
    ensures Opcode(w) in {0x40, 0x41} ==> r == s
  {
    var op, v, yz := Opcode(w), s.regs[FieldX(w)], FieldYZ(w);
    // BN tests `reg[X] < 0`, which a uint64_t never satisfies
    var taken := if op in {0x40, 0x41} then v < 0 else if op in {0x42, 0x43} then v == 0 else v > 0;
    if !taken then s
    else if op in {0x40, 0x42, 0x44} then s.(ip := Wrap(s.ip + yz))
    else s.(ip := Wrap(s.ip - yz))
  }

  /** `case 0xE3`: `reg[X] = YZ`. */
  function SetLow(s: State, w: Word): (r: State)
    requires WellFormed(s)
    ensures WellFormed(r) && r.ip == s.ip
    ensures r.regs[FieldX(w)] == FieldYZ(w) < 0x1_0000
    ensures forall i :: 0 <= i < RegisterCount && i != FieldX(w) ==> r.regs[i] == s.regs[i]
  {
    s.(regs := s.regs[FieldX(w) := FieldYZ(w)])
  }

  /** The whole `switch`: a handled opcode performs its arm, any other is the `default` that calls `exit(1)`. */
  function Apply(s: State, w: Word): (r: Effect)
    requires WellFormed(s)
    ensures r.UnknownOpcode? <==> Opcode(w) !in KnownOpcodes
    ensures r.UnknownOpcode? ==> r.opcode == Opcode(w)
    ensures r.Continue? ==> WellFormed(r.next)
  {
    if Opcode(w) in KnownOpcodes then Continue(Perform(s, w)) else UnknownOpcode(Opcode(w))
  }

  /** One executed instruction: the switch, then `instr_ptr++` (also after a branch). */
  function Step(s: State, w: Word): (r: Effect)
    requires WellFormed(s)
    ensures r.Continue? ==> WellFormed(r.next)
  {
    match Apply(s, w)
    case Continue(n) => Continue(n.(ip := Wrap(n.ip + 1)))
    case UnknownOpcode(op) => UnknownOpcode(op)
  }

  /**
   * A step fails exactly on the opcodes outside the 15 handled ones, naming
   * the opcode; otherwise it changes at most reg[X], branches and jumps change
   * no register, and register-writing instructions advance the pointer by one.
   */
  lemma StepFrame(s: State, w: Word)
    requires WellFormed(s)
    ensures Step(s, w).UnknownOpcode? <==> Opcode(w) !in KnownOpcodes
    ensures Step(s, w).UnknownOpcode? ==> Step(s, w).opcode == Opcode(w)
    ensures Step(s, w).Continue? ==>
      forall i :: 0 <= i < RegisterCount && i != FieldX(w) ==> Step(s, w).next.regs[i] == s.regs[i]
    ensures Step(s, w).Continue? && Opcode(w) in BranchOpcodes ==> Step(s, w).next.regs == s.regs
    ensures Step(s, w).Continue? && Opcode(w) in WritingOpcodes ==> Step(s, w).next.ip == Wrap(s.ip + 1)
  {
  }

  /** `instr_ptr += off` followed by `instr_ptr++`, both wrapping, lands on `ip + off + 1` modulo 2^64. */
  lemma WrapTwice(a: int)
    ensures Wrap(Wrap(a) + 1) == Wrap(a + 1)
  {
    var q := a / Modulus64;
    assert a == q * Modulus64 + Wrap(a);
    assert Wrap(a) + 1 + q * Modulus64 == a + 1;
    ModuloShift(Wrap(a) + 1, q);
  }

  lemma ModuloShift(a: int, q: int)
    ensures (a + q * Modulus64) % Modulus64 == a % Modulus64
  {
  }

  /**
   * MUL, ADD and SUB (0x18, 0x20, 0x24) store `(reg[Y] op reg[Z]) mod 2^64` in
   * `reg[X]`; their immediate forms (0x19, 0x21, 0x25) use the byte Z itself.
   * Both operands are the values before the write, so X may equal Y or Z.
   * Nothing else changes and the instruction pointer advances by one.
   */
  lemma ArithmeticStep(s: State, w: Word)
    requires WellFormed(s)
    requires Opcode(w) in {0x18, 0x19, 0x20, 0x21, 0x24, 0x25}
    ensures
      var op, x, y, z := Opcode(w), FieldX(w), FieldY(w), FieldZ(w);
      var a := s.regs[y];
      var b := if op in {0x18, 0x20, 0x24} then s.regs[z] else z;
      var v := if op in {0x18, 0x19} then a * b else if op in {0x20, 0x21} then a + b else a - b;
      Step(s, w) == Continue(State(s.regs[x := v % Modulus64], (s.ip + 1) % Modulus64))
  {
  }

  /** SUB and SUBI are unsigned: the result is `a - b`, or `a - b + 2^64` when `b > a`. */
  lemma SubtractionBorrows(s: State, w: Word)
    requires WellFormed(s)
    requires Opcode(w) in {0x24, 0x25}
    ensures
      var x, y, z := FieldX(w), FieldY(w), FieldZ(w);
      var a, b := s.regs[y], if Opcode(w) == 0x24 then s.regs[z] else z;
      Step(s, w).Continue? &&
      Step(s, w).next.regs[x] == if a >= b then a - b else a - b + Modulus64
  {
  }

  /** BZ (0x42/0x43) and BP (0x44/0x45): registers unchanged; when the test on reg[X] holds the pointer becomes `ip ± YZ + 1`, otherwise `ip + 1`, modulo 2^64. */
  lemma ConditionalBranchStep(s: State, w: Word)
    requires WellFormed(s)
    requires Opcode(w) in {0x42, 0x43, 0x44, 0x45}
    ensures
      var op, v, off := Opcode(w), s.regs[FieldX(w)], FieldYZ(w);
      var taken := if op in {0x42, 0x43} then v == 0 else v > 0;
      var target := if op in {0x42, 0x44} then s.ip + off + 1 else s.ip - off + 1;
      Step(s, w) == Continue(State(s.regs, if taken then target % Modulus64 else (s.ip + 1) % Modulus64))
  {
    var op, v, off := Opcode(w), s.regs[FieldX(w)], FieldYZ(w);
    var taken := if op in {0x42, 0x43} then v == 0 else v > 0;
    var forward := op in {0x42, 0x44};
    assert Apply(s, w) == Continue(Branch(s, w));
    if taken {
      assert Branch(s, w) == State(s.regs, Wrap(if forward then s.ip + off else s.ip - off));
      RelativeTarget(s.ip, off, forward);
    } else {
      assert Branch(s, w) == s;
    }
  }

  /** BN (0x40/0x41) compares a `uint64_t` with `< 0`, which never holds: it only advances the pointer. */
  lemma NegativeBranchNeverTaken(s: State, w: Word)
    requires WellFormed(s)
    requires Opcode(w) in {0x40, 0x41}
    ensures Step(s, w) == Continue(State(s.regs, (s.ip + 1) % Modulus64))
  {
  }

  /** JMP (0xF0) and JMP- (0xF1) set the pointer to `ip ± XYZ + 1` modulo 2^64 and change no register. */
  lemma JumpStep(s: State, w: Word)
    requires WellFormed(s)
    requires Opcode(w) in {0xF0, 0xF1}
    ensures
      var off := FieldXYZ(w);
      var target := if Opcode(w) == 0xF0 then s.ip + off + 1 else s.ip - off + 1;
      Step(s, w) == Continue(State(s.regs, target % Modulus64))
  {
    var off := FieldXYZ(w);
    var forward := Opcode(w) == 0xF0;
    assert Apply(s, w) == Continue(Jump(s, w));
    assert Jump(s, w) == State(s.regs, Wrap(if forward then s.ip + off else s.ip - off));
    RelativeTarget(s.ip, off, forward);
  }

  /** The two wrapping updates of a relative branch, as one reduction modulo 2^64. */
  lemma RelativeTarget(ip: int, off: int, forward: bool)
    ensures Wrap(Wrap(if forward then ip + off else ip - off) + 1)
         == (if forward then ip + off + 1 else ip - off + 1) % Modulus64
  {
    WrapTwice(if forward then ip + off else ip - off);
  }

  /** SETL (0xE3) loads the zero-extended YZ into reg[X], which is then below 2^16. */
  lemma SetLowStep(s: State, w: Word)
    requires WellFormed(s)
    requires Opcode(w) == 0xE3
    ensures Step(s, w) == Continue(State(s.regs[FieldX(w) := FieldYZ(w)], (s.ip + 1) % Modulus64))
    ensures Step(s, w).next.regs[FieldX(w)] < 0x1_0000
  {
    FieldsCompose(w);
    FieldsOfBytes(Opcode(w), FieldX(w), FieldY(w), FieldZ(w));
  }

  // ---------------------------------------------------------------------
  // The loop of execute_vm.

  /** Why a run returned: `instr_ptr >= ops_size`, `step == max_steps`, or `exit(1)` on an unknown opcode. */
  datatype Stop = EndOfProgram | BudgetExhausted | Fault(opcode: u8)

  /** Final registers and pointer, the number of `step++` performed, and why the loop ended. */
  datatype Exit = Exit(final: State, steps: nat, stop: Stop)

  /**
   * The loop of `execute_vm` with `budget` steps left: it stops before
   * fetching when the pointer is past the program, then when the budget is
   * spent; otherwise it counts the step and executes one instruction.
   */
  function Run(ops: seq<Word>, s: State, budget: nat): (e: Exit)
    requires WellFormed(s)
    ensures WellFormed(e.final)
    decreases budget, 1
  {
    if s.ip >= |ops| then Exit(s, 0, EndOfProgram)
    else if budget == 0 then Exit(s, 0, BudgetExhausted)
    else Advance(ops, s, budget)
  }

  /** One counted step of the loop: execute the instruction at the pointer, then go on with one step less. */
  function Advance(ops: seq<Word>, s: State, budget: nat): (e: Exit)
    requires WellFormed(s) && s.ip < |ops| && budget > 0
    ensures WellFormed(e.final)
    decreases budget, 0
  {
    match Step(s, ops[s.ip])
    case UnknownOpcode(op) => Exit(s, 1, Fault(op))
    case Continue(next) =>
      var e := Run(ops, next, budget - 1);
      e.(steps := e.steps + 1)
  }

  /**
   * The loop never fetches past `ops_size` and executes at most `budget`
   * instructions: it ends at the end of the program, after exactly `budget`
   * steps with the pointer still inside the program, or on an unknown opcode
   * at the pointer, which is counted as a step.
   */
  lemma {:induction false} RunBounds(ops: seq<Word>, s: State, budget: nat)
    requires WellFormed(s)
    ensures var e := Run(ops, s, budget);
      && e.steps <= budget
      && (e.stop == EndOfProgram ==> e.final.ip >= |ops|)
      && (e.stop == BudgetExhausted ==> e.steps == budget && e.final.ip < |ops|)
      && (e.stop.Fault? ==>
            e.steps >= 1 && e.final.ip < |ops| &&
            e.stop.opcode == Opcode(ops[e.final.ip]) && e.stop.opcode !in KnownOpcodes)
    decreases budget
  {
    if s.ip < |ops| && budget > 0 {
      StepFrame(s, ops[s.ip]);
      if Step(s, ops[s.ip]).Continue? {
        var next := Step(s, ops[s.ip]).next;
        RunBounds(ops, next, budget - 1);
        RunAfterStep(ops, s, budget);
      }
    }
  }

  /** Calling `execute_vm` again after the budget ran out continues where the first call stopped. */
  function Resume(ops: seq<Word>, e: Exit, more: nat): Exit
    requires WellFormed(e.final)
  {
    if e.stop == BudgetExhausted then
      var e2 := Run(ops, e.final, more);
      e2.(steps := e.steps + e2.steps)
    else e
  }

  /** A run with budget `a + b` is a run with budget `a` resumed with budget `b`. */
  lemma {:induction false} RunResume(ops: seq<Word>, s: State, a: nat, b: nat)
    requires WellFormed(s)
    ensures Run(ops, s, a + b) == Resume(ops, Run(ops, s, a), b)
    decreases a
  {
    if s.ip >= |ops| {
    } else if a == 0 {
      var e2 := Run(ops, s, b);
      assert e2.(steps := 0 + e2.steps) == e2;
    } else if Step(s, ops[s.ip]).Continue? {
      var next := Step(s, ops[s.ip]).next;
      RunResume(ops, next, a - 1, b);
      ResumeAfterStep(ops, Run(ops, next, a - 1), b);
      RunAfterStep(ops, s, a);
      RunAfterStep(ops, s, a + b);
    }
  }

  /** A run that executes its first instruction is that step followed by a run with one step less. */
  lemma RunAfterStep(ops: seq<Word>, s: State, budget: nat)
    requires WellFormed(s) && s.ip < |ops| && budget > 0 && Step(s, ops[s.ip]).Continue?
    ensures
      var e := Run(ops, Step(s, ops[s.ip]).next, budget - 1);
      Run(ops, s, budget) == e.(steps := e.steps + 1)
  {
  }

  /** Resuming commutes with counting one more step in front. */
  lemma ResumeAfterStep(ops: seq<Word>, e: Exit, b: nat)
    requires WellFormed(e.final)
    ensures Resume(ops, e.(steps := e.steps + 1), b) == Resume(ops, e, b).(steps := Resume(ops, e, b).steps + 1)
  {
  }

  /** The two exits taken before fetching: past the program, then out of budget. */
  lemma RunStops(ops: seq<Word>, s: State, budget: nat)
    requires WellFormed(s)
    ensures s.ip >= |ops| ==> Run(ops, s, budget) == Exit(s, 0, EndOfProgram)
    ensures s.ip < |ops| && budget == 0 ==> Run(ops, s, budget) == Exit(s, 0, BudgetExhausted)
  {
  }

  /** A fault stops the run with the registers and pointer as they were before the faulting instruction. */
  lemma FaultChangesNothing(ops: seq<Word>, s: State, budget: nat)
    requires WellFormed(s)
    requires s.ip < |ops| && budget > 0 && Opcode(ops[s.ip]) !in KnownOpcodes
    ensures Run(ops, s, budget) == Exit(s, 1, Fault(Opcode(ops[s.ip])))
  {
  }

  /** The all-zero word (opcode 0x00) is not an instruction: a run faults on its first step. */
  lemma ZeroWordFaults(s: State, budget: nat)
    requires WellFormed(s) && s.ip == 0 && budget > 0
    ensures Run([0], s, budget) == Exit(s, 1, Fault(0))
  {
  }

  /** `SETL $5,42` as the word 0x002A05E3 leaves 42 in reg[5] and ends the program after one step. */
  lemma SetLowScenario(s: State)
    requires WellFormed(s) && s.ip == 0
    ensures Run([0x002A_05E3], s, 10000) == Exit(State(s.regs[5 := 42], 1), 1, EndOfProgram)
  {
    var w: Word := 0x002A_05E3;
    var next := State(s.regs[5 := 42], 1);
    assert Step(s, w) == Continue(next) by {
      assert Opcode(w) == 0xE3 && FieldX(w) == 5 && FieldYZ(w) == 42;
      SetLowStep(s, w);
    }
    RunStops([w], next, 9999);
    RunAfterStep([w], s, 10000);
  }

  /** `JMP -1` (word 0x000001F1) jumps to itself: the run spends its whole budget, whatever it is, in place. */
  lemma {:induction false} SelfLoopExhaustsBudget(s: State, budget: nat)
    requires WellFormed(s) && s.ip == 0
    ensures Run([0x0000_01F1], s, budget) == Exit(s, budget, BudgetExhausted)
    decreases budget
  {
    var w: Word := 0x0000_01F1;
    if budget == 0 {
      RunStops([w], s, 0);
    } else {
      assert Step(s, w) == Continue(s) by {
        assert Opcode(w) == 0xF1 && FieldXYZ(w) == 1;
        JumpStep(s, w);
      }
      RunAfterStep([w], s, budget);
      SelfLoopExhaustsBudget(s, budget - 1);
    }
  }
}
