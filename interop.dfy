/**
 * What vm.c makes of the files asm.py writes. asm.py packs every number
 * big-endian (`>` in its `struct.pack` formats), while `loader` reads the
 * 8-byte count and each 4-byte word with `fread` straight into native
 * integers. On a little-endian host the register and opcode bytes of an
 * instruction land in their fields, the 16-bit immediates of SETL and BP
 * arrive with their two bytes swapped, and the 4-byte count is read as
 * the first half of an 8-byte one.
 */
module Interop {
  import opened Machine
  import opened Vm
  import opened Wrappers
  import opened PyText
  import opened Assembler

  /** The word `fread` stores from four bytes of an image on a little-endian host. */
  function HostWord(bytes: seq<Byte>): Word
    requires |bytes| == 4
  {
    WordOfBytes(bytes[0], bytes[1], bytes[2], bytes[3])
  }

  /** A 16-bit number with its two bytes exchanged. */
  function Swap16(n: nat): (r: nat)
    requires n < 0x1_0000
    ensures r < 0x1_0000
  {
    n % 0x100 * 0x100 + n / 0x100
  }

  /** Swapping twice gives the number back, and a swap changes nothing exactly when both bytes are equal. */
  lemma SwapInvolution(n: nat)
    requires n < 0x1_0000
    ensures Swap16(Swap16(n)) == n
    ensures Swap16(n) == n <==> n / 0x100 == n % 0x100
  {
    var hi, lo := n / 0x100, n % 0x100;
    assert Swap16(n) / 0x100 == lo && Swap16(n) % 0x100 == hi by {
      DivMod(lo, hi, 0x100);
    }
    if Swap16(n) == n {
      assert lo * 0x100 + hi == hi * 0x100 + lo;
      DivMod(lo, hi, 0x100);
      DivMod(hi, lo, 0x100);
    }
  }

  /** The fields the machine decodes from the word of an assembled instruction. */
  lemma HostFields(i: Instr)
    requires Fits(i)
    ensures var e, w := Encoding(i), HostWord(Encoding(i));
      && Opcode(w) == e[0] && FieldX(w) == e[1] && FieldY(w) == e[2] && FieldZ(w) == e[3]
      && FieldYZ(w) == e[2] as int + 0x100 * e[3] as int
  {
    var e := Encoding(i);
    FieldsOfBytes(e[0], e[1], e[2], e[3]);
  }

  /** MUL and SUB in the assembler's terms: the operation and whether Z is an immediate pick the opcode. */
  lemma ArithmeticByOperation(s: State, w: Word, op: ArithOp, x: nat, y: nat, z: nat, immediate: bool)
    requires WellFormed(s)
    requires Opcode(w) == (if op == Mul then 0x18 else 0x24) + (if immediate then 1 else 0)
    requires FieldX(w) == x && FieldY(w) == y && FieldZ(w) == z
    ensures
      var b := if immediate then z else s.regs[z];
      var v := if op == Mul then s.regs[y] * b else s.regs[y] - b;
      Step(s, w) == Continue(State(s.regs[x := v % Modulus64], (s.ip + 1) % Modulus64))
  {
    var a, next := s.regs[y], (s.ip + 1) % Modulus64;
    ArithmeticStep(s, w);
    if op == Mul && immediate {
      assert Step(s, w) == Continue(State(s.regs[x := a * z % Modulus64], next));
    } else if op == Mul {
      assert Step(s, w) == Continue(State(s.regs[x := a * s.regs[z] % Modulus64], next));
    } else if immediate {
      assert Step(s, w) == Continue(State(s.regs[x := (a - z) % Modulus64], next));
    } else {
      assert Step(s, w) == Continue(State(s.regs[x := (a - s.regs[z]) % Modulus64], next));
    }
  }

  /**
   * An assembled MUL or SUB executes as written: opcode, X, Y and Z arrive
   * in their fields, so `reg[x]` becomes `reg[y] * b` or `reg[y] - b` modulo
   * 2^64, with `b` the register Z or the immediate Z.
   */
  lemma AssembledArithmetic(op: ArithOp, x: nat, y: nat, z: nat, immediate: bool, s: State)
    requires Fits(Arith(op, x, y, z, immediate)) && WellFormed(s)
    ensures
      var b := if immediate then z else s.regs[z];
      var v := if op == Mul then s.regs[y] * b else s.regs[y] - b;
      Step(s, HostWord(Encoding(Arith(op, x, y, z, immediate))))
        == Continue(State(s.regs[x := v % Modulus64], (s.ip + 1) % Modulus64))
  {
    var w := HostWord(Encoding(Arith(op, x, y, z, immediate)));
    assert Opcode(w) == (if op == Mul then 0x18 else 0x24) + (if immediate then 1 else 0)
      && FieldX(w) == x && FieldY(w) == y && FieldZ(w) == z by {
      HostFields(Arith(op, x, y, z, immediate));
    }
    ArithmeticByOperation(s, w, op, x, y, z, immediate);
  }

  /** An assembled `SETL $x,n` loads `n` with its two bytes swapped, which is `n` only when both bytes are equal. */
  lemma AssembledSetLow(x: nat, n: nat, s: State)
    requires Fits(SetLow(x, n)) && WellFormed(s)
    ensures Step(s, HostWord(Encoding(SetLow(x, n))))
      == Continue(State(s.regs[x := Swap16(n)], (s.ip + 1) % Modulus64))
    ensures Step(s, HostWord(Encoding(SetLow(x, n)))).next.regs[x] == n <==> n / 0x100 == n % 0x100
  {
    var w := HostWord(Encoding(SetLow(x, n)));
    assert Opcode(w) == 0xE3 && FieldX(w) == x && FieldYZ(w) == Swap16(n) by {
      HostFields(SetLow(x, n));
    }
    SetLowStep(s, w);
    SwapInvolution(n);
  }

  /**
   * An assembled `BP $x,offset` (or `BP $x,-offset`) is the machine's BP
   * forward (or backward) with the offset's two bytes swapped.
   */
  lemma AssembledBranch(x: nat, offset: nat, backward: bool, s: State)
    requires Fits(BranchPositive(x, offset, backward)) && WellFormed(s)
    ensures
      var off := Swap16(offset);
      var target := if backward then s.ip - off + 1 else s.ip + off + 1;
      Step(s, HostWord(Encoding(BranchPositive(x, offset, backward))))
        == Continue(State(s.regs, if s.regs[x] > 0 then target % Modulus64 else (s.ip + 1) % Modulus64))
  {
    var w := HostWord(Encoding(BranchPositive(x, offset, backward)));
    assert Opcode(w) == (if backward then 0x45 else 0x44) && FieldX(w) == x && FieldYZ(w) == Swap16(offset) by {
      HostFields(BranchPositive(x, offset, backward));
    }
    ConditionalBranchStep(s, w);
  }

  /** The text of `SetLow(5, 42)`. */
  lemma SetLowText()
    ensures Text(SetLow(5, 42)) == "SETL $5,42"
  {
    assert Decimal(5) == "5" && Decimal(42) == "42";
    assert JoinWith(Operands(SetLow(5, 42)), ',') == "$5,42";
  }

  /** `SETL $5,42` is assembled to the bytes E3 05 00 2A, which the loader reads as the word 0x2A0005E3. */
  lemma SetLowWord()
    ensures Encoding(SetLow(5, 42)) == [0xE3, 0x05, 0x00, 0x2A]
    ensures HostWord(Encoding(SetLow(5, 42))) == 0x2A00_05E3
  {
  }

  /**
   * The word asm.py emits for `SETL $5,42`, read in host byte order and
   * placed at ops[0] as the only instruction, leaves 0x2A00 = 10752 in
   * reg[5], not 42.
   */
  lemma SetLowAcrossTools(s: State)
    requires WellFormed(s) && s.ip == 0
    ensures Run([HostWord(Encoding(SetLow(5, 42)))], s, 10000) == Exit(State(s.regs[5 := 10752], 1), 1, EndOfProgram)
  {
    var w: Word := 0x2A00_05E3;
    assert HostWord(Encoding(SetLow(5, 42))) == w by {
      SetLowWord();
    }
    assert Step(s, w) == Continue(State(s.regs[5 := 10752], 1)) by {
      assert Opcode(w) == 0xE3 && FieldX(w) == 5 && FieldYZ(w) == 10752;
      SetLowStep(s, w);
    }
    RunStops([w], State(s.regs[5 := 10752], 1), 9999);
    RunAfterStep([w], s, 10000);
  }

  /**
   * The four bytes asm.py writes for `SETL $5,42`, behind an 8-byte
   * little-endian count of 1 in place of the 4-byte big-endian count asm.py
   * writes, loaded by `loader` and run by `execute_vm` with the budget
   * `main` passes: one step, the end of the program, and 10752 in reg[5].
   */
  method LoadAndRunSetLow(registers: seq<u64>) returns (vm: VM, steps: nat, stop: Stop)
    requires |registers| == RegisterCount
    ensures vm.Valid() && vm.reg[..] == registers[5 := 10752] && vm.instrPtr == 1
    ensures steps == 1 && stop == EndOfProgram
  {
    var file: seq<u8> := [1, 0, 0, 0, 0, 0, 0, 0, 0xE3, 0x05, 0x00, 0x2A];
    var w := HostWord(Encoding(SetLow(5, 42)));
    assert file[8..] == Encoding(SetLow(5, 42)) && w == 0x2A00_05E3 by {
      SetLowWord();
    }
    assert LittleEndian(file[..8]) == 1 by {
      LittleEndianEight(file[..8]);
      LittleEndianWord(file[..8][..4]);
      LittleEndianWord(file[..8][4..]);
    }
    assert ProgramWords(file, 1) == [w];
    vm := VM.Load(file, registers);
    steps, stop := vm.Execute(10000);
    SetLowAcrossTools(State(registers, 0));
  }

  /** Eight bytes read as one little-endian number: the low four bytes, then 2^32 times the high four. */
  lemma LittleEndianEight(b: seq<u8>)
    requires |b| == 8
    ensures LittleEndian(b) == LittleEndian(b[..4]) + 0x1_0000_0000 * LittleEndian(b[4..])
    ensures LittleEndian(b[4..]) >= b[4]
  {
    var high := LittleEndian(b[4..]);
    assert b[4..][1..] == b[5..];
    assert b[3..][1..] == b[4..];
    assert b[2..][1..] == b[3..];
    assert b[1..][1..] == b[2..];
    assert b[..4][1..] == b[1..4];
    assert b[1..4][1..] == b[2..4];
    assert b[2..4][1..] == b[3..4];
    assert b[3..4][1..] == [];
    var l3 := LittleEndian(b[3..4]);
    var l2 := LittleEndian(b[2..4]);
    var l1 := LittleEndian(b[1..4]);
    assert l3 == b[3];
    assert LittleEndian(b[3..]) == l3 + 0x100 * high;
    assert LittleEndian(b[2..]) == l2 + 0x1_0000 * high;
    assert LittleEndian(b[1..]) == l1 + 0x100_0000 * high;
  }

  /**
   * On the per-line results: an image whose instructions all start with an
   * opcode byte the assembler emits, none of them zero, cannot be loaded.
   */
  lemma ImageOfNotLoadable(results: seq<Result<seq<Byte>, AsmError>>)
    requires ImageOf(results).Ok?
    requires forall i :: 0 <= i < |results| ==> results[i].Ok? ==> |results[i].value| == 4 && results[i].value[0] in EmittedOpcodes
    ensures var out := ImageOf(results).value;
      |results| == 0 ==> |out| < 8
    ensures var out := ImageOf(results).value;
      |results| > 0 ==>
        && |out| >= 8
        && LittleEndian(out[..8]) >= 0x1_0000_0000
        && LittleEndian(out[..8]) != |results|
        && 8 + 4 * LittleEndian(out[..8]) > |out|
  {
    var out := ImageOf(results).value;
    ImageOfLayout(results);
    if |results| > 0 {
      var first := results[0].value;
      assert out[4..8] == first;
      var head: seq<u8> := out[..8];
      assert head[4] == first[0] && first[0] in EmittedOpcodes;
      LittleEndianEight(head);
      MulAtLeast(LittleEndian(head[4..]), 0x1_0000_0000);
      assert PackL(|Collect(results).value|).Ok?;
    }
  }

  /**
   * No image asm.py writes can be loaded: with no instruction it is shorter
   * than the 8-byte count `loader` reads; otherwise the first opcode byte
   * falls in the high half of that count, which then exceeds 2^32 and the
   * number of instructions, so `loader` reads past the end of the file.
   */
  lemma ImageNotLoadable(lines: seq<string>)
    requires Image(lines).Ok?
    ensures var out := Image(lines).value;
      |lines| == 0 ==> |out| < 8
    ensures var out := Image(lines).value;
      |lines| > 0 ==>
        && |out| >= 8
        && LittleEndian(out[..8]) >= 0x1_0000_0000
        && LittleEndian(out[..8]) != |lines|
        && 8 + 4 * LittleEndian(out[..8]) > |out|
  {
    var results := Results(lines);
    assert Image(lines) == ImageOf(results);
    ImageOfNotLoadable(results);
  }
}
