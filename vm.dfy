/**
 * The `struct vm_t` of vm.c as a class: the instruction array `ops` with its
 * length `ops_size`, the 256 registers and the instruction pointer, with
 * `create_vm`, `loader` and `execute_vm` as its constructor and methods.
 */
module Vm {
  import opened Machine
  import opened Wrappers

  /** The number `fread` stores from these bytes on a little-endian host: the first byte is the lowest. */
  function LittleEndian(bytes: seq<u8>): (r: nat)
    ensures bytes != [] ==> r % 0x100 == bytes[0] && r / 0x100 == LittleEndian(bytes[1..])
  {
    if bytes == [] then 0
    else
      DivMod(LittleEndian(bytes[1..]), bytes[0], 0x100);
      bytes[0] + 0x100 * LittleEndian(bytes[1..])
  }

  /** Four bytes read little-endian are the word with those bytes, least significant first. */
  lemma LittleEndianWord(bytes: seq<u8>)
    requires |bytes| == 4
    ensures LittleEndian(bytes) == WordOfBytes(bytes[0], bytes[1], bytes[2], bytes[3])
  {
    assert bytes[1..][1..] == bytes[2..];
    assert bytes[2..][1..] == bytes[3..];
    assert bytes[3..][1..] == [];
  }

  /** `n` bytes hold numbers below 256^n; eight bytes fit a `uint64_t`. */
  lemma {:induction false} LittleEndianBound(bytes: seq<u8>)
    ensures LittleEndian(bytes) < Power256(|bytes|)
    decreases |bytes|
  {
    if bytes != [] {
      var rest, p := LittleEndian(bytes[1..]), Power256(|bytes| - 1);
      LittleEndianBound(bytes[1..]);
      ByteShiftBound(bytes[0], rest, p);
    }
  }

  /** A byte below 256 times a number below `p`: under `256 p`. */
  lemma ByteShiftBound(low: int, rest: int, p: int)
    requires 0 <= low < 0x100 && 0 <= rest < p
    ensures low + 0x100 * rest < 0x100 * p
  {
  }

  function Power256(n: nat): nat {
    if n == 0 then 1 else 0x100 * Power256(n - 1)
  }

  /** The program part of an image file: word `i` is bytes `8 + 4i` to `11 + 4i`, read little-endian like the count. */
  function ProgramWords(file: seq<u8>, count: nat): (r: seq<Word>)
    requires 8 + 4 * count <= |file|
    ensures |r| == count
    ensures forall i :: 0 <= i < count ==> r[i] == LittleEndian(file[8 + 4 * i..12 + 4 * i])
  {
    var r := seq(count, i requires 0 <= i < count => WordOfBytes(file[8 + 4 * i], file[9 + 4 * i], file[10 + 4 * i], file[11 + 4 * i]));
    assert forall i :: 0 <= i < count ==> r[i] == LittleEndian(file[8 + 4 * i..12 + 4 * i]) by {
      forall i | 0 <= i < count
        ensures r[i] == LittleEndian(file[8 + 4 * i..12 + 4 * i])
      {
        LittleEndianWord(file[8 + 4 * i..12 + 4 * i]);
      }
    }
    r
  }

  class VM {
    var ops: array<Word>
    var opsSize: u64
    var reg: array<u64>
    var instrPtr: u64

    /** `ops` holds `ops_size` words and there are 256 registers. */
    ghost predicate Valid()
      reads this
    {
      ops.Length == opsSize && reg.Length == RegisterCount
    }

    /** The registers and instruction pointer as a value of the instruction-set model. */
    function Snapshot(): (s: State)
      requires Valid()
      reads this, reg
      ensures WellFormed(s)
    {
      State(reg[..], instrPtr)
    }

    /**
     * `create_vm`: room for `programSize` words, `ops_size = programSize`,
     * `instr_ptr = 0`.  The C code leaves the registers uninitialised; here
     * their contents are a parameter.
     */
    constructor (programSize: u64, registers: seq<u64>)
      requires |registers| == RegisterCount
      ensures Valid() && fresh(ops) && fresh(reg)
      ensures opsSize == programSize && instrPtr == 0 && reg[..] == registers
    {
      ops := new Word[programSize];
      opsSize := programSize;
      reg := new u64[RegisterCount](i requires 0 <= i < RegisterCount => registers[i]);
      instrPtr := 0;
    }

    /**
     * `loader` on the bytes of an image file: the 8-byte `len` at the start,
     * then `create_vm(len)` and one 4-byte word per `ops[i]`, both read in
     * host byte order, taken to be little-endian.
     */
    static method Load(file: seq<u8>, registers: seq<u64>) returns (vm: VM)
      requires |file| >= 8 && 8 + 4 * LittleEndian(file[..8]) <= |file|
      requires |registers| == RegisterCount
      ensures vm.Valid() && fresh(vm.ops) && fresh(vm.reg)
      ensures vm.opsSize == LittleEndian(file[..8]) && vm.instrPtr == 0
      ensures vm.ops[..] == ProgramWords(file, vm.opsSize) && vm.reg[..] == registers
    {
      var len := LittleEndian(file[..8]);
      LittleEndianBound(file[..8]);
      vm := new VM(len, registers);
      ghost var words := ProgramWords(file, len);
      for i := 0 to len
        invariant fresh(vm.ops) && fresh(vm.reg)
        invariant vm.Valid() && vm.opsSize == len && vm.instrPtr == 0
        invariant vm.reg[..] == registers
        invariant vm.ops[..i] == words[..i]
      {
        vm.ops[i] := WordOfBytes(file[8 + 4 * i], file[9 + 4 * i], file[10 + 4 * i], file[11 + 4 * i]);
      }
      assert vm.ops[..] == vm.ops[..len];
    }

    /**
     * The `switch` of `execute_vm` on one fetched word, in place: it reads the
     * operands, then writes `reg[X]` or moves `instr_ptr`.  On an unknown
     * opcode (`exit(1)`) it returns that opcode and changes nothing.
     */
    method Dispatch(w: Word) returns (unknown: Option<u8>)
      requires Valid()
      modifies this`instrPtr, reg
      ensures Valid()
      ensures Apply(old(Snapshot()), w).UnknownOpcode? ==>
        unknown == Some(Apply(old(Snapshot()), w).opcode) && Snapshot() == old(Snapshot())
      ensures Apply(old(Snapshot()), w).Continue? ==>
        unknown == None && Snapshot() == Apply(old(Snapshot()), w).next
    {
      var opcode, x, y, z := Opcode(w), FieldX(w), FieldY(w), FieldZ(w);
      var yz, xyz := FieldYZ(w), FieldXYZ(w);
      unknown := None;
      if opcode == 0xF0 {
        instrPtr := Wrap(instrPtr + xyz);
      } else if opcode == 0xF1 {
        instrPtr := Wrap(instrPtr - xyz);
      } else if opcode == 0x18 {
        reg[x] := Wrap(reg[y] as int * reg[z] as int);
      } else if opcode == 0x19 {
        reg[x] := Wrap(reg[y] as int * z);
      } else if opcode == 0x20 {
        reg[x] := Wrap(reg[y] as int + reg[z] as int);
      } else if opcode == 0x21 {
        reg[x] := Wrap(reg[y] as int + z);
      } else if opcode == 0x24 {
        reg[x] := Wrap(reg[y] as int - reg[z] as int);
      } else if opcode == 0x25 {
        reg[x] := Wrap(reg[y] as int - z);
      } else if opcode == 0x40 || opcode == 0x41 {
        // BN tests `reg[X] < 0`, which a uint64_t never satisfies: no branch
      } else if opcode == 0x42 {
        if reg[x] == 0 { instrPtr := Wrap(instrPtr + yz); }
      } else if opcode == 0x43 {
        if reg[x] == 0 { instrPtr := Wrap(instrPtr - yz); }
      } else if opcode == 0x44 {
        if reg[x] > 0 { instrPtr := Wrap(instrPtr + yz); }
      } else if opcode == 0x45 {
        if reg[x] > 0 { instrPtr := Wrap(instrPtr - yz); }
      } else if opcode == 0xE3 {
        reg[x] := yz;
      } else {
        unknown := Some(opcode);
      }
    }

    /**
     * The body of the `execute_vm` loop once the two exit tests have passed:
     * fetch `ops[instr_ptr]`, run the switch, then `instr_ptr++`.  The new
     * registers and pointer are `Step` of the old ones on the fetched word;
     * seen from the run it belongs to, this is one counted step of `Run`.
     */
    method Cycle(ghost program: seq<Word>, ghost budget: nat) returns (unknown: Option<u8>)
      requires Valid() && ops[..] == program
      requires instrPtr < opsSize && budget > 0
      modifies this`instrPtr, reg
      ensures Valid()
      ensures unknown.Some? ==> Step(old(Snapshot()), program[old(instrPtr)]) == UnknownOpcode(unknown.value)
      ensures unknown.None? ==> Step(old(Snapshot()), program[old(instrPtr)]) == Continue(Snapshot())
      ensures unknown.Some? ==>
        Snapshot() == old(Snapshot()) &&
        Run(program, old(Snapshot()), budget) == Exit(Snapshot(), 1, Fault(unknown.value))
      ensures unknown.None? ==>
        var rest := Run(program, Snapshot(), budget - 1);
        Run(program, old(Snapshot()), budget) == rest.(steps := rest.steps + 1)
    {
      ghost var before := Snapshot();
      var w := ops[instrPtr];
      unknown := Dispatch(w);
      if unknown.Some? {
        FaultChangesNothing(program, before, budget);
        return;
      }
      instrPtr := Wrap(instrPtr + 1);
      assert Snapshot() == Step(before, w).next;
      RunAfterStep(program, before, budget);
    }

    /**
     * `execute_vm(vm, max_steps)`: the fetch/execute loop.  The result is the
     * number of steps counted and why the loop ended; registers and pointer
     * end as the instruction-set model's `Run` says.
     */
    method Execute(maxSteps: int) returns (steps: nat, stop: Stop)
      requires Valid()
      requires maxSteps >= 0
      modifies this`instrPtr, reg
      ensures Valid()
      ensures Run(ops[..], old(Snapshot()), maxSteps) == Exit(Snapshot(), steps, stop)
    {
      ghost var program, start := ops[..], Snapshot();
      var step := 0;
      while true
        invariant Valid() && 0 <= step <= maxSteps
        invariant ops[..] == program
        invariant
          var rest := Run(program, Snapshot(), maxSteps - step);
          Run(program, start, maxSteps) == rest.(steps := rest.steps + step)
        decreases maxSteps - step
      {
        RunStops(program, Snapshot(), maxSteps - step);
        if instrPtr >= opsSize {
          return step, EndOfProgram;
        }
        if step == maxSteps {
          return step, BudgetExhausted;
        }
        step := step + 1;
        var unknown := Cycle(program, maxSteps - (step - 1));
        if unknown.Some? {
          return step, Fault(unknown.value);
        }
      }
    }
  }
}
