# chillvm in Dafny

chillvm is a tiny register machine (`vm.c`) and its assembler (`asm.py`).
The machine has 256 unsigned 64-bit registers and a 64-bit instruction
pointer. It executes a program of 32-bit words: the opcode is the low
byte, then the register byte X and the operand bytes Y and Z. YZ and XYZ
are the 16- and 24-bit fields above the opcode and X. There are fifteen
opcodes: JMP forward and back, MUL/ADD/SUB with a register or an
immediate third operand, BN/BZ/BP forward and back, and SETL. An unknown
opcode ends the process with `exit(1)`. `execute_vm` stops at the end of
the program or after `max_steps` counted steps. The assembler turns
`MUL`, `SUB`, `BP` and `SETL` lines into four big-endian bytes each. It
writes a 4-byte big-endian count and then the instructions.

The project has six modules:

- `Machine` (machine.dfy): the instruction set as pure functions.
  - Field extraction, with the C truncations written out as `mod 2^n`.
  - The opcode switch, and `Step` (the switch, then `instr_ptr++`).
  - `Run`: the bounded loop of `execute_vm`, as a function of the program, the state and the remaining budget.
- `Vm` (vm.dfy): the `struct vm_t` as a class `VM` with arrays `ops` and `reg`.
  - `create_vm` is the constructor. `loader` is `Load`, which reads a byte image.
  - `execute_vm` is `Execute`, a loop proved against `Run`.
  - Its loop body is `Cycle`, and the switch in place is `Dispatch`.
- `PyText` (text.dfy): the pieces of Python the assembler relies on.
  - Iterating a file by lines, `str.rfind` and `str.split()`.
  - `str.split(',')`, `str.strip(c)` and `int()`.
  - Each comes with its inverse or the property the assembler needs.
- `Assembler` (assembler.dfy): `asm.py`.
  - The per-line encoder `EncodeLine` and its error cases.
  - The textual form of each instruction and the round trip from text to bytes.
  - The loop over the lines (`EncodeLines`) and the image (`Assemble`).
- `Interop` (interop.dfy): what `loader` and `execute_vm` make of the bytes `asm.py` writes.
  - It assumes a little-endian host.
- `Wrappers` (wrappers.dfy): `Option` and `Result`.

Two of the properties proved concern the pair of programs.

- **The immediates are byte-swapped.** Opcode, X, Y and Z of an assembled MUL or SUB land in the fields the machine decodes. The 16-bit immediates of SETL and BP arrive with their two bytes exchanged: the word `asm.py` emits for `SETL $5,42`, loaded as a program's only instruction, leaves 10752 in reg[5]. The image such a program needs has an 8-byte little-endian count, which `asm.py` does not write (next point).
- **No assembled image loads.** `loader` reads an 8-byte native count where `asm.py` writes a 4-byte big-endian one.
  - Every image `asm.py` produces is too short for the count `loader` reads, or that count exceeds the number of words in the file.
  - In the second case `loader` reads past the end of the file.

## Model

| member | source | states |
|---|---|---|
| Machine.FieldsCompose | vm.c:70-73 | a word is recomposed from its opcode, X, Y and Z bytes, low byte first |
| Machine.FieldsOfBytes | vm.c:70-76 | decoding a composed word yields its four bytes; YZ is Y + 256·Z (< 2^16); XYZ is X + 256·Y + 65536·Z (< 2^24) |
| Machine.Perform | vm.c:78-138 | a handled opcode's arm keeps 256 registers; writing arms keep the pointer; branch and jump arms keep the registers |
| Machine.Jump | vm.c:79-86 | JMP/JMP- keep the registers and set the pointer to ip ± XYZ mod 2^64 |
| Machine.Arithmetic | vm.c:87-110 | MUL/ADD/SUB keep the pointer and every register except reg[X] |
| Machine.Branch | vm.c:111-134 | BN/BZ/BP keep the registers and move the pointer only when the test on reg[X] holds (== 0 for BZ, > 0 for BP, never for BN) |
| Machine.SetLow | vm.c:135-138 | SETL stores YZ, below 2^16, in reg[X] and keeps the pointer and every other register |
| Machine.Apply | vm.c:78-142 | the switch fails exactly on an opcode outside the fifteen, naming it; otherwise the state stays well formed |
| Machine.Step | vm.c:78-144 | one executed instruction; a continuing step keeps 256 registers |
| Machine.StepFrame | vm.c:78-144 | a step fails exactly on the opcodes outside the fifteen handled and reports that opcode; otherwise only reg[X] may change; branches and jumps change no register; writing instructions advance the pointer by one |
| Machine.ArithmeticStep | vm.c:87-110 | MUL/ADD/SUB store (reg[Y] op reg[Z]) mod 2^64, or use the byte Z in the immediate forms; nothing else changes; the pointer advances by one |
| Machine.SubtractionBorrows | vm.c:103-110 | unsigned subtraction wraps: a − b, or a − b + 2^64 when b > a |
| Machine.ConditionalBranchStep | vm.c:119-134 | BZ/BP leave the registers; when the test on reg[X] holds the pointer becomes ip ± YZ + 1 mod 2^64, otherwise ip + 1 |
| Machine.NegativeBranchNeverTaken | vm.c:111-118 | BN tests an unsigned register for < 0, so it only advances the pointer |
| Machine.JumpStep | vm.c:79-86 | JMP sets the pointer to ip ± XYZ + 1 mod 2^64 and changes no register |
| Machine.RelativeTarget | vm.c:144 | two wrapping pointer updates equal one reduction of ip ± off + 1 |
| Machine.WrapTwice | vm.c:144 | reducing mod 2^64 before the increment does not change the result |
| Machine.SetLowStep | vm.c:135-138 | SETL loads the zero-extended YZ into reg[X], which is then below 2^16 |
| Machine.Run | vm.c:59-145 | the loop as a function of program, state and remaining budget; the final state is well formed |
| Machine.RunBounds | vm.c:59-145 | at most `budget` steps; the end of the program leaves ip ≥ ops_size; running out of budget takes exactly `budget` steps with ip still inside; a fault counts its step and names the unknown opcode at ip |
| Machine.RunResume | vm.c:65-68 | a run with budget a + b equals a run with budget a resumed with budget b |
| Machine.RunAfterStep | vm.c:68-144 | a run whose first instruction continues is that step followed by a run with one step less |
| Machine.ResumeAfterStep | vm.c:65-68 | resuming commutes with counting one more step first |
| Machine.RunStops | vm.c:60-67 | past the program the run stops before fetching, with no step; within it, budget 0 stops with no step |
| Machine.FaultChangesNothing | vm.c:139-141 | an unknown opcode stops the run after one counted step, registers and pointer untouched |
| Machine.ZeroWordFaults | vm.c:139-141 | the all-zero word is not an instruction |
| Machine.SetLowScenario | vm.c:135-138 | the word 0x002A05E3 leaves 42 in reg[5] and ends after one step |
| Machine.SelfLoopExhaustsBudget | vm.c:83-86 | `JMP -1` jumps to itself: for every budget the run ends in place after exactly that many steps, out of budget |
| Vm.LittleEndian | vm.c:40 | `fread` of bytes into an integer on a little-endian host: the first byte is the value mod 256, the rest is the value div 256 |
| Vm.LittleEndianWord | vm.c:46 | four bytes read little-endian are the word with those bytes, least significant first |
| Vm.ProgramWords | vm.c:45-47 | one word per `ops[i]`, each the little-endian reading of file bytes 8+4i to 11+4i |
| Vm.LittleEndianBound | vm.c:40 | n bytes hold a number below 256^n, so the 8-byte count fits a `uint64_t` |
| Vm.VM.Snapshot | vm.c:6-12 | the machine's registers and pointer as a well-formed state |
| Vm.VM.constructor | vm.c:14-22 | room for `program_size` words, ops_size = program_size, instr_ptr = 0, registers as given |
| Vm.VM.Load | vm.c:30-50 | ops_size is the little-endian 8-byte header; word i is bytes 8+4i to 11+4i; instr_ptr = 0 |
| Vm.VM.Dispatch | vm.c:78-142 | in place: an unknown opcode changes nothing and is returned; otherwise registers and pointer become those of the switch |
| Vm.VM.Cycle | vm.c:70-144 | one pass of the loop body: the new registers and pointer are `Step` of the old ones on `ops[instr_ptr]`, or the unknown opcode is returned with the state unchanged; it is one counted step of `Run` |
| Vm.VM.Execute | vm.c:52-146 | the final registers, pointer, step count and stop reason are exactly `Run(ops, start, max_steps)` |
| PyText.FlattenAppend | asm.py:53 | joining concatenated lists concatenates the joins |
| PyText.Lines | asm.py:13-15 | iterating a file: the lines concatenate back to the text; each but the last ends in its only newline; no lines exactly for the empty text |
| PyText.LinesOfLines | asm.py:15 | newline-terminated lines without inner newlines are yielded unchanged |
| PyText.RFind | asm.py:16 | `rfind`: −1 exactly when absent; otherwise the index holds `c` and no later index does |
| PyText.StripComment | asm.py:16 | the result is a prefix; with a `;` it stops at the last one; without, the last character is dropped |
| PyText.CommentRemoved | asm.py:16 | text then `;` then a comment without `;` leaves the text |
| PyText.NewlineRemoved | asm.py:16 | a line without `;` loses exactly its last character |
| PyText.Split | asm.py:17 | `split()`: non-empty fields without whitespace whose concatenation is the non-whitespace of the input |
| PyText.SplitAtSpace | asm.py:17 | a whitespace character separates fields: splitting distributes over it |
| PyText.SplitWord | asm.py:17 | a non-empty word without whitespace is one field |
| PyText.SplitBlank | asm.py:17-18 | whitespace alone gives no field |
| PyText.SplitTrailingBlank | asm.py:17 | trailing whitespace adds no field |
| PyText.SplitOn | asm.py:19 | `split(',')`: at least one part, none contains the separator, and joining them gives the input back |
| PyText.SplitOnJoin | asm.py:19 | splitting a join of separator-free parts returns the parts |
| PyText.Strip | asm.py:22 | `strip(c)`: no longer than the input, and neither starts nor ends with `c` |
| PyText.StripPadded | asm.py:30 | stripping removes exactly the run of `c` around a text that does not start or end with `c` |
| PyText.Accumulate | asm.py:23 | the digit scan succeeds exactly on all-digit text |
| PyText.AccumulateValue | asm.py:23 | scanning digits after `acc` gives acc · 10^k plus the digits' positional value |
| PyText.ParseInt | asm.py:23 | `int()`: a value exactly for an optional sign followed by digits; the value is the positional value of the digits, negated after `-` |
| PyText.LeadingZeros | asm.py:23 | leading zeros do not change the value of digits |
| PyText.DecimalValue | asm.py:23 | the decimal text of n has positional value n |
| PyText.ParseSigned | asm.py:23 | `int()` reads a sign (none, `+` or `-`), any leading zeros and the decimal text of n as ±n |
| PyText.Decimal | asm.py:23 | `str(n)` for a natural number: non-empty digits |
| PyText.AccumulateDecimal | asm.py:23 | reading the decimal text of n gives n |
| Assembler.PackBBBB | asm.py:32-33 | `pack('>BBBB')`: four bytes in order, or struct.error when one is outside 0..255 |
| Assembler.PackBBH | asm.py:42-43 | `pack('>BBH')`: two bytes, then a big-endian 16-bit number; struct.error when out of range |
| Assembler.PackL | asm.py:52 | `pack('>L')`: defined exactly below 2^32, four bytes whose big-endian value is the number |
| Assembler.BigEndianQuad | asm.py:52 | four bytes read big-endian |
| Assembler.ToInt | asm.py:23 | `int()` raising ValueError on anything but a numeral |
| Assembler.Arg | asm.py:23 | `args[k]`: defined exactly for k below the length, IndexError otherwise |
| Assembler.IntAt | asm.py:23 | `int(args[k])`: IndexError past the end, ValueError on a non-numeral, the parsed value otherwise |
| Assembler.EncodeSetLow | asm.py:21-23 | succeeds exactly when there are two operands, the register (with `$` stripped) is a numeral in 0..255 and the immediate one in 0..65535; otherwise ValueError on the first non-numeral, IndexError on a missing immediate, or struct.error, in Python's order of evaluation; a success is 0xE3, the register, and the immediate big-endian |
| Assembler.EncodeArith | asm.py:24-33 | succeeds exactly when the first three operands, `$` stripped, are numerals in 0..255 (further operands ignored); otherwise ValueError on the first non-numeral, IndexError on a missing operand, or struct.error, in order; the opcode is base + 1 exactly when the last operand has no `$`; the bytes are the parsed operands |
| Assembler.EncodeBranch | asm.py:34-43 | succeeds exactly when the offset operand exists and is non-empty, the register is a numeral in 0..255 and the offset (its `-` stripped) one in 0..65535; otherwise IndexError, ValueError on the register, then on the offset, or struct.error, in order; opcode 0x45 exactly when the offset starts with `-`, else 0x44 |
| Assembler.StripEach | asm.py:30 | `[arg.strip('$') for arg in args]`: same length, each element stripped |
| Assembler.EncodeFields | asm.py:21-46 | SETL, MUL/SUB and BP go to their encoders; an unknown mnemonic is rejected by name; a success is four bytes whose opcode is the table's or one above |
| Assembler.EncodeLine | asm.py:16-49 | fewer than two fields raise IndexError; otherwise the line's result is that of its mnemonic's encoder on the comma-separated pieces of its second field, so the encoders' success and error conditions hold of the line; an unknown mnemonic is rejected |
| Assembler.LenientOperands | asm.py:21-23 | `SETL $05,+42` encodes to E3 05 00 2A, as `SETL $5,42` does |
| Assembler.NegativeImmediateRejected | asm.py:23 | `SETL $1,-1` raises struct.error |
| Assembler.ExtraOperandIgnored | asm.py:25-33 | `MUL $1,$2,3,$4` is the register form with Z = 3: the opcode follows the last operand, the bytes the first three |
| Assembler.SplitInstructionText | asm.py:17-19 | the text of an instruction splits into mnemonic and operand list |
| Assembler.TextFields | asm.py:17-19 | the fields of `Text(i)` are its mnemonic and its joined operands |
| Assembler.ReadOperand | asm.py:30 | stripping the prefix and parsing gives back the operand |
| Assembler.EncodeOperands | asm.py:21-43 | the operands of an instruction encode to `Encoding(i)` when they fit, else struct.error |
| Assembler.EncodeText | asm.py:16-49 | the text of any instruction plus newline assembles to its encoding, or fails with struct.error |
| Assembler.CommentIgnored | asm.py:16 | a trailing comment, and whitespace before it, change nothing |
| Assembler.UnterminatedLastLine | asm.py:15-16 | a last line `SETL $x,n` (n ≥ 10) with neither newline nor comment loses the last digit of n: it assembles as `SETL $x,n/10` |
| Assembler.EmptyLinesRejected | asm.py:17-18 | blank and comment-only lines raise IndexError |
| Assembler.Results | asm.py:15-49 | each line's result is `EncodeLine` of it: four bytes with an emitted opcode when it succeeds |
| Assembler.Collect | asm.py:15-49 | all encodings in order, one per line, when every line succeeds |
| Assembler.ErrorPersists | asm.py:15-46 | once a line fails, the file fails with that error |
| Assembler.FirstError | asm.py:15-46 | the file fails with `e` exactly when some line fails with `e` and every earlier line succeeds |
| Assembler.CollectStep | asm.py:49 | a succeeding line is appended; a failing line ends the file with its error |
| Assembler.ImageOf | asm.py:51-53 | an image exists exactly when every result succeeds and there are fewer than 2^32; the first line error, or struct.error for the count, otherwise; its first four bytes are the count, big-endian |
| Assembler.Image | asm.py:13-54 | the output for the lines of a file: 4 + 4n bytes, starting with the count n big-endian |
| Assembler.ImageLayout | asm.py:51-53 | an image is the big-endian count, then each line's four bytes in order: 4 + 4n bytes |
| Assembler.ImageExists | asm.py:15-54 | an image exists exactly when every line encodes and the count is below 2^32; otherwise the first line error is the result |
| Assembler.EncodeLines | asm.py:14-49 | the loop equals `Collect` of the per-line results |
| Assembler.Assemble | asm.py:13-54 | the whole program equals `Image` of the lines of the input |
| Interop.Swap16 | asm.py:23 | exchanging the two bytes of a 16-bit number stays below 2^16 |
| Interop.SwapInvolution | asm.py:42-43 | swapping twice is the identity; a swap is the identity exactly when both bytes are equal |
| Interop.HostFields | vm.c:70-76 | the machine decodes an assembled word's bytes in file order as opcode, X, Y, Z |
| Interop.ArithmeticByOperation | vm.c:87-110 | MUL or SUB picked by operation and operand kind stores reg[Y] · b or reg[Y] − b mod 2^64 in reg[X], b being reg[Z] or the byte Z |
| Interop.AssembledArithmetic | asm.py:24-33 | an assembled MUL or SUB computes reg[y] · b or reg[y] − b mod 2^64 into reg[x] |
| Interop.AssembledSetLow | asm.py:21-23 | an assembled `SETL $x,n` loads n with its bytes swapped, which is n exactly when both bytes of n are equal |
| Interop.AssembledBranch | asm.py:34-43 | an assembled BP branches by the swapped offset, forward or backward as written |
| Interop.SetLowText | asm.py:21-23 | the text of `SetLow(5, 42)` is `SETL $5,42` |
| Interop.SetLowAcrossTools | vm.c:135-138 | the word `asm.py` emits for `SETL $5,42`, placed at ops[0] as the only instruction, runs one step and leaves 10752 in reg[5] |
| Interop.LoadAndRunSetLow | vm.c:148-166 | a file of an 8-byte little-endian count of 1 and the bytes `asm.py` emits for `SETL $5,42`, loaded by `Load` and run by `Execute` with budget 10000, ends after one step at the end of the program with 10752 in reg[5] |
| Interop.LittleEndianEight | vm.c:40 | an 8-byte count is its low four bytes plus 2^32 times its high four |
| Interop.ImageOfNotLoadable | vm.c:40-47 | an image of words whose opcodes the assembler emits (none is zero) is shorter than 8 bytes, or its first 8 bytes read as at least 2^32, which is not the word count, and the image is too short for that many words |
| Interop.ImageNotLoadable | asm.py:51-53 | the same for every image `asm.py` writes |

## Left out

- File handling is parameters here. The FILE handling of `fopen`/`fread` (a failing open, short reads), `printf`, `main`'s argument handling and exit status, and the `exit(1)` process exit (modelled as a `Fault` stop) are not modelled; the bytes `fread` delivers are modelled by `Vm.VM.Load`.
- `destroy_vm`/`free` are not modelled.
- `create_vm` allocates `program_size * sizeof(vm->ops)`, the size of a pointer. This over-allocation has no observable effect and is not modelled; neither is a failing `malloc`.
- `reg_sp` is never used by the code and is not modelled.
- Vm.VM.constructor: the C code leaves the registers uninitialised; their initial contents are a parameter.
- Vm.VM.Load: requires a file holding the 8-byte count and all the words it announces. On a shorter file `fread` leaves `len` or the words indeterminate, which the model does not represent.
- Vm.VM.Load: reads the count and words little-endian. Host byte order is an assumption of the model, not something the code fixes.
- Vm.VM.Load: assumes a 64-bit `size_t`, so `create_vm` keeps the whole `uint64_t` count as `ops_size`. With a 32-bit `size_t`, `ops_size` would be the count mod 2^32 while the loop still reads as many words as the count says.
- Vm.VM.Execute: requires `max_steps >= 0`. With a negative `max_steps` the C loop never meets its budget test and runs until the end of the program, a fault, or signed overflow of `step`.
- The printed trace of each instruction is not modelled.
- PyText.ParseInt: Python 2.7 `int()` also accepts surrounding whitespace, which cannot reach it here because `split()` leaves none. For a large numeral (`SETL $5,99999999999999999999`) it yields a `long`; the unbounded `int` of the model is that value, and the range check of `pack` then rejects it with struct.error, as Python does.
- Assembler.Assemble: `asm.py` opens and truncates the output file before `pack('>L')` can fail on a count of 2^32 or more. The model yields only the error, not the empty file.
- The `print` before `exit(1)` on an unknown mnemonic is not modelled; the error carries the mnemonic instead.
- vm.c has no halt or trap instruction: opcode 0x00, like every opcode outside the fifteen, is an unknown opcode.
- vm.c's registers are plain `uint64_t` values in host byte order; there is no memory budget and no register starts with a special value.
