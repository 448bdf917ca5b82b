/**
 * The assembler asm.py: each source line is encoded into a 4-byte
 * instruction, big-endian as `struct.pack('>…')` writes it, and the output
 * image is a 4-byte big-endian instruction count followed by the
 * instructions. Python's exceptions become `AsmError` values; nothing is
 * written when any line fails.
 */
module Assembler {
  import opened Wrappers
  import opened PyText

  type Byte = b: int | 0 <= b < 0x100

  /**
   * Why assembling stopped: an IndexError (a missing field, operand or
   * character), a ValueError from `int()`, a struct.error from `pack` (an
   * operand or the count outside its field, which Python 2.7 rejects rather
   * than masks), or an unknown mnemonic.
   */
  datatype AsmError =
    | MissingField
    | NotAnInteger(text: string)
    | OutOfRange
    | UnknownMnemonic(name: string)

  /** The base opcode of each mnemonic; the `+1` variants are chosen per line. */
  const OpcodeTable: map<string, Byte> := map["MUL" := 0x18, "SUB" := 0x24, "BP" := 0x44, "SETL" := 0xE3]

  /** Every first byte the assembler can emit. */
  const EmittedOpcodes: set<Byte> := {0x18, 0x19, 0x24, 0x25, 0x44, 0x45, 0xE3}

  /** The number a big-endian byte string stands for. */
  function BigEndian(bytes: seq<Byte>): nat {
    if bytes == [] then 0 else BigEndian(bytes[..|bytes| - 1]) * 0x100 + Last(bytes)
  }

  lemma BigEndianPair(p: Byte, q: Byte)
    ensures BigEndian([p, q]) == p * 0x100 + q
  {
    assert [p, q][..1] == [p];
    assert [p][..0] == [];
    assert BigEndian([p]) == p;
  }

  lemma BigEndianQuad(p: Byte, q: Byte, u: Byte, v: Byte)
    ensures BigEndian([p, q, u, v]) == ((p * 0x100 + q) * 0x100 + u) * 0x100 + v
  {
    assert [p, q, u, v][..3] == [p, q, u];
    assert [p, q, u][..2] == [p, q];
    BigEndianPair(p, q);
  }

  // ---------------------------------------------------------------- pack

  /** `pack('>BBBB', a, b, c, d)`: four unsigned bytes; struct.error when one does not fit. */
  function PackBBBB(a: int, b: int, c: int, d: int): (r: Result<seq<Byte>, AsmError>)
    ensures r.Ok? <==> 0 <= a < 0x100 && 0 <= b < 0x100 && 0 <= c < 0x100 && 0 <= d < 0x100
    ensures r.Ok? ==> r.value == [a, b, c, d]
    ensures r.Err? ==> r.error == OutOfRange
  {
    if 0 <= a < 0x100 && 0 <= b < 0x100 && 0 <= c < 0x100 && 0 <= d < 0x100 then Ok([a, b, c, d])
    else Err(OutOfRange)
  }

  /** `pack('>BBH', a, b, n)`: two unsigned bytes and a big-endian unsigned 16-bit number; struct.error in Python 2.7 when one does not fit. */
  function PackBBH(a: int, b: int, n: int): (r: Result<seq<Byte>, AsmError>)
    ensures r.Ok? <==> 0 <= a < 0x100 && 0 <= b < 0x100 && 0 <= n < 0x1_0000
    ensures r.Ok? ==> |r.value| == 4 && r.value[0] == a && r.value[1] == b && BigEndian(r.value[2..]) == n
    ensures r.Err? ==> r.error == OutOfRange
  {
    if 0 <= a < 0x100 && 0 <= b < 0x100 && 0 <= n < 0x1_0000 then
      var r := [a, b, n / 0x100, n % 0x100];
      assert r[2..] == [n / 0x100, n % 0x100];
      BigEndianPair(n / 0x100, n % 0x100);
      Ok(r)
    else Err(OutOfRange)
  }

  /** `pack('>L', n)`: a big-endian unsigned 32-bit number; struct.error in Python 2.7 when n does not fit. */
  function PackL(n: int): (r: Result<seq<Byte>, AsmError>)
    ensures r.Ok? <==> 0 <= n < 0x1_0000_0000
    ensures r.Ok? ==> |r.value| == 4 && BigEndian(r.value) == n
    ensures r.Err? ==> r.error == OutOfRange
  {
    if 0 <= n < 0x1_0000_0000 then
      var r := [n / 0x100 / 0x100 / 0x100, n / 0x100 / 0x100 % 0x100, n / 0x100 % 0x100, n % 0x100];
      BigEndianQuad(r[0], r[1], r[2], r[3]);
      Ok(r)
    else Err(OutOfRange)
  }

  // ---------------------------------------------------------- one line

  /** `int(text)`, raising ValueError on anything but a numeral. */
  function ToInt(text: string): (r: Result<int, AsmError>)
    ensures r.Ok? <==> IsNumeral(text)
    ensures r.Ok? ==> ParseInt(text) == Some(r.value)
    ensures r.Err? ==> r.error == NotAnInteger(text)
  {
    match ParseInt(text)
    case None => Err(NotAnInteger(text))
    case Some(v) => Ok(v)
  }

  /** `args[k]`, raising IndexError past the end. */
  function Arg(args: seq<string>, k: nat): (r: Result<string, AsmError>)
    ensures r.Ok? <==> k < |args|
    ensures r.Ok? ==> r.value == args[k]
    ensures r.Err? ==> r.error == MissingField
  {
    if k < |args| then Ok(args[k]) else Err(MissingField)
  }

  /** `int(args[k])`: IndexError past the end, else ValueError on anything but a numeral. */
  function IntAt(args: seq<string>, k: nat): (r: Result<int, AsmError>)
    ensures r.Ok? <==> k < |args| && IsNumeral(args[k])
    ensures r.Ok? ==> ParseInt(args[k]) == Some(r.value)
    ensures k >= |args| ==> r == Err(MissingField)
    ensures k < |args| && !IsNumeral(args[k]) ==> r == Err(NotAnInteger(args[k]))
  {
    var text :- Arg(args, k);
    ToInt(text)
  }

  /** `int(text)` succeeds with a value in `0 <= v < bound`, so that `pack` accepts it. */
  predicate NumeralBelow(text: string, bound: int) {
    IsNumeral(text) && 0 <= ParseInt(text).value < bound
  }

  /**
   * `SETL $X,N`: X (its `$` stripped) as a byte, N as a big-endian 16-bit
   * number. The arguments of `pack` are evaluated in order: `int(args[0])`,
   * then `args[1]` and `int(args[1])`, then the range checks of `pack`.
   */
  function EncodeSetLow(args: seq<string>): (r: Result<seq<Byte>, AsmError>)
    requires |args| > 0
    ensures r.Ok? <==> |args| >= 2 && NumeralBelow(Strip(args[0], '$'), 0x100) && NumeralBelow(args[1], 0x1_0000)
    ensures r.Err? ==>
      r.error == (if !IsNumeral(Strip(args[0], '$')) then NotAnInteger(Strip(args[0], '$'))
        else if |args| < 2 then MissingField
        else if !IsNumeral(args[1]) then NotAnInteger(args[1])
        else OutOfRange)
    ensures r.Ok? ==> |r.value| == 4 && r.value[0] == 0xE3
    ensures r.Ok? ==> ParseInt(Strip(args[0], '$')) == Some(r.value[1])
    ensures r.Ok? ==> ParseInt(args[1]) == Some(BigEndian(r.value[2..]))
  {
    var x :- ToInt(Strip(args[0], '$'));
    var n :- IntAt(args, 1);
    PackBBH(OpcodeTable["SETL"], x, n)
  }

  /**
   * `MUL`/`SUB $X,$Y,$Z` or `$X,$Y,Z`: the base opcode when the last operand
   * holds a `$`, the next one otherwise; the first three operands, `$`
   * stripped, as bytes, converted in order; further operands are ignored.
   */
  function EncodeArith(base: Byte, args: seq<string>): (r: Result<seq<Byte>, AsmError>)
    requires |args| > 0 && base < 0xFF
    ensures r.Ok? <==>
      && |args| >= 3
      && NumeralBelow(Strip(args[0], '$'), 0x100)
      && NumeralBelow(Strip(args[1], '$'), 0x100)
      && NumeralBelow(Strip(args[2], '$'), 0x100)
    ensures r.Err? ==>
      r.error == (if !IsNumeral(Strip(args[0], '$')) then NotAnInteger(Strip(args[0], '$'))
        else if |args| < 2 then MissingField
        else if !IsNumeral(Strip(args[1], '$')) then NotAnInteger(Strip(args[1], '$'))
        else if |args| < 3 then MissingField
        else if !IsNumeral(Strip(args[2], '$')) then NotAnInteger(Strip(args[2], '$'))
        else OutOfRange)
    ensures r.Ok? ==> |r.value| == 4 && r.value[0] == if '$' in Last(args) then base else base + 1
    ensures r.Ok? ==> ParseInt(Strip(args[0], '$')) == Some(r.value[1])
    ensures r.Ok? ==> ParseInt(Strip(args[1], '$')) == Some(r.value[2])
    ensures r.Ok? ==> ParseInt(Strip(args[2], '$')) == Some(r.value[3])
  {
    var offset := if '$' !in Last(args) then 1 else 0;
    var stripped := StripEach(args, '$');
    var x :- IntAt(stripped, 0);
    var y :- IntAt(stripped, 1);
    var z :- IntAt(stripped, 2);
    PackBBBB(base + offset, x, y, z)
  }

  /** The text `int()` reads as a BP offset: a leading `-` and every `-` at either end stripped. */
  function OffsetDigits(offset: string): string
    requires |offset| > 0
  {
    if offset[0] == '-' then Strip(offset, '-') else offset
  }

  /**
   * `BP $X,N` or `BP $X,-N`: a leading `-` selects the backward opcode and
   * is stripped; the magnitude is a big-endian 16-bit number. The operand's
   * first character is looked at before X is converted.
   */
  function EncodeBranch(args: seq<string>): (r: Result<seq<Byte>, AsmError>)
    requires |args| > 0
    ensures r.Ok? <==>
      && |args| >= 2 && |args[1]| > 0
      && NumeralBelow(Strip(args[0], '$'), 0x100)
      && NumeralBelow(OffsetDigits(args[1]), 0x1_0000)
    ensures r.Err? ==>
      r.error == (if |args| < 2 || args[1] == [] then MissingField
        else if !IsNumeral(Strip(args[0], '$')) then NotAnInteger(Strip(args[0], '$'))
        else if !IsNumeral(OffsetDigits(args[1])) then NotAnInteger(OffsetDigits(args[1]))
        else OutOfRange)
    ensures r.Ok? ==> |r.value| == 4 && |args| >= 2 && |args[1]| > 0
    ensures r.Ok? ==> r.value[0] == if args[1][0] == '-' then 0x45 else 0x44
    ensures r.Ok? ==> ParseInt(Strip(args[0], '$')) == Some(r.value[1])
    ensures r.Ok? ==> ParseInt(OffsetDigits(args[1])) == Some(BigEndian(r.value[2..]))
  {
    var xText := Strip(args[0], '$');
    var offsetText :- Arg(args, 1);
    if offsetText == [] then Err(MissingField)
    else
      var backward := offsetText[0] == '-';
      var x :- ToInt(xText);
      var n :- ToInt(OffsetDigits(offsetText));
      PackBBH(OpcodeTable["BP"] + if backward then 1 else 0, x, n)
  }

  /** `[arg.strip(c) for arg in args]`. */
  function StripEach(args: seq<string>, c: char): (r: seq<string>)
    ensures |r| == |args|
    ensures forall k :: 0 <= k < |args| ==> r[k] == Strip(args[k], c)
  {
    seq(|args|, k requires 0 <= k < |args| => Strip(args[k], c))
  }

  /** The mnemonic picks the encoder; any other mnemonic is rejected. */
  function EncodeFields(mnemonic: string, args: seq<string>): (r: Result<seq<Byte>, AsmError>)
    requires |args| > 0
    ensures mnemonic == "SETL" ==> r == EncodeSetLow(args)
    ensures mnemonic == "MUL" || mnemonic == "SUB" ==> r == EncodeArith(OpcodeTable[mnemonic], args)
    ensures mnemonic == "BP" ==> r == EncodeBranch(args)
    ensures mnemonic !in OpcodeTable ==> r == Err(UnknownMnemonic(mnemonic))
    ensures r.Ok? ==> |r.value| == 4 && r.value[0] in EmittedOpcodes
    ensures r.Ok? ==> mnemonic in OpcodeTable && OpcodeTable[mnemonic] <= r.value[0] <= OpcodeTable[mnemonic] + 1
  {
    if mnemonic == "SETL" then EncodeSetLow(args)
    else if mnemonic == "MUL" || mnemonic == "SUB" then EncodeArith(OpcodeTable[mnemonic], args)
    else if mnemonic == "BP" then EncodeBranch(args)
    else Err(UnknownMnemonic(mnemonic))
  }

  /**
   * One pass of the loop body of asm.py: cut the comment, split the rest on
   * whitespace, take the mnemonic and the comma-separated operands of the
   * second field. A line with fewer than two fields raises IndexError
   * before the mnemonic is looked at; fields after the second are ignored.
   */
  function EncodeLine(line: string): (r: Result<seq<Byte>, AsmError>)
    ensures r.Ok? ==> |r.value| == 4 && r.value[0] in EmittedOpcodes
    ensures |Split(StripComment(line))| < 2 ==> r == Err(MissingField)
    ensures var fields := Split(StripComment(line));
      |fields| >= 2 && fields[0] !in OpcodeTable ==> r == Err(UnknownMnemonic(fields[0]))
    ensures var fields := Split(StripComment(line));
      |fields| >= 2 ==> r == EncodeFields(fields[0], SplitOn(fields[1], ','))
    ensures var fields := Split(StripComment(line));
      r.Ok? ==>
        && |fields| >= 2
        && fields[0] in OpcodeTable
        && OpcodeTable[fields[0]] <= r.value[0] <= OpcodeTable[fields[0]] + 1
  {
    var fields := Split(StripComment(line));
    if |fields| < 2 then Err(MissingField)
    else EncodeFields(fields[0], SplitOn(fields[1], ','))
  }

  // ------------------------------------------------------ canonical text

  datatype ArithOp = Mul | Sub

  /** An instruction as it is written in assembly source, operands as numbers. */
  datatype Instr =
    | SetLow(x: nat, n: nat)
    | Arith(op: ArithOp, x: nat, y: nat, z: nat, immediate: bool)
    | BranchPositive(x: nat, offset: nat, backward: bool)

  function Mnemonic(i: Instr): string {
    match i
    case SetLow(_, _) => "SETL"
    case Arith(Mul, _, _, _, _) => "MUL"
    case Arith(Sub, _, _, _, _) => "SUB"
    case BranchPositive(_, _, _) => "BP"
  }

  /** The operands as written: registers with `$`, immediates and offsets without. */
  function Operands(i: Instr): seq<string> {
    match i
    case SetLow(x, n) => ["$" + Decimal(x), Decimal(n)]
    case Arith(_, x, y, z, immediate) =>
      ["$" + Decimal(x), "$" + Decimal(y), (if immediate then "" else "$") + Decimal(z)]
    case BranchPositive(x, offset, backward) => ["$" + Decimal(x), (if backward then "-" else "") + Decimal(offset)]
  }

  /** The source text of an instruction, e.g. `SETL $5,42` or `SUB $1,$1,1`. */
  function Text(i: Instr): string {
    Mnemonic(i) + " " + JoinWith(Operands(i), ',')
  }

  /** Whether every operand fits its field: bytes for registers and Z, 16 bits for N and offsets. */
  predicate Fits(i: Instr) {
    match i
    case SetLow(x, n) => x < 0x100 && n < 0x1_0000
    case Arith(_, x, y, z, _) => x < 0x100 && y < 0x100 && z < 0x100
    case BranchPositive(x, offset, _) => x < 0x100 && offset < 0x1_0000
  }

  /** The four bytes an instruction stands for: the opcode, then X and the big-endian operand fields. */
  function Encoding(i: Instr): seq<Byte>
    requires Fits(i)
  {
    match i
    case SetLow(x, n) => [0xE3, x, n / 0x100, n % 0x100]
    case Arith(op, x, y, z, immediate) =>
      [(if op == Mul then 0x18 else 0x24) + (if immediate then 1 else 0), x, y, z]
    case BranchPositive(x, offset, backward) => [0x44 + (if backward then 1 else 0), x, offset / 0x100, offset % 0x100]
  }

  /** A piece of an operand list: non-empty, with no whitespace, comma or semicolon. */
  predicate Token(s: string) {
    |s| > 0 && NoSpace(s) && ',' !in s && ';' !in s
  }

  /** A decimal numeral, after an optional `$` or `-`, is a token that neither starts nor ends with `$` or `-` past the prefix. */
  lemma DecimalToken(prefix: string, n: nat)
    requires prefix == "" || prefix == "$" || prefix == "-"
    ensures Token(prefix + Decimal(n))
    ensures '$' !in Decimal(n) && '-' !in Decimal(n)
    ensures Decimal(n)[0] != '$' && Decimal(n)[0] != '-' && Last(Decimal(n)) != '$' && Last(Decimal(n)) != '-'
  {
    var d := Decimal(n);
    assert forall k :: 0 <= k < |d| ==> IsDigit(d[k]);
    var t := prefix + d;
    assert forall k :: 0 <= k < |t| ==> t[k] == (if k < |prefix| then prefix[k] else d[k - |prefix|]);
  }

  /** Joining tokens with commas gives a string without whitespace or semicolon. */
  lemma {:induction false} JoinTokens(parts: seq<string>)
    requires |parts| > 0 && forall k :: 0 <= k < |parts| ==> Token(parts[k])
    ensures |JoinWith(parts, ',')| > 0 && NoSpace(JoinWith(parts, ',')) && ';' !in JoinWith(parts, ',')
    decreases |parts|
  {
    if |parts| > 1 {
      JoinTokens(parts[1..]);
      var t := JoinWith(parts[1..], ',');
      var s := parts[0] + [','] + t;
      assert forall k :: 0 <= k < |s| ==> s[k] == (if k < |parts[0]| then parts[0][k] else if k == |parts[0]| then ',' else t[k - |parts[0]| - 1]);
    }
  }

  lemma OperandsAreTokens(i: Instr)
    ensures |Operands(i)| > 0 && forall k :: 0 <= k < |Operands(i)| ==> Token(Operands(i)[k])
  {
    match i
    case SetLow(x, n) =>
      DecimalToken("$", x);
      DecimalToken("", n);
      assert "" + Decimal(n) == Decimal(n);
    case Arith(_, x, y, z, immediate) =>
      DecimalToken("$", x);
      DecimalToken("$", y);
      DecimalToken(if immediate then "" else "$", z);
    case BranchPositive(x, offset, backward) =>
      DecimalToken("$", x);
      DecimalToken(if backward then "-" else "", offset);
  }

  /** A mnemonic is a single word without a semicolon. */
  lemma MnemonicWord(i: Instr)
    ensures |Mnemonic(i)| > 0 && NoSpace(Mnemonic(i)) && ';' !in Mnemonic(i)
  {
  }

  /** A word, one space and comma-joined tokens: two fields, the second splitting back into the tokens. */
  lemma SplitInstructionText(m: string, parts: seq<string>)
    requires |m| > 0 && NoSpace(m) && ';' !in m
    requires |parts| > 0 && forall k :: 0 <= k < |parts| ==> Token(parts[k])
    ensures ';' !in m + " " + JoinWith(parts, ',')
    ensures Split(m + " " + JoinWith(parts, ',')) == [m, JoinWith(parts, ',')]
    ensures SplitOn(JoinWith(parts, ','), ',') == parts
  {
    JoinTokens(parts);
    var j := JoinWith(parts, ',');
    assert m + " " + j == m + [' '] + j;
    assert ';' !in m + [' '] + j;
    assert Split(m + [' '] + j) == [m, j] by {
      SplitAtSpace(m, ' ', j);
      SplitWord(m);
      SplitWord(j);
    }
    SplitOnJoin(parts, ',');
  }

  /** The text of an instruction splits into its mnemonic and its comma-separated operands. */
  lemma TextFields(i: Instr)
    ensures ';' !in Text(i)
    ensures Split(Text(i)) == [Mnemonic(i), JoinWith(Operands(i), ',')]
    ensures SplitOn(JoinWith(Operands(i), ','), ',') == Operands(i)
  {
    MnemonicWord(i);
    OperandsAreTokens(i);
    SplitInstructionText(Mnemonic(i), Operands(i));
  }

  /** A decimal numeral converts back to its number. */
  lemma ReadDecimal(n: nat)
    ensures ToInt(Decimal(n)) == Ok(n)
  {
    assert Decimal(n) == "" + "" + Decimal(n);
    ParseSigned("", "", n);
  }

  /** An operand written with an optional `$` or `-` before its numeral converts back once that is stripped. */
  lemma ReadOperand(prefix: string, n: nat, c: char)
    requires prefix == "" || prefix == [c]
    requires c == '$' || c == '-'
    ensures ToInt(Strip(prefix + Decimal(n), c)) == Ok(n)
  {
    DecimalToken("", n);
    assert prefix + Decimal(n) == prefix + Decimal(n) + "";
    StripPadded(prefix, Decimal(n), "", c);
    ReadDecimal(n);
  }

  lemma EncodeSetLowOperands(x: nat, n: nat)
    ensures EncodeSetLow(Operands(SetLow(x, n))) ==
      if Fits(SetLow(x, n)) then Ok(Encoding(SetLow(x, n))) else Err(OutOfRange)
  {
    var args := Operands(SetLow(x, n));
    ReadOperand("$", x, '$');
    ReadDecimal(n);
    assert ToInt(Strip(args[0], '$')) == Ok(x);
    assert IntAt(args, 1) == Ok(n);
    assert EncodeSetLow(args) == PackBBH(0xE3, x, n);
  }

  /** The `$` test on the last operand and the stripped operands of an arithmetic instruction's text. */
  lemma ArithOperandTexts(op: ArithOp, x: nat, y: nat, z: nat, immediate: bool)
    ensures var args := Operands(Arith(op, x, y, z, immediate));
      && ('$' in Last(args) <==> !immediate)
      && StripEach(args, '$') == [Decimal(x), Decimal(y), Decimal(z)]
  {
    var args := Operands(Arith(op, x, y, z, immediate));
    var p := if immediate then "" else "$";
    DecimalToken(p, z);
    DecimalToken("$", x);
    DecimalToken("$", y);
    assert Last(args) == p + Decimal(z);
    assert '$' in Last(args) <==> !immediate by {
      if !immediate {
        assert Last(args)[0] == '$';
      }
    }
    StripPadded("$", Decimal(x), "", '$');
    StripPadded("$", Decimal(y), "", '$');
    StripPadded(p, Decimal(z), "", '$');
    assert "$" + Decimal(x) + "" == args[0];
    assert "$" + Decimal(y) + "" == args[1];
    assert p + Decimal(z) + "" == args[2];
  }

  lemma EncodeArithOperands(op: ArithOp, x: nat, y: nat, z: nat, immediate: bool)
    ensures var i := Arith(op, x, y, z, immediate);
      EncodeArith(if op == Mul then 0x18 else 0x24, Operands(i)) == if Fits(i) then Ok(Encoding(i)) else Err(OutOfRange)
  {
    var args := Operands(Arith(op, x, y, z, immediate));
    ArithOperandTexts(op, x, y, z, immediate);
    var stripped := [Decimal(x), Decimal(y), Decimal(z)];
    ReadDecimal(x);
    ReadDecimal(y);
    ReadDecimal(z);
    assert IntAt(stripped, 0) == Ok(x);
    assert IntAt(stripped, 1) == Ok(y);
    assert IntAt(stripped, 2) == Ok(z);
  }

  lemma EncodeBranchOperands(x: nat, offset: nat, backward: bool)
    ensures var i := BranchPositive(x, offset, backward);
      EncodeBranch(Operands(i)) == if Fits(i) then Ok(Encoding(i)) else Err(OutOfRange)
  {
    var args := Operands(BranchPositive(x, offset, backward));
    var p := if backward then "-" else "";
    ReadOperand("$", x, '$');
    DecimalToken(p, offset);
    assert args[1] == p + Decimal(offset);
    assert args[1][0] == '-' <==> backward;
    var magnitude := if backward then Strip(args[1], '-') else args[1];
    assert ToInt(magnitude) == Ok(offset) by {
      if backward {
        ReadOperand(p, offset, '-');
      } else {
        assert args[1] == Decimal(offset);
        ReadDecimal(offset);
      }
    }
    assert EncodeBranch(args) == PackBBH(0x44 + if backward then 1 else 0, x, offset);
  }

  /** The operands of an instruction encode to its four bytes, or fail with struct.error when one does not fit. */
  lemma EncodeOperands(i: Instr)
    ensures EncodeFields(Mnemonic(i), Operands(i)) == if Fits(i) then Ok(Encoding(i)) else Err(OutOfRange)
  {
    match i
    case SetLow(x, n) =>
      assert EncodeFields("SETL", Operands(i)) == EncodeSetLow(Operands(i));
      EncodeSetLowOperands(x, n);
    case Arith(op, x, y, z, immediate) =>
      assert EncodeFields(Mnemonic(i), Operands(i)) == EncodeArith(if op == Mul then 0x18 else 0x24, Operands(i));
      EncodeArithOperands(op, x, y, z, immediate);
    case BranchPositive(x, offset, backward) =>
      assert EncodeFields("BP", Operands(i)) == EncodeBranch(Operands(i));
      EncodeBranchOperands(x, offset, backward);
  }

  /**
   * A line holding the text of an instruction and its newline assembles to
   * the instruction's four bytes, or fails with struct.error when an
   * operand does not fit its field.
   */
  lemma EncodeText(i: Instr)
    ensures EncodeLine(Text(i) + "\n") == if Fits(i) then Ok(Encoding(i)) else Err(OutOfRange)
  {
    TextFields(i);
    NewlineRemoved(Text(i), '\n');
    EncodeOperands(i);
  }

  /** A comment after the instruction, with any whitespace before its `;`, changes nothing. */
  lemma CommentIgnored(i: Instr, pad: string, comment: string)
    requires Blank(pad) && ';' !in comment
    ensures EncodeLine(Text(i) + pad + ";" + comment) == EncodeLine(Text(i) + "\n")
  {
    TextFields(i);
    CommentRemoved(Text(i) + pad, comment);
    SplitTrailingBlank(Text(i), pad);
    NewlineRemoved(Text(i), '\n');
  }

  /**
   * A last line with neither newline nor comment loses its final character:
   * `SETL $X,N` there assembles as `SETL $X,M` with M the number N without
   * its last digit.
   */
  lemma UnterminatedLastLine(x: nat, n: nat)
    requires n >= 10
    ensures EncodeLine(Text(SetLow(x, n))) == EncodeLine(Text(SetLow(x, n / 10)) + "\n")
  {
    var shorter := Text(SetLow(x, n / 10));
    var d := DigitChar(n % 10);
    assert Decimal(n) == Decimal(n / 10) + [d];
    assert JoinWith(Operands(SetLow(x, n)), ',') == "$" + Decimal(x) + [','] + Decimal(n);
    assert JoinWith(Operands(SetLow(x, n / 10)), ',') == "$" + Decimal(x) + [','] + Decimal(n / 10);
    assert Text(SetLow(x, n)) == shorter + [d];
    TextFields(SetLow(x, n / 10));
    NewlineRemoved(shorter, DigitChar(n % 10));
    NewlineRemoved(shorter, '\n');
  }

  /** An empty line and a line holding only a comment raise IndexError. */
  lemma EmptyLinesRejected(pad: string, comment: string)
    requires Blank(pad) && ';' !in comment
    ensures EncodeLine(pad + "\n") == Err(MissingField)
    ensures EncodeLine(pad + ";" + comment) == Err(MissingField)
  {
    assert ';' !in pad;
    NewlineRemoved(pad, '\n');
    CommentRemoved(pad, comment);
    SplitBlank(pad);
  }

  /** `int()` accepts a `+` sign and leading zeros: `SETL $05,+42` encodes as `SETL $5,42` does. */
  lemma LenientOperands()
    ensures EncodeSetLow(["$05", "+42"]) == Ok([0xE3, 5, 0, 42])
  {
    assert Strip("$" + "05" + "", '$') == "05" by {
      StripPadded("$", "05", "", '$');
    }
    assert ParseInt("" + "0" + Decimal(5)) == Some(5) by {
      ParseSigned("", "0", 5);
    }
    assert ParseInt("+" + "" + Decimal(42)) == Some(42) by {
      ParseSigned("+", "", 42);
    }
    BigEndianPair(0, 42);
  }

  /** A negative SETL immediate is a numeral, but `pack('>BBH')` rejects it: struct.error. */
  lemma NegativeImmediateRejected()
    ensures EncodeSetLow(["$1", "-1"]) == Err(OutOfRange)
  {
    assert Strip("$" + "1" + "", '$') == "1" by {
      StripPadded("$", "1", "", '$');
    }
    assert ParseInt("" + "" + Decimal(1)) == Some(1) by {
      ParseSigned("", "", 1);
    }
    assert ParseInt("-" + "" + Decimal(1)) == Some(-1) by {
      ParseSigned("-", "", 1);
    }
  }

  /**
   * MUL and SUB read only their first three operands, while the opcode
   * follows the `$` of the last one: `MUL $1,$2,3,$4` is the register form
   * with Z = 3.
   */
  lemma ExtraOperandIgnored()
    ensures EncodeArith(0x18, ["$1", "$2", "3", "$4"]) == Ok([0x18, 1, 2, 3])
  {
    var args := ["$1", "$2", "3", "$4"];
    assert Strip(args[0], '$') == "1" && Strip(args[1], '$') == "2" && Strip(args[2], '$') == "3" by {
      assert args[0] == "$" + "1" + "" && args[1] == "$" + "2" + "" && args[2] == "" + "3" + "";
      StripPadded("$", "1", "", '$');
      StripPadded("$", "2", "", '$');
      StripPadded("", "3", "", '$');
    }
    assert ParseInt("1") == Some(1) && ParseInt("2") == Some(2) && ParseInt("3") == Some(3) by {
      assert "1" == "" + "" + Decimal(1) && "2" == "" + "" + Decimal(2) && "3" == "" + "" + Decimal(3);
      ParseSigned("", "", 1);
      ParseSigned("", "", 2);
      ParseSigned("", "", 3);
    }
    assert '$' in Last(args);
    var r := EncodeArith(0x18, args);
    assert r.Ok? && r.value[1] == 1 && r.value[2] == 2 && r.value[3] == 3;
    assert r.value == [0x18, 1, 2, 3];
  }

  // ---------------------------------------------------------- whole file

  /** What each line of a file encodes to, in order. */
  function Results(lines: seq<string>): (r: seq<Result<seq<Byte>, AsmError>>)
    ensures |r| == |lines|
    ensures forall i :: 0 <= i < |lines| ==> r[i] == EncodeLine(lines[i])
    ensures forall i :: 0 <= i < |lines| ==> r[i].Ok? ==> |r[i].value| == 4 && r[i].value[0] in EmittedOpcodes
  {
    seq(|lines|, i requires 0 <= i < |lines| => EncodeLine(lines[i]))
  }

  /**
   * The loop of asm.py over the per-line results: the encodings in order,
   * or the first error (later lines are never looked at).
   */
  function Collect(results: seq<Result<seq<Byte>, AsmError>>): (r: Result<seq<seq<Byte>>, AsmError>)
    ensures r.Ok? ==> |r.value| == |results|
    ensures r.Ok? ==> forall i :: 0 <= i < |results| ==> results[i] == Ok(r.value[i])
    decreases |results|
  {
    if results == [] then Ok([])
    else
      var init :- Collect(results[..|results| - 1]);
      var last :- Last(results);
      Ok(init + [last])
  }

  /** Once a prefix of the results fails, the whole file fails with the same error. */
  lemma {:induction false} ErrorPersists(results: seq<Result<seq<Byte>, AsmError>>, k: nat)
    requires k <= |results| && Collect(results[..k]).Err?
    ensures Collect(results) == Collect(results[..k])
    decreases |results| - k
  {
    if k < |results| {
      var longer := results[..k + 1];
      assert longer[..|longer| - 1] == results[..k];
      ErrorPersists(results, k + 1);
    } else {
      assert results[..k] == results;
    }
  }

  /** Whether line `i` is the first to fail, and with `e`. */
  predicate FailsFirstAt(results: seq<Result<seq<Byte>, AsmError>>, i: int, e: AsmError) {
    0 <= i < |results| && results[i] == Err(e) && forall j :: 0 <= j < i ==> results[j].Ok?
  }

  /** The file fails with `e` exactly when some line fails with `e` and every line before it encodes. */
  lemma {:induction false} FirstError(results: seq<Result<seq<Byte>, AsmError>>, e: AsmError)
    ensures Collect(results) == Err(e) <==> exists i :: FailsFirstAt(results, i, e)
    decreases |results|
  {
    if results != [] {
      var n := |results| - 1;
      var init := results[..n];
      FirstError(init, e);
      assert forall i :: FailsFirstAt(init, i, e) ==> FailsFirstAt(results, i, e);
      assert forall i :: 0 <= i < n && FailsFirstAt(results, i, e) ==> FailsFirstAt(init, i, e);
      if Collect(init).Ok? {
        assert forall j :: 0 <= j < n ==> results[j].Ok?;
        assert Collect(results) == Err(e) <==> FailsFirstAt(results, n, e);
        assert forall i :: FailsFirstAt(results, i, e) ==> i == n;
      } else {
        assert Collect(results) == Collect(init);
        var e' := Collect(init).error;
        FirstError(init, e');
        var i' :| FailsFirstAt(init, i', e');
        assert FailsFirstAt(results, i', e');
        assert forall i :: FailsFirstAt(results, i, e) ==> i == i' && e == e';
      }
    }
  }

  /**
   * The output file of asm.py built from the per-line results:
   * `pack('>L', count)` and then the instructions joined; struct.error when
   * the count does not fit 32 bits.
   */
  function ImageOf(results: seq<Result<seq<Byte>, AsmError>>): (r: Result<seq<Byte>, AsmError>)
    ensures r.Ok? <==> Collect(results).Ok? && |results| < 0x1_0000_0000
    ensures Collect(results).Err? ==> r == Err(Collect(results).error)
    ensures Collect(results).Ok? && |results| >= 0x1_0000_0000 ==> r == Err(OutOfRange)
    ensures r.Ok? ==> |r.value| >= 4 && BigEndian(r.value[..4]) == |results|
  {
    var instructions :- Collect(results);
    var header :- PackL(|instructions|);
    assert (header + Flatten(instructions))[..4] == header;
    Ok(header + Flatten(instructions))
  }

  /** The output file of asm.py for the lines of its input: a 4-byte count, then 4 bytes per line. */
  function Image(lines: seq<string>): (r: Result<seq<Byte>, AsmError>)
    ensures r.Ok? ==> |r.value| == 4 + 4 * |lines| && BigEndian(r.value[..4]) == |lines|
  {
    var r := ImageOf(Results(lines));
    if r.Ok? then
      ImageOfLayout(Results(lines));
      r
    else r
  }

  /** Four-byte pieces, concatenated, sit at every fourth offset. */
  lemma {:induction false} FlattenWords(parts: seq<seq<Byte>>)
    requires forall i :: 0 <= i < |parts| ==> |parts[i]| == 4
    ensures |Flatten(parts)| == 4 * |parts|
    ensures forall i :: 0 <= i < |parts| ==> Flatten(parts)[4 * i..4 * i + 4] == parts[i]
    decreases |parts|
  {
    if parts != [] {
      var init := parts[..|parts| - 1];
      FlattenWords(init);
      var f := Flatten(parts);
      assert f == Flatten(init) + Last(parts);
      forall i | 0 <= i < |parts|
        ensures f[4 * i..4 * i + 4] == parts[i]
      {
        if i < |init| {
          assert f[4 * i..4 * i + 4] == Flatten(init)[4 * i..4 * i + 4];
        }
      }
    }
  }

  lemma ImageOfLayout(results: seq<Result<seq<Byte>, AsmError>>)
    requires ImageOf(results).Ok?
    requires forall i :: 0 <= i < |results| ==> results[i].Ok? ==> |results[i].value| == 4
    ensures var out := ImageOf(results).value;
      && |out| == 4 + 4 * |results|
      && BigEndian(out[..4]) == |results|
      && forall i :: 0 <= i < |results| ==> out[4 + 4 * i..8 + 4 * i] == results[i].value
  {
    var instructions := Collect(results).value;
    var header := PackL(|instructions|).value;
    var out := ImageOf(results).value;
    assert out == header + Flatten(instructions);
    assert forall i :: 0 <= i < |instructions| ==> |instructions[i]| == 4 by {
      assert forall i :: 0 <= i < |instructions| ==> results[i] == Ok(instructions[i]);
    }
    FlattenWords(instructions);
    forall i | 0 <= i < |results|
      ensures out[4 + 4 * i..8 + 4 * i] == results[i].value
    {
      assert out[4 + 4 * i..8 + 4 * i] == Flatten(instructions)[4 * i..4 * i + 4];
    }
  }

  /**
   * An image is the big-endian count of the lines followed by each line's
   * four bytes in order: 4 + 4 * n bytes in all.
   */
  lemma ImageLayout(lines: seq<string>)
    requires Image(lines).Ok?
    ensures var out := Image(lines).value;
      && |out| == 4 + 4 * |lines|
      && BigEndian(out[..4]) == |lines|
      && forall i :: 0 <= i < |lines| ==> out[4 + 4 * i..8 + 4 * i] == EncodeLine(lines[i]).value
  {
    ImageOfLayout(Results(lines));
  }

  /**
   * An image is produced exactly when every line encodes and the count fits
   * the 32-bit header; otherwise the error is that of the first failing line.
   */
  lemma ImageExists(lines: seq<string>)
    ensures Image(lines).Ok? <==>
      (forall i :: 0 <= i < |lines| ==> EncodeLine(lines[i]).Ok?) && |lines| < 0x1_0000_0000
    ensures forall e :: Collect(Results(lines)) == Err(e) ==> Image(lines) == Err(e)
  {
    var results := Results(lines);
    if forall i :: 0 <= i < |results| ==> results[i].Ok? {
      if Collect(results).Err? {
        FirstError(results, Collect(results).error);
      }
    }
  }

  /** One more line: its encoding is appended, or its error ends the file. */
  lemma CollectStep(results: seq<Result<seq<Byte>, AsmError>>, i: nat, done: seq<seq<Byte>>)
    requires i < |results| && Collect(results[..i]) == Ok(done)
    ensures results[i].Ok? ==> Collect(results[..i + 1]) == Ok(done + [results[i].value])
    ensures results[i].Err? ==> Collect(results) == Err(results[i].error)
  {
    assert results[..i + 1][..i] == results[..i];
    assert Last(results[..i + 1]) == results[i];
    if results[i].Err? {
      ErrorPersists(results, i + 1);
    }
  }

  /**
   * The loop of asm.py: encode the lines one by one, appending each
   * encoding to `instructions`, and stop at the first line that fails.
   */
  method EncodeLines(lines: seq<string>) returns (instructions: Result<seq<seq<Byte>>, AsmError>)
    ensures instructions == Collect(Results(lines))
  {
    ghost var results := Results(lines);
    var done: seq<seq<Byte>> := [];
    var i := 0;
    while i < |lines|
      invariant 0 <= i <= |lines|
      invariant Collect(results[..i]) == Ok(done)
    {
      var ins := EncodeLine(lines[i]);
      CollectStep(results, i, done);
      if ins.Err? {
        return Err(ins.error);
      }
      done := done + [ins.value];
      i := i + 1;
    }
    assert results[..i] == results;
    return Ok(done);
  }

  /**
   * The whole of asm.py: read the lines of the source text, encode them,
   * and only when every line has encoded build the image.
   */
  method Assemble(source: string) returns (image: Result<seq<Byte>, AsmError>)
    ensures image == Image(Lines(source))
  {
    var encoded := EncodeLines(Lines(source));
    if encoded.Err? {
      return Err(encoded.error);
    }
    var instructions := encoded.value;
    var header := PackL(|instructions|);
    if header.Err? {
      return Err(header.error);
    }
    image := Ok(header.value + Flatten(instructions));
  }
}
