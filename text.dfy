/**
 * The operations on Python 2.7 byte strings that the assembler asm.py relies
 * on, each with the meaning Python gives it: iterating over a file line by
 * line, `rfind`, slicing, `split()` on whitespace, `split(',')`,
 * `strip(chars)` and `int()`. A Python 2.7 `str` is a sequence of bytes; here
 * it is a `string`, each character standing for one byte of the file, so
 * the model is exact for files read byte by byte and says nothing about
 * decoding multi-byte characters.
 */
module PyText {
  import opened Wrappers

  function Last<T>(s: seq<T>): T
    requires |s| > 0
  {
    s[|s| - 1]
  }

  /** The concatenation of a sequence of strings. */
  function Flatten<T>(parts: seq<seq<T>>): seq<T> {
    if parts == [] then [] else Flatten(parts[..|parts| - 1]) + Last(parts)
  }

  lemma FlattenAppend<T>(a: seq<seq<T>>, b: seq<seq<T>>)
    ensures Flatten(a + b) == Flatten(a) + Flatten(b)
    decreases |b|
  {
    if b == [] {
      assert a + b == a;
    } else {
      assert (a + b)[..|a + b| - 1] == a + b[..|b| - 1];
      FlattenAppend(a, b[..|b| - 1]);
    }
  }

  lemma FlattenCons<T>(x: seq<T>, rest: seq<seq<T>>)
    ensures Flatten([x] + rest) == x + Flatten(rest)
  {
    FlattenAppend([x], rest);
    assert [x][..0] == [];
  }

  // ---------------------------------------------------------------- lines

  /** Index of the first `c` in `s`, or `|s|` when there is none. */
  function Find(s: string, c: char): (k: nat)
    ensures k <= |s|
    ensures forall j :: 0 <= j < k ==> s[j] != c
    ensures k < |s| ==> s[k] == c
  {
    if s == [] then 0 else if s[0] == c then 0 else 1 + Find(s[1..], c)
  }

  /**
   * How a Python file object cuts text into lines: no line is empty, a
   * newline occurs only as the last character of a line, and every line but
   * the last ends with one.
   */
  predicate LineBreaks(lines: seq<string>) {
    && (forall i :: 0 <= i < |lines| ==> |lines[i]| > 0)
    && (forall i :: 0 <= i < |lines| ==> '\n' !in lines[i][..|lines[i]| - 1])
    && (forall i :: 0 <= i < |lines| - 1 ==> Last(lines[i]) == '\n')
  }

  /** The lines a Python file object yields when iterated; each line keeps its newline. */
  function Lines(text: string): (lines: seq<string>)
    ensures Flatten(lines) == text
    ensures LineBreaks(lines)
    ensures lines == [] <==> text == []
    decreases |text|
  {
    if text == [] then []
    else
      var k := Find(text, '\n');
      var n := if k < |text| then k + 1 else k;
      var head, rest := text[..n], Lines(text[n..]);
      assert forall j :: 0 <= j < |head| - 1 ==> head[j] != '\n';
      FlattenCons(head, rest);
      assert head + text[n..] == text;
      PrependLine(head, rest);
      [head] + rest
  }

  lemma PrependLine(head: string, rest: seq<string>)
    requires |head| > 0 && '\n' !in head[..|head| - 1]
    requires rest != [] ==> Last(head) == '\n'
    requires LineBreaks(rest)
    ensures LineBreaks([head] + rest)
  {
    var lines := [head] + rest;
    assert forall i :: 1 <= i < |lines| ==> lines[i] == rest[i - 1];
  }

  /** Lines that each end in a newline and hold no other are given back unchanged. */
  lemma {:induction false} LinesOfLines(lines: seq<string>)
    requires LineBreaks(lines)
    requires lines != [] ==> Last(Last(lines)) == '\n'
    ensures Lines(Flatten(lines)) == lines
    decreases |lines|
  {
    if lines != [] {
      var rest := lines[1..];
      assert lines == [lines[0]] + rest;
      FlattenCons(lines[0], rest);
      var text := Flatten(lines);
      var line := lines[0];
      assert text[..|line|] == line && text[|line|..] == Flatten(rest);
      assert forall j :: 0 <= j < |line| - 1 ==> line[j] != '\n' by {
        forall j | 0 <= j < |line| - 1
          ensures line[j] != '\n'
        {
          assert line[j] == line[..|line| - 1][j];
        }
      }
      assert Find(text, '\n') == |line| - 1 by {
        FindAt(text, '\n', |line| - 1);
      }
      LinesOfLines(rest);
    }
  }

  lemma FindAt(s: string, c: char, k: nat)
    requires k < |s| && s[k] == c
    requires forall j :: 0 <= j < k ==> s[j] != c
    ensures Find(s, c) == k
  {
  }

  // ------------------------------------------------------------- comments

  /** `s.rfind(c)`: the index of the last `c` in `s`, or -1 when there is none. */
  function RFind(s: string, c: char): (k: int)
    ensures -1 <= k < |s|
    ensures k == -1 <==> c !in s
    ensures k >= 0 ==> s[k] == c
    ensures forall j :: k < j < |s| ==> s[j] != c
  {
    if s == [] then -1
    else if Last(s) == c then |s| - 1
    else RFind(s[..|s| - 1], c)
  }

  /**
   * `line[0:line.rfind(';')]`: everything before the last `;`; with no `;`
   * the index is -1, which as a slice bound drops the last character.
   */
  function StripComment(line: string): (code: string)
    ensures code <= line
    ensures ';' in line ==> |code| < |line| && line[|code|] == ';'
    ensures ';' in line ==> forall j :: |code| < j < |line| ==> line[j] != ';'
    ensures ';' !in line ==> |code| == if line == [] then 0 else |line| - 1
  {
    var k := RFind(line, ';');
    if k >= 0 then line[..k]
    else if line == [] then []
    else line[..|line| - 1]
  }

  /** A comment after the last `;` is removed, together with the `;`. */
  lemma CommentRemoved(code: string, comment: string)
    requires ';' !in comment
    ensures StripComment(code + ";" + comment) == code
  {
    var line := code + ";" + comment;
    assert line[|code|] == ';';
    assert forall j :: |code| < j < |line| ==> line[j] == comment[j - |code| - 1];
    assert line[..|code|] == code;
  }

  /** A line with no `;` loses its last character, normally the newline. */
  lemma NewlineRemoved(code: string, last: char)
    requires ';' !in code && last != ';'
    ensures StripComment(code + [last]) == code
  {
    assert (code + [last])[..|code|] == code;
  }

  // ----------------------------------------------------------- whitespace

  /** The characters `str.split()` separates on: space, tab, newline, CR, VT, FF. */
  predicate IsSpace(c: char) {
    c == ' ' || c == '\t' || c == '\n' || c == '\r' || c as int == 0x0B || c as int == 0x0C
  }

  predicate NoSpace(s: string) {
    forall i :: 0 <= i < |s| ==> !IsSpace(s[i])
  }

  /** The non-whitespace characters of `s`, in order. */
  function NonSpace(s: string): string {
    if s == [] then []
    else (if IsSpace(s[0]) then [] else [s[0]]) + NonSpace(s[1..])
  }

  lemma {:induction false} NonSpaceAppend(a: string, b: string)
    ensures NonSpace(a + b) == NonSpace(a) + NonSpace(b)
    decreases |a|
  {
    if a != [] {
      assert (a + b)[1..] == a[1..] + b;
      NonSpaceAppend(a[1..], b);
    } else {
      assert a + b == b;
    }
  }

  lemma {:induction false} NonSpaceOfWord(w: string)
    requires NoSpace(w)
    ensures NonSpace(w) == w
    decreases |w|
  {
    if w != [] {
      NonSpaceOfWord(w[1..]);
    }
  }

  /** Length of the run of non-whitespace characters at the start of `s`. */
  function WordLength(s: string): (n: nat)
    ensures n <= |s|
    ensures NoSpace(s[..n])
    ensures n < |s| ==> IsSpace(s[n])
  {
    if s == [] || IsSpace(s[0]) then 0
    else
      var n := 1 + WordLength(s[1..]);
      assert s[..n] == [s[0]] + s[1..][..n - 1];
      n
  }

  /**
   * `s.split()`: the maximal runs of non-whitespace characters, in order.
   * The fields are non-empty, hold no whitespace, and together hold every
   * non-whitespace character of `s`.
   */
  function Split(s: string): (fields: seq<string>)
    ensures forall i :: 0 <= i < |fields| ==> |fields[i]| > 0 && NoSpace(fields[i])
    ensures Flatten(fields) == NonSpace(s)
    decreases |s|
  {
    if s == [] then []
    else if IsSpace(s[0]) then
      assert s == [s[0]] + s[1..];
      NonSpaceAppend([s[0]], s[1..]);
      Split(s[1..])
    else
      var n := WordLength(s);
      var rest := Split(s[n..]);
      FlattenCons(s[..n], rest);
      assert s == s[..n] + s[n..];
      NonSpaceAppend(s[..n], s[n..]);
      NonSpaceOfWord(s[..n]);
      [s[..n]] + rest
  }

  /** A whitespace character always ends a field: splitting distributes over it. */
  lemma {:induction false} SplitAtSpace(a: string, c: char, b: string)
    requires IsSpace(c)
    ensures Split(a + [c] + b) == Split(a) + Split(b)
    decreases |a|
  {
    var s := a + [c] + b;
    if a == [] {
      assert s[1..] == b;
    } else if IsSpace(a[0]) {
      assert s[1..] == a[1..] + [c] + b;
      SplitAtSpace(a[1..], c, b);
    } else {
      var n := WordLength(a);
      WordLengthPrefix(a, [c] + b);
      assert a + [c] + b == a + ([c] + b);
      assert s[..n] == a[..n];
      assert s[n..] == a[n..] + [c] + b;
      SplitAtSpace(a[n..], c, b);
    }
  }

  lemma WordLengthPrefix(a: string, b: string)
    requires b != [] && IsSpace(b[0])
    ensures WordLength(a + b) == WordLength(a)
    decreases |a|
  {
    if a != [] && !IsSpace(a[0]) {
      assert (a + b)[1..] == a[1..] + b;
      WordLengthPrefix(a[1..], b);
    }
  }

  /** A non-empty string without whitespace is a single field. */
  lemma SplitWord(w: string)
    requires |w| > 0 && NoSpace(w)
    ensures Split(w) == [w]
  {
    WordLengthOfWord(w);
    assert w[..|w|] == w && w[|w|..] == [];
    assert Split(w) == [w] + Split([]);
  }

  lemma {:induction false} WordLengthOfWord(w: string)
    requires NoSpace(w)
    ensures WordLength(w) == |w|
    decreases |w|
  {
    if w != [] {
      WordLengthOfWord(w[1..]);
    }
  }

  /** Every character of `s` is whitespace. */
  predicate Blank(s: string) {
    forall i :: 0 <= i < |s| ==> IsSpace(s[i])
  }

  /** Only whitespace: no fields at all. */
  lemma {:induction false} SplitBlank(s: string)
    requires Blank(s)
    ensures Split(s) == []
    decreases |s|
  {
    if s != [] {
      SplitBlank(s[1..]);
    }
  }

  /** Trailing whitespace adds no field. */
  lemma SplitTrailingBlank(a: string, pad: string)
    requires Blank(pad)
    ensures Split(a + pad) == Split(a)
  {
    if pad == [] {
      assert a + pad == a;
    } else {
      assert a + pad == a + [pad[0]] + pad[1..];
      SplitAtSpace(a, pad[0], pad[1..]);
      SplitBlank(pad[1..]);
      assert Split(a) + [] == Split(a);
    }
  }

  // ------------------------------------------------------------ separator

  /** `parts` joined with `sep` between neighbours: the inverse of `SplitOn`. */
  function JoinWith(parts: seq<string>, sep: char): string
    requires |parts| > 0
  {
    if |parts| == 1 then parts[0] else parts[0] + [sep] + JoinWith(parts[1..], sep)
  }

  /**
   * `s.split(sep)`: the pieces between the occurrences of `sep`; there is
   * always at least one, none holds `sep`, and joining them gives `s` back.
   */
  function SplitOn(s: string, sep: char): (parts: seq<string>)
    ensures |parts| > 0
    ensures forall i :: 0 <= i < |parts| ==> sep !in parts[i]
    ensures JoinWith(parts, sep) == s
    decreases |s|
  {
    var k := Find(s, sep);
    if k == |s| then
      assert s[..k] == s;
      [s]
    else
      var rest := SplitOn(s[k + 1..], sep);
      var parts := [s[..k]] + rest;
      assert parts[1..] == rest;
      assert s == s[..k] + [sep] + s[k + 1..];
      parts
  }

  /** Splitting a join gives back its parts when none holds the separator. */
  lemma {:induction false} SplitOnJoin(parts: seq<string>, sep: char)
    requires |parts| > 0
    requires forall i :: 0 <= i < |parts| ==> sep !in parts[i]
    ensures SplitOn(JoinWith(parts, sep), sep) == parts
    decreases |parts|
  {
    var s := JoinWith(parts, sep);
    if |parts| == 1 {
      FindAbsent(s, sep);
    } else {
      var head := parts[0];
      var tail := JoinWith(parts[1..], sep);
      assert s == head + [sep] + tail;
      assert forall j :: 0 <= j < |head| ==> s[j] == head[j];
      FindAt(s, sep, |head|);
      assert s[..|head|] == head;
      assert s[|head| + 1..] == tail;
      SplitOnJoin(parts[1..], sep);
      assert SplitOn(s, sep) == [head] + SplitOn(tail, sep);
      assert parts == [head] + parts[1..];
    }
  }

  lemma FindAbsent(s: string, c: char)
    requires c !in s
    ensures Find(s, c) == |s|
  {
  }

  // -------------------------------------------------------------- strip

  /** `s.lstrip(c)`: `s` without its leading run of `c`. */
  function LStrip(s: string, c: char): string {
    if s != [] && s[0] == c then LStrip(s[1..], c) else s
  }

  /** `s.rstrip(c)`: `s` without its trailing run of `c`. */
  function RStrip(s: string, c: char): string {
    if s != [] && Last(s) == c then RStrip(s[..|s| - 1], c) else s
  }

  lemma {:induction false} LStripShape(s: string, c: char)
    ensures |LStrip(s, c)| <= |s|
    ensures LStrip(s, c) == [] || LStrip(s, c)[0] != c
    decreases |s|
  {
    if s != [] && s[0] == c {
      LStripShape(s[1..], c);
    }
  }

  lemma {:induction false} RStripShape(s: string, c: char)
    ensures RStrip(s, c) <= s
    ensures RStrip(s, c) == [] || Last(RStrip(s, c)) != c
    decreases |s|
  {
    if s != [] && Last(s) == c {
      RStripShape(s[..|s| - 1], c);
    }
  }

  /**
   * `s.strip(c)`: `s` without the runs of `c` at either end. What is left
   * neither starts nor ends with `c`; `StripPadded` says it is exactly what
   * lay between the two runs.
   */
  function Strip(s: string, c: char): (r: string)
    ensures |r| <= |s|
    ensures r == [] || (r[0] != c && Last(r) != c)
  {
    LStripShape(s, c);
    RStripShape(LStrip(s, c), c);
    RStrip(LStrip(s, c), c)
  }

  /** Every character of `s` is `c`. */
  predicate Pad(s: string, c: char) {
    forall i :: 0 <= i < |s| ==> s[i] == c
  }

  /** Stripping removes exactly the padding around a string that does not itself start or end with `c`. */
  lemma StripPadded(before: string, t: string, after: string, c: char)
    requires Pad(before, c) && Pad(after, c)
    requires t == [] || (t[0] != c && Last(t) != c)
    ensures Strip(before + t + after, c) == t
  {
    var s := before + t + after;
    if t == [] {
      assert s == before + after;
      LStripPadded(before + after, [], c);
      assert before + after + [] == before + after;
    } else {
      LStripPadded(before, t + after, c);
      assert s == before + (t + after);
      RStripPadded(t, after, c);
    }
  }

  lemma {:induction false} LStripPadded(before: string, rest: string, c: char)
    requires Pad(before, c) && (rest == [] || rest[0] != c)
    ensures LStrip(before + rest, c) == rest
    decreases |before|
  {
    if before == [] {
      assert before + rest == rest;
    } else {
      assert (before + rest)[1..] == before[1..] + rest;
      LStripPadded(before[1..], rest, c);
    }
  }

  lemma {:induction false} RStripPadded(t: string, after: string, c: char)
    requires Pad(after, c) && (t == [] || Last(t) != c)
    ensures RStrip(t + after, c) == t
    decreases |after|
  {
    if after == [] {
      assert t + after == t;
    } else {
      var s := t + after;
      assert s[..|s| - 1] == t + after[..|after| - 1];
      RStripPadded(t, after[..|after| - 1], c);
    }
  }

  // ------------------------------------------------------------- integers

  predicate IsDigit(c: char) {
    '0' <= c <= '9'
  }

  predicate AllDigits(s: string) {
    forall i :: 0 <= i < |s| ==> IsDigit(s[i])
  }

  /** What `int()` accepts here: an optional sign and at least one ASCII digit. */
  predicate IsNumeral(s: string) {
    if |s| > 0 && (s[0] == '+' || s[0] == '-') then |s| > 1 && AllDigits(s[1..])
    else |s| > 0 && AllDigits(s)
  }

  function DigitValue(c: char): nat
    requires IsDigit(c)
  {
    c as int - '0' as int
  }

  function DigitChar(d: nat): (c: char)
    requires d < 10
    ensures IsDigit(c) && DigitValue(c) == d
  {
    ('0' as int + d) as char
  }

  /** The scan `int()` performs: the digits of `s` appended, one by one, to `acc`; `None` at a non-digit. */
  function Accumulate(s: string, acc: nat): (r: Option<nat>)
    ensures r.Some? <==> AllDigits(s)
  {
    if s == [] then Some(acc)
    else if IsDigit(s[0]) then
      var r := Accumulate(s[1..], acc * 10 + DigitValue(s[0]));
      assert AllDigits(s) <==> AllDigits(s[1..]);
      r
    else None
  }

  function Power10(n: nat): nat {
    if n == 0 then 1 else 10 * Power10(n - 1)
  }

  /** The number a string of decimal digits denotes: each digit times ten to the power of the digits after it. */
  function DigitsValue(s: string): nat
    requires AllDigits(s)
  {
    if s == [] then 0 else DigitValue(s[0]) * Power10(|s| - 1) + DigitsValue(s[1..])
  }

  /** The digits of a numeral: what follows its sign, if it has one. */
  function Magnitude(s: string): string {
    if |s| > 0 && (s[0] == '+' || s[0] == '-') then s[1..] else s
  }

  /** Scanning digits after `acc` shifts `acc` left by their number and adds their value. */
  lemma {:induction false} AccumulateValue(s: string, acc: nat)
    requires AllDigits(s)
    ensures Accumulate(s, acc) == Some(acc * Power10(|s|) + DigitsValue(s))
    decreases |s|
  {
    if s != [] {
      var d, p := DigitValue(s[0]), Power10(|s| - 1);
      assert AllDigits(s[1..]);
      AccumulateValue(s[1..], acc * 10 + d);
      assert Accumulate(s, acc) == Accumulate(s[1..], acc * 10 + d);
      assert DigitsValue(s) == d * p + DigitsValue(s[1..]);
      assert Power10(|s|) == 10 * p;
      ShiftDigit(acc, d, p);
    }
  }

  /** Appending digit `d` to `acc` and scaling by `p`. */
  lemma ShiftDigit(acc: int, d: int, p: int)
    ensures (acc * 10 + d) * p == acc * (10 * p) + d * p
  {
  }

  /**
   * `int(s)` for a string without whitespace: `None` is Python's
   * ValueError. A numeral is an optional sign and one or more digits,
   * leading zeros included, as in Python 2.7; its value is that of the
   * digits, negated after `-`.
   */
  function ParseInt(s: string): (r: Option<int>)
    ensures r.Some? <==> IsNumeral(s)
    ensures r.Some? ==>
      && |s| > 0
      && AllDigits(Magnitude(s))
      && r.value == (if s[0] == '-' then -1 else 1) * DigitsValue(Magnitude(s))
  {
    if s == [] then None
    else if s[0] == '-' || s[0] == '+' then
      if |s| == 1 then None
      else match Accumulate(s[1..], 0)
        case None => None
        case Some(n) =>
          AccumulateValue(s[1..], 0);
          Some(if s[0] == '-' then -(n as int) else n as int)
    else
      match Accumulate(s, 0)
      case None => None
      case Some(n) =>
        AccumulateValue(s, 0);
        Some(n)
  }

  /** The canonical decimal text of `n`, as Python's `str` writes it. */
  function Decimal(n: nat): (s: string)
    ensures |s| > 0 && AllDigits(s)
  {
    if n < 10 then [DigitChar(n)] else Decimal(n / 10) + [DigitChar(n % 10)]
  }

  lemma {:induction false} AccumulateSnoc(s: string, c: char, acc: nat)
    requires AllDigits(s) && IsDigit(c)
    ensures Accumulate(s + [c], acc) == Some(Accumulate(s, acc).value * 10 + DigitValue(c))
    decreases |s|
  {
    if s == [] {
      assert s + [c] == [c];
    } else {
      assert (s + [c])[1..] == s[1..] + [c];
      AccumulateSnoc(s[1..], c, acc * 10 + DigitValue(s[0]));
    }
  }

  /** Reading back the decimal text of a natural number gives the number. */
  lemma {:induction false} AccumulateDecimal(n: nat)
    ensures Accumulate(Decimal(n), 0) == Some(n)
    decreases n
  {
    if n < 10 {
      assert Decimal(n)[1..] == [];
    } else {
      AccumulateDecimal(n / 10);
      AccumulateSnoc(Decimal(n / 10), DigitChar(n % 10), 0);
    }
  }

  /** Zeros in front of digits do not change their value. */
  lemma {:induction false} LeadingZeros(zeros: string, t: string)
    requires Pad(zeros, '0') && AllDigits(t)
    ensures AllDigits(zeros + t) && DigitsValue(zeros + t) == DigitsValue(t)
    decreases |zeros|
  {
    var s := zeros + t;
    assert forall i :: 0 <= i < |s| ==> s[i] == (if i < |zeros| then zeros[i] else t[i - |zeros|]);
    if zeros == [] {
      assert s == t;
    } else {
      assert s[1..] == zeros[1..] + t && DigitValue(s[0]) == 0;
      LeadingZeros(zeros[1..], t);
    }
  }

  /** The decimal text of `n` denotes `n`. */
  lemma DecimalValue(n: nat)
    ensures DigitsValue(Decimal(n)) == n
  {
    AccumulateDecimal(n);
    AccumulateValue(Decimal(n), 0);
  }

  /** `int()` reads a sign, any number of leading zeros and the decimal text of `n` as plus or minus `n`. */
  lemma ParseSigned(sign: string, zeros: string, n: nat)
    requires sign == "" || sign == "+" || sign == "-"
    requires Pad(zeros, '0')
    ensures ParseInt(sign + zeros + Decimal(n)) == Some(if sign == "-" then -(n as int) else n as int)
  {
    var d := Decimal(n);
    LeadingZeros(zeros, d);
    DecimalValue(n);
    var s := sign + zeros + d;
    assert s == sign + (zeros + d);
    var m := zeros + d;
    assert IsDigit(m[0]);
    if sign == "" {
      assert s == m;
    } else {
      assert s[1..] == m && s[0] == sign[0];
    }
    assert Magnitude(s) == m;
  }
}
