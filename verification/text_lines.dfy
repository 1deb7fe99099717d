/** The few `strings` and `strconv` routines the models need, with the laws used about them. */
module TextLines {

  datatype Option<+T> = None | Some(value: T)

  datatype Result<+T, +E> = Ok(value: T) | Err(error: E)

  predicate NoNewline(line: string) {
    '\n' !in line
  }

  predicate AllNoNewline(lines: seq<string>) {
    forall i | 0 <= i < |lines| :: NoNewline(lines[i])
  }

  /** `strings.Split(text, "\n")`. */
  function Split(text: string): (lines: seq<string>)
    ensures |lines| > 0
  {
    if text == "" then [""]
    else
      var rest := Split(text[1..]);
      if text[0] == '\n' then [""] + rest else [[text[0]] + rest[0]] + rest[1..]
  }

  /** `strings.Join(lines, "\n")`. */
  function Join(lines: seq<string>): string {
    if |lines| == 0 then ""
    else if |lines| == 1 then lines[0]
    else lines[0] + "\n" + Join(lines[1..])
  }

  lemma {:induction false} SplitHasNoNewline(text: string)
    ensures AllNoNewline(Split(text))
  {
    if text != "" {
      SplitHasNoNewline(text[1..]);
    }
  }

  lemma {:induction false} SplitFirstLine(line: string, rest: string)
    requires NoNewline(line)
    ensures Split(line + "\n" + rest) == [line] + Split(rest)
  {
    var text := line + "\n" + rest;
    if line == "" {
      assert text[1..] == rest;
    } else {
      assert text[1..] == line[1..] + "\n" + rest;
      SplitFirstLine(line[1..], rest);
      assert [line[0]] + line[1..] == line;
    }
  }

  lemma {:induction false} SplitOneLine(line: string)
    requires NoNewline(line)
    ensures Split(line) == [line]
  {
    if line != "" {
      SplitOneLine(line[1..]);
      assert [line[0]] + line[1..] == line;
    }
  }

  /** Joining and splitting again is the identity on lines that hold no newline. */
  lemma {:induction false} SplitJoin(lines: seq<string>)
    requires |lines| > 0 && AllNoNewline(lines)
    ensures Split(Join(lines)) == lines
  {
    if |lines| == 1 {
      SplitOneLine(lines[0]);
    } else {
      SplitFirstLine(lines[0], Join(lines[1..]));
      SplitJoin(lines[1..]);
    }
  }

  lemma {:induction false} JoinTrailingNewline(lines: seq<string>)
    requires |lines| > 0
    ensures Join(lines + [""]) == Join(lines) + "\n"
  {
    if |lines| == 1 {
      assert (lines + [""])[1..] == [""];
    } else {
      assert (lines + [""])[1..] == lines[1..] + [""];
      JoinTrailingNewline(lines[1..]);
    }
  }

  /** `strings.Replace(text, from, to, 1)` for a non-empty `from`. */
  function ReplaceFirst(text: string, from: string, to: string): string {
    if from <= text then to + text[|from|..]
    else if text == "" then ""
    else [text[0]] + ReplaceFirst(text[1..], from, to)
  }

  predicate IsDigit(c: char) {
    '0' <= c <= '9'
  }

  /** How many digits the text starts with. */
  function DigitRun(text: string): (n: nat)
    ensures n <= |text|
    ensures forall i | 0 <= i < n :: IsDigit(text[i])
  {
    if text == "" || !IsDigit(text[0]) then 0 else 1 + DigitRun(text[1..])
  }

  predicate AllDigits(text: string) {
    forall i | 0 <= i < |text| :: IsDigit(text[i])
  }

  function Value(digits: string): nat
    requires AllDigits(digits)
  {
    if digits == "" then 0
    else Value(digits[..|digits| - 1]) * 10 + (digits[|digits| - 1] as int - '0' as int)
  }

  function Dec(n: nat): (digits: string)
    ensures digits != "" && AllDigits(digits)
  {
    var last := [(n % 10 + '0' as int) as char];
    if n < 10 then last else Dec(n / 10) + last
  }

  /** `%d`: a sign in front of the digits of a negative number. */
  function Decimal(n: int): string {
    if n < 0 then "-" + Dec(-n) else Dec(n)
  }

  lemma {:induction false} ValueOfDec(n: nat)
    ensures Value(Dec(n)) == n
  {
    var digits := Dec(n);
    if n >= 10 {
      assert digits[..|digits| - 1] == Dec(n / 10);
      ValueOfDec(n / 10);
    }
  }

  lemma {:induction false} DigitRunStops(digits: string, rest: string)
    requires AllDigits(digits)
    requires rest == "" || !IsDigit(rest[0])
    ensures DigitRun(digits + rest) == |digits|
  {
    if digits == "" {
      assert digits + rest == rest;
    } else {
      assert (digits + rest)[1..] == digits[1..] + rest;
      DigitRunStops(digits[1..], rest);
    }
  }

  function LowerChar(c: char): char {
    if 'A' <= c <= 'Z' then (c as int + 32) as char else c
  }

  /** `strings.ToLower` for ASCII. */
  function Lower(text: string): (r: string)
    ensures |r| == |text|
    ensures forall i | 0 <= i < |text| :: r[i] == LowerChar(text[i])
  {
    if text == "" then "" else [LowerChar(text[0])] + Lower(text[1..])
  }

  /** ASCII white space. */
  predicate IsSpace(c: char) {
    c == ' ' || c == '\t' || c == '\n' || c == '\r' || c as int == 0x0b || c as int == 0x0c
  }

  function TrimLeft(text: string): string {
    if text != "" && IsSpace(text[0]) then TrimLeft(text[1..]) else text
  }

  function TrimRight(text: string): string {
    if text != "" && IsSpace(text[|text| - 1]) then TrimRight(text[..|text| - 1]) else text
  }

  /** `strings.TrimSpace`. */
  function TrimSpace(text: string): string {
    TrimRight(TrimLeft(text))
  }
}
