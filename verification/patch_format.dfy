/** Unified diffs: hunk headers, the two sides of a hunk, and what applying a patch means.

    `Apply` is the contract of `git apply --unidiff-zero` read strictly: the old side of every hunk
    stands at exactly the position its header names, the header counts are the real counts, and the
    new side lands at exactly the position its header names. Nothing is searched for or shifted. */
module PatchFormat {
  import opened TextLines

  datatype Header = Header(oldStart: int, oldCount: int, newStart: int, newCount: int)

  datatype Hunk = Hunk(header: Header, body: seq<string>)

  // ----- hunk headers -----

  /** The optional `,count` after a start; a missing one means one line. */
  function OptionalCount(text: string): (Option<int>, string) {
    if text != "" && text[0] == ',' then
      var n := DigitRun(text[1..]);
      if n == 0 then (None, text) else (Some(Value(text[1..][..n])), text[1..][n..])
    else
      (Some(1), text)
  }

  /** The pattern `^@@ -(\d+)(?:,\d+)? \+(\d+)(?:,\d+)? @@`. */
  function ParseHeader(line: string): Option<Header> {
    if !("@@ -" <= line) then None else
    var first := line[4..];
    var n := DigitRun(first);
    if n == 0 then None else
    var (oldCount, afterOld) := OptionalCount(first[n..]);
    if oldCount.None? || !(" +" <= afterOld) then None else
    var second := afterOld[2..];
    var m := DigitRun(second);
    if m == 0 then None else
    var (newCount, afterNew) := OptionalCount(second[m..]);
    if newCount.None? || !(" @@" <= afterNew) then None else
    Some(Header(Value(first[..n]), oldCount.value, Value(second[..m]), newCount.value))
  }

  /** `fmt.Sprintf("@@ -%d,%d +%d,%d @@", ...)`. */
  function FormatHeader(h: Header): string {
    "@@ -" + Decimal(h.oldStart) + "," + Decimal(h.oldCount) + " +" + Decimal(h.newStart) + "," + Decimal(h.newCount)
      + " @@"
  }

  predicate NonNegative(h: Header) {
    h.oldStart >= 0 && h.oldCount >= 0 && h.newStart >= 0 && h.newCount >= 0
  }

  lemma OptionalCountOfDec(count: nat, rest: string)
    requires rest != "" && !IsDigit(rest[0])
    ensures OptionalCount("," + Dec(count) + rest) == (Some(count), rest)
  {
    var text := "," + Dec(count) + rest;
    assert text[1..] == Dec(count) + rest;
    DigitRunStops(Dec(count), rest);
    ValueOfDec(count);
    assert text[1..][..|Dec(count)|] == Dec(count);
    assert text[1..][|Dec(count)|..] == rest;
  }

  lemma StartOfDec(start: nat, rest: string)
    requires rest != "" && !IsDigit(rest[0])
    ensures DigitRun(Dec(start) + rest) == |Dec(start)|
    ensures Value((Dec(start) + rest)[..|Dec(start)|]) == start
    ensures (Dec(start) + rest)[|Dec(start)|..] == rest
  {
    DigitRunStops(Dec(start), rest);
    ValueOfDec(start);
    assert (Dec(start) + rest)[..|Dec(start)|] == Dec(start);
  }

  /** Printing a header and reading it back gives the header. */
  lemma HeaderRoundTrip(h: Header)
    requires NonNegative(h)
    ensures ParseHeader(FormatHeader(h)) == Some(h)
  {
    hide DigitRun, Value, OptionalCount, Dec;
    var tail := " @@";
    var afterNewStart := "," + Dec(h.newCount) + tail;
    var second := Dec(h.newStart) + afterNewStart;
    var afterOldStart := "," + Dec(h.oldCount) + (" +" + second);
    var first := Dec(h.oldStart) + afterOldStart;
    var line := FormatHeader(h);
    assert line == "@@ -" + first;
    assert line[4..] == first;
    StartOfDec(h.oldStart, afterOldStart);
    OptionalCountOfDec(h.oldCount, " +" + second);
    assert (" +" + second)[2..] == second;
    StartOfDec(h.newStart, afterNewStart);
    OptionalCountOfDec(h.newCount, tail);
  }

  /** A negative new start cannot be read back: the pattern wants a digit after the plus sign. */
  lemma NegativeHeaderIsRejected(h: Header)
    requires h.oldStart >= 0 && h.oldCount >= 0 && h.newStart < 0
    ensures ParseHeader(FormatHeader(h)).None?
  {
    hide Value, OptionalCount, Dec;
    var second := "-" + Dec(-h.newStart) + "," + Decimal(h.newCount) + " @@";
    var afterOldStart := "," + Dec(h.oldCount) + (" +" + second);
    var first := Dec(h.oldStart) + afterOldStart;
    assert FormatHeader(h) == "@@ -" + first;
    assert FormatHeader(h)[4..] == first;
    StartOfDec(h.oldStart, afterOldStart);
    OptionalCountOfDec(h.oldCount, " +" + second);
    assert (" +" + second)[2..] == second;
    assert DigitRun(second) == 0;
  }

  /** A count behind its comma, or none for one line. */
  function CountText(count: nat, written: bool): string {
    if written then "," + Dec(count) else ""
  }

  lemma OptionalCountIsRead(count: nat, written: bool, rest: string)
    requires rest != "" && !IsDigit(rest[0]) && rest[0] != ',' && (!written ==> count == 1)
    ensures OptionalCount(CountText(count, written) + rest) == (Some(count), rest)
  {
    if written {
      OptionalCountOfDec(count, rest);
    } else {
      assert "" + rest == rest;
    }
  }

  lemma StartIsRead(start: nat, count: nat, written: bool, rest: string)
    requires rest != "" && !IsDigit(rest[0]) && rest[0] != ',' && (!written ==> count == 1)
    ensures var text := Dec(start) + (CountText(count, written) + rest);
            && DigitRun(text) == |Dec(start)| && Value(text[..|Dec(start)|]) == start
            && text[|Dec(start)|..] == CountText(count, written) + rest
  {
    hide DigitRun, Value, Dec;
    var behind := CountText(count, written) + rest;
    assert behind != "" && !IsDigit(behind[0]);
    StartOfDec(start, behind);
  }

  /**
   * The header of a hunk names the old start and count behind a minus, then the new ones behind a plus; a count of one
   * may be left out, and a text may follow the second pair of at signs.
   */
  lemma HeaderIsRead(h: Header, oldWritten: bool, newWritten: bool, behind: string)
    requires NonNegative(h) && (!oldWritten ==> h.oldCount == 1) && (!newWritten ==> h.newCount == 1)
    ensures ParseHeader("@@ -" + Dec(h.oldStart) + CountText(h.oldCount, oldWritten) + " +" + Dec(h.newStart)
                        + CountText(h.newCount, newWritten) + " @@" + behind) == Some(h)
  {
    hide DigitRun, Value, OptionalCount, Dec, CountText;
    var line := "@@ -" + Dec(h.oldStart) + CountText(h.oldCount, oldWritten) + " +" + Dec(h.newStart)
                + CountText(h.newCount, newWritten) + " @@" + behind;
    var tail := " @@" + behind;
    var second := Dec(h.newStart) + (CountText(h.newCount, newWritten) + tail);
    var first := Dec(h.oldStart) + (CountText(h.oldCount, oldWritten) + (" +" + second));
    assert line == "@@ -" + first;
    assert line[4..] == first;
    StartIsRead(h.oldStart, h.oldCount, oldWritten, " +" + second);
    OptionalCountIsRead(h.oldCount, oldWritten, " +" + second);
    assert (" +" + second)[2..] == second;
    StartIsRead(h.newStart, h.newCount, newWritten, tail);
    OptionalCountIsRead(h.newCount, newWritten, tail);
  }

  // ----- the two sides of a hunk -----

  predicate IsHeaderLine(line: string) {
    "@@" <= line
  }

  /** A line of a hunk that stands for file content: context, deletion or addition. */
  predicate IsContent(line: string) {
    line != "" && (line[0] == ' ' || line[0] == '-' || line[0] == '+')
  }

  predicate IsMarker(line: string) {
    "\\" <= line
  }

  predicate AllContent(body: seq<string>) {
    forall i | 0 <= i < |body| :: IsContent(body[i])
  }

  /** What a line contributes to the file before the hunk, and after it. */
  function OldPart(line: string): seq<string> {
    if line != "" && (line[0] == ' ' || line[0] == '-') then [line[1..]] else []
  }

  function NewPart(line: string): seq<string> {
    if line != "" && (line[0] == ' ' || line[0] == '+') then [line[1..]] else []
  }

  /** The lines the file must hold before the hunk. */
  function OldSide(body: seq<string>): seq<string> {
    if body == [] then [] else OldPart(body[0]) + OldSide(body[1..])
  }

  /** The lines the file holds after the hunk. */
  function NewSide(body: seq<string>): seq<string> {
    if body == [] then [] else NewPart(body[0]) + NewSide(body[1..])
  }

  predicate HasChange(body: seq<string>) {
    exists i :: 0 <= i < |body| && body[i] != "" && (body[i][0] == '-' || body[i][0] == '+')
  }

  lemma SidesOfOne(line: string)
    ensures OldSide([line]) == OldPart(line)
    ensures NewSide([line]) == NewPart(line)
    ensures HasChange([line]) == (line != "" && (line[0] == '-' || line[0] == '+'))
  {
    assert [line][1..] == [];
    assert [line][0] == line;
  }

  lemma {:induction false} OldSideOfConcat(a: seq<string>, b: seq<string>)
    ensures OldSide(a + b) == OldSide(a) + OldSide(b)
  {
    if a == [] {
      assert a + b == b;
    } else {
      hide OldPart;
      assert (a + b)[0] == a[0] && (a + b)[1..] == a[1..] + b;
      OldSideOfConcat(a[1..], b);
      assert OldSide(a + b) == OldPart(a[0]) + (OldSide(a[1..]) + OldSide(b));
    }
  }

  lemma {:induction false} NewSideOfConcat(a: seq<string>, b: seq<string>)
    ensures NewSide(a + b) == NewSide(a) + NewSide(b)
  {
    if a == [] {
      assert a + b == b;
    } else {
      hide NewPart;
      assert (a + b)[0] == a[0] && (a + b)[1..] == a[1..] + b;
      NewSideOfConcat(a[1..], b);
      assert NewSide(a + b) == NewPart(a[0]) + (NewSide(a[1..]) + NewSide(b));
    }
  }

  lemma SidesOfConcat(a: seq<string>, b: seq<string>)
    ensures OldSide(a + b) == OldSide(a) + OldSide(b)
    ensures NewSide(a + b) == NewSide(a) + NewSide(b)
  {
    OldSideOfConcat(a, b);
    NewSideOfConcat(a, b);
  }

  // ----- applying -----

  /** Zero-based position of a side: an empty side names the line before it. */
  function Position(start: int, count: int): int {
    if count == 0 then start else start - 1
  }

  predicate HunkFits(h: Hunk, file: seq<string>, pos: nat, produced: nat)
    requires pos <= |file|
  {
    var at := Position(h.header.oldStart, h.header.oldCount);
    && AllContent(h.body)
    && |OldSide(h.body)| == h.header.oldCount
    && |NewSide(h.body)| == h.header.newCount
    && pos <= at && at + h.header.oldCount <= |file|
    && file[at..at + h.header.oldCount] == OldSide(h.body)
    && produced + (at - pos) == Position(h.header.newStart, h.header.newCount)
  }

  /** Applies the hunks to `file`, of which `file[..pos]` was already turned into `done`. */
  function ApplyHunks(hunks: seq<Hunk>, file: seq<string>, pos: nat, done: seq<string>): Option<seq<string>>
    requires pos <= |file|
    decreases |hunks|
  {
    if hunks == [] then Some(done + file[pos..])
    else if HunkFits(hunks[0], file, pos, |done|) then
      var at := Position(hunks[0].header.oldStart, hunks[0].header.oldCount);
      ApplyHunks(hunks[1..], file, at + hunks[0].header.oldCount, done + file[pos..at] + NewSide(hunks[0].body))
    else None
  }

  // ----- reading a patch -----

  /** Index of the first hunk header at or after `i`. */
  function NextHeader(lines: seq<string>, i: nat): (j: nat)
    requires i <= |lines|
    ensures i <= j <= |lines|
    ensures j < |lines| ==> IsHeaderLine(lines[j])
    ensures forall k | i <= k < j :: !IsHeaderLine(lines[k])
    decreases |lines| - i
  {
    if i == |lines| || IsHeaderLine(lines[i]) then i else NextHeader(lines, i + 1)
  }

  /** The hunks from line `i` on, which must be a hunk header or the end. */
  function ParseHunks(lines: seq<string>, i: nat): Option<seq<Hunk>>
    requires i <= |lines|
    decreases |lines| - i
  {
    if i == |lines| then Some([]) else
    var header := ParseHeader(lines[i]);
    var next := NextHeader(lines, i + 1);
    var rest := ParseHunks(lines, next);
    if header.None? || rest.None? then None
    else Some([Hunk(header.value, lines[i + 1..next])] + rest.value)
  }

  /** The lines of a patch text, which must end with a newline. */
  function PatchLines(text: string): (lines: seq<string>) {
    var lines := Split(text);
    lines[..|lines| - 1]
  }

  predicate EndsWithNewline(text: string) {
    text != "" && text[|text| - 1] == '\n'
  }

  /** Applies a whole single-file patch text to a file. */
  function Apply(text: string, file: seq<string>): Option<seq<string>> {
    var lines := PatchLines(text);
    if !EndsWithNewline(text) then None else
    var hunks := ParseHunks(lines, NextHeader(lines, 0));
    if hunks.None? then None else ApplyHunks(hunks.value, file, 0, [])
  }

  function Render(hunks: seq<Hunk>): seq<string> {
    if hunks == [] then [] else [FormatHeader(hunks[0].header)] + hunks[0].body + Render(hunks[1..])
  }

  lemma {:induction false} LastLineOfSplit(text: string)
    requires EndsWithNewline(text)
    ensures Split(text) == PatchLines(text) + [""]
  {
    var lines := Split(text);
    if |text| == 1 {
      assert text[1..] == "";
      assert lines == ["", ""];
    } else {
      LastLineOfSplit(text[1..]);
      var rest := Split(text[1..]);
      assert rest[|rest| - 1] == "";
      assert |rest| >= 2;
      assert lines[|lines| - 1] == "";
    }
    assert lines[|lines| - 1] == "";
  }

  // ----- a patch and its reverse -----

  function ReverseLine(line: string): string {
    if line == "" then line
    else if line[0] == '-' then "+" + line[1..]
    else if line[0] == '+' then "-" + line[1..]
    else line
  }

  function ReverseBody(body: seq<string>): (r: seq<string>)
    ensures |r| == |body|
  {
    if body == [] then [] else [ReverseLine(body[0])] + ReverseBody(body[1..])
  }

  function ReverseHunk(h: Hunk): Hunk {
    Hunk(Header(h.header.newStart, h.header.newCount, h.header.oldStart, h.header.oldCount), ReverseBody(h.body))
  }

  function Reverse(hunks: seq<Hunk>): (r: seq<Hunk>)
    ensures |r| == |hunks|
  {
    if hunks == [] then [] else [ReverseHunk(hunks[0])] + Reverse(hunks[1..])
  }

  lemma {:induction false} ReverseBodySides(body: seq<string>)
    requires AllContent(body)
    ensures AllContent(ReverseBody(body))
    ensures OldSide(ReverseBody(body)) == NewSide(body)
    ensures NewSide(ReverseBody(body)) == OldSide(body)
  {
    if body != [] {
      assert IsContent(body[0]);
      assert AllContent(body[1..]);
      ReverseBodySides(body[1..]);
      assert ReverseBody(body)[1..] == ReverseBody(body[1..]);
    }
  }

  lemma {:induction false} ApplyKeepsDone(hunks: seq<Hunk>, file: seq<string>, pos: nat, done: seq<string>)
    requires pos <= |file|
    requires ApplyHunks(hunks, file, pos, done).Some?
    ensures done <= ApplyHunks(hunks, file, pos, done).value
    decreases |hunks|
  {
    if hunks != [] {
      var at := Position(hunks[0].header.oldStart, hunks[0].header.oldCount);
      ApplyKeepsDone(hunks[1..], file, at + hunks[0].header.oldCount, done + file[pos..at] + NewSide(hunks[0].body));
    }
  }

  /** One hunk of a reversed patch fits where the original hunk put its new side. */
  lemma ReverseHunkFits(h: Hunk, file: seq<string>, pos: nat, done: seq<string>, result: seq<string>)
    requires pos <= |file|
    requires HunkFits(h, file, pos, |done|)
    requires var at := Position(h.header.oldStart, h.header.oldCount);
             done + file[pos..at] + NewSide(h.body) <= result
    ensures |done| <= |result|
    ensures HunkFits(ReverseHunk(h), result, |done|, pos)
    ensures var at := Position(h.header.oldStart, h.header.oldCount);
            var back := Position(h.header.newStart, h.header.newCount);
            && back + h.header.newCount == |done + file[pos..at] + NewSide(h.body)|
            && file[..pos] + result[|done|..back] + OldSide(h.body) == file[..at + h.header.oldCount]
  {
    ReverseBodySides(h.body);
    var at := Position(h.header.oldStart, h.header.oldCount);
    var back := Position(h.header.newStart, h.header.newCount);
    var done' := done + file[pos..at] + NewSide(h.body);
    assert result[..|done'|] == done';
    assert result[|done|..back] == done'[|done|..back] == file[pos..at];
    assert result[back..back + h.header.newCount] == done'[back..] == NewSide(h.body);
    assert file[..pos] + file[pos..at] + file[at..at + h.header.oldCount] == file[..at + h.header.oldCount];
  }

  /** `apply -R`: reversing a patch that turns one file into another gives a patch that turns it back. */
  lemma {:induction false} ReverseUndoes(hunks: seq<Hunk>, file: seq<string>, pos: nat, done: seq<string>)
    requires pos <= |file|
    requires ApplyHunks(hunks, file, pos, done).Some?
    ensures |done| <= |ApplyHunks(hunks, file, pos, done).value|
    ensures ApplyHunks(Reverse(hunks), ApplyHunks(hunks, file, pos, done).value, |done|, file[..pos]) == Some(file)
    decreases |hunks|
  {
    ApplyKeepsDone(hunks, file, pos, done);
    var result := ApplyHunks(hunks, file, pos, done).value;
    if hunks == [] {
      assert result[|done|..] == file[pos..];
      assert file[..pos] + file[pos..] == file;
    } else {
      var h := hunks[0];
      var at := Position(h.header.oldStart, h.header.oldCount);
      var done' := done + file[pos..at] + NewSide(h.body);
      ApplyKeepsDone(hunks[1..], file, at + h.header.oldCount, done');
      ReverseHunkFits(h, file, pos, done, result);
      ReverseBodySides(h.body);
      ReverseUndoes(hunks[1..], file, at + h.header.oldCount, done');
      assert Reverse(hunks)[1..] == Reverse(hunks[1..]);
      assert |file[..pos]| == pos;
    }
  }
}
