/** What the scan keeps true of every diff, and reading a printed patch back. */
module PartialPatchText {
  import opened TextLines
  import opened PatchFormat
  import opened PartialPatch
  import opened PartialPatchScan

  /** A line that a scan before the first hunk keeps. */
  predicate FileHeaderLine(line: string) {
    NoNewline(line) && !IsHeaderLine(line) && ("diff " <= line || (line != "" && !("index " <= line)))
  }

  predicate FileHeader(header: seq<string>) {
    forall i | 0 <= i < |header| :: FileHeaderLine(header[i])
  }

  predicate BodyLine(line: string) {
    NoNewline(line) && (IsContent(line) || IsMarker(line))
  }

  /** Lines a hunk of the result may hold: content and markers, with no marker in front. */
  predicate HunkBody(body: seq<string>) {
    && (forall i | 0 <= i < |body| :: BodyLine(body[i]))
    && (body != [] ==> IsContent(body[0]))
  }

  /** The hunk's counts are the real sizes of its two sides and its flag says whether it changes anything. */
  predicate GoodHunk(h: PatchHunk) {
    && HunkBody(h.lines)
    && h.oldStart >= 0
    && h.oldCount == |OldSide(h.lines)|
    && h.newCount == |NewSide(h.lines)|
    && h.hasChanges == HasChange(h.lines)
  }

  predicate GoodHunks(hunks: seq<PatchHunk>) {
    forall i | 0 <= i < |hunks| :: GoodHunk(hunks[i])
  }

  predicate GoodScan(s: Scan) {
    && FileHeader(s.header)
    && GoodHunks(s.hunks)
    && (s.lastLineKept ==> s.hunks != [] && s.hunks[|s.hunks| - 1].lines != [])
    && s.selectedDeletions <= s.totalDeletions
  }

  lemma HunkBodyOfConcat(a: seq<string>, b: seq<string>)
    requires HunkBody(a)
    requires forall i | 0 <= i < |b| :: BodyLine(b[i])
    requires a == [] && b != [] ==> IsContent(b[0])
    ensures HunkBody(a + b)
  {
    var all := a + b;
    forall i | 0 <= i < |all|
      ensures BodyLine(all[i])
    {
      assert all[i] == if i < |a| then a[i] else b[i - |a|];
    }
  }

  lemma ExtendKeepsGood(h: PatchHunk, emitted: seq<string>)
    requires GoodHunk(h)
    requires forall i | 0 <= i < |emitted| :: BodyLine(emitted[i])
    requires h.lines == [] && emitted != [] ==> IsContent(emitted[0])
    ensures GoodHunk(Extend(h, emitted))
  {
    hide BodyLine, IsContent;
    HunkBodyOfConcat(h.lines, emitted);
    SidesOfConcat(h.lines, emitted);
    HasChangeOfConcat(h.lines, emitted);
  }

  lemma EmitLineIsBody(line: string, picked: bool, discard: bool)
    requires NoNewline(line) && IsContent(line)
    ensures var e := EmitLine(line, picked, discard);
            forall i | 0 <= i < |e| :: BodyLine(e[i]) && IsContent(e[i])
  {
  }

  lemma ExtendLastKeepsGood(s: Scan, emitted: seq<string>)
    requires GoodScan(s) && s.hunks != []
    requires forall i | 0 <= i < |emitted| :: BodyLine(emitted[i])
    requires s.hunks[|s.hunks| - 1].lines == [] && emitted != [] ==> IsContent(emitted[0])
    ensures var r := ExtendLast(s, emitted);
            GoodHunks(r.hunks) && r.hunks[|r.hunks| - 1].lines == s.hunks[|s.hunks| - 1].lines + emitted
  {
    hide Extend, GoodHunk;
    ExtendKeepsGood(s.hunks[|s.hunks| - 1], emitted);
    assert Extend(s.hunks[|s.hunks| - 1], emitted).lines == s.hunks[|s.hunks| - 1].lines + emitted by {
      ExtendedLines(s.hunks[|s.hunks| - 1], emitted);
    }
  }

  lemma ExtendedLines(h: PatchHunk, emitted: seq<string>)
    ensures Extend(h, emitted).lines == h.lines + emitted
  {
  }

  lemma ParsedStartsAreNonNegative(line: string)
    requires ParseHeader(line).Some?
    ensures NonNegative(ParseHeader(line).value)
  {
  }

  /** One step inside a hunk keeps the invariant. */
  lemma StepInsideKeepsGood(s: Scan, index: int, line: string, selected: set<int>, discard: bool)
    requires GoodScan(s) && s.hunks != [] && NoNewline(line) && InsideHunk(line)
    ensures Step(s, index, line, selected, discard).Ok? && GoodScan(Step(s, index, line, selected, discard).value)
  {
    hide ParseHeader, Extend, GoodHunk, FileHeader;
    StepInside(s, index, line, selected, discard);
    if IsContent(line) {
      EmitLineIsBody(line, index in selected, discard);
    }
    ExtendLastKeepsGood(s, EmitAny(line, index in selected, discard, s.lastLineKept));
  }

  /** One step before the first hunk, or at a hunk header, keeps the invariant. */
  lemma StepOutsideKeepsGood(s: Scan, index: int, line: string, selected: set<int>, discard: bool)
    requires GoodScan(s) && NoNewline(line) && (s.hunks == [] || !InsideHunk(line))
    requires Step(s, index, line, selected, discard).Ok?
    ensures GoodScan(Step(s, index, line, selected, discard).value)
  {
    hide ParseHeader, ContentStep, IsContent, IsMarker, NoNewline;
    var next := Step(s, index, line, selected, discard).value;
    if IsHeaderLine(line) && !("diff " <= line) {
      ParsedStartsAreNonNegative(line);
      var added := next.hunks[|s.hunks|];
      assert added.lines == [] && GoodHunk(added);
    } else {
      assert next.hunks == s.hunks;
      assert "diff " <= line ==> line[0] == 'd';
    }
  }

  /** One step anywhere keeps the invariant. */
  lemma StepKeepsGood(s: Scan, index: int, line: string, selected: set<int>, discard: bool)
    requires GoodScan(s) && NoNewline(line)
    requires Step(s, index, line, selected, discard).Ok?
    ensures GoodScan(Step(s, index, line, selected, discard).value)
  {
    hide Step, GoodScan, InsideHunk, NoNewline;
    if s.hunks != [] && InsideHunk(line) {
      StepInsideKeepsGood(s, index, line, selected, discard);
    } else {
      StepOutsideKeepsGood(s, index, line, selected, discard);
    }
  }

  /** Every hunk of every scan carries its real counts, whatever the diff looks like. */
  lemma {:induction false} ScanKeepsGood(lines: seq<string>, i: nat, s: Scan, selected: set<int>, discard: bool)
    requires i <= |lines| && AllNoNewline(lines) && GoodScan(s)
    requires ScanFrom(lines, i, s, selected, discard).Ok?
    ensures GoodScan(ScanFrom(lines, i, s, selected, discard).value)
    decreases |lines| - i
  {
    hide Step, GoodScan;
    if i < |lines| {
      StepKeepsGood(s, i, lines[i], selected, discard);
      ScanKeepsGood(lines, i + 1, Step(s, i, lines[i], selected, discard).value, selected, discard);
    }
  }

  // ----- headers of the result -----

  lemma {:induction false} LastFieldHasNoNewline(header: seq<string>, prefix: string, otherwise: string)
    requires FileHeader(header) && NoNewline(otherwise)
    ensures NoNewline(LastField(header, prefix, otherwise))
  {
    if header != [] {
      LastFieldHasNoNewline(header[..|header| - 1], prefix, otherwise);
    }
  }

  lemma {:induction false} ReplaceFirstHasNoNewline(text: string, from: string, to: string)
    requires NoNewline(text) && NoNewline(to)
    ensures NoNewline(ReplaceFirst(text, from, to))
  {
    if !(from <= text) && text != "" {
      ReplaceFirstHasNoNewline(text[1..], from, to);
    }
  }

  lemma {:induction false} KeptLinesAreHeader(header: seq<string>, oldPath: string)
    requires FileHeader(header) && NoNewline(oldPath)
    ensures FileHeader(KeptLines(header, oldPath))
  {
    if header != [] {
      KeptLinesAreHeader(header[..|header| - 1], oldPath);
      ReplaceFirstHasNoNewline(oldPath, "a/", "b/");
      PathLinesAreHeader(TargetOf(oldPath));
    }
  }

  lemma PlainLine(prefix: string, rest: string)
    requires prefix != "" && NoNewline(prefix) && NoNewline(rest)
    requires prefix[0] != '@' && (prefix[0] != 'i')
    ensures FileHeaderLine(prefix + rest)
  {
    var line := prefix + rest;
    assert line[0] == prefix[0];
  }

  lemma GitLineIsHeader(source: string, target: string)
    requires NoNewline(source) && NoNewline(target)
    ensures FileHeaderLine(GitLine(source, target))
  {
    PlainLine("diff --git ", source + " " + target);
    assert GitLine(source, target) == "diff --git " + (source + " " + target);
  }

  lemma PathLinesAreHeader(path: string)
    requires NoNewline(path)
    ensures FileHeaderLine(OldPathLine(path)) && FileHeaderLine(NewPathLine(path)) && FileHeaderLine(NewFileLine(path))
  {
    PlainLine("--- ", path);
    PlainLine("+++ ", path);
    PlainLine("new file mode ", path);
  }

  lemma DiscardedHeaderIsHeader(header: seq<string>)
    requires FileHeader(header)
    ensures FileHeader(DiscardedHeader(header))
  {
    hide LastField, ReplaceFirst, FileHeaderLine, GitLine, OldPathLine, NewPathLine, NewFileLine;
    var oldPath := LastField(header, "--- ", "");
    var newPath := LastField(header, "+++ ", "");
    var mode := LastField(header, "deleted file mode ", "100644");
    LastFieldHasNoNewline(header, "--- ", "");
    LastFieldHasNoNewline(header, "+++ ", "");
    LastFieldHasNoNewline(header, "deleted file mode ", "100644");
    ReplaceFirstHasNoNewline(oldPath, "a/", "b/");
    ReplaceFirstHasNoNewline(newPath, "b/", "a/");
    var target, source := TargetOf(oldPath), ReplaceFirst(newPath, "b/", "a/");
    GitLineIsHeader(oldPath, target);
    GitLineIsHeader(source, newPath);
    PathLinesAreHeader(mode);
    PathLinesAreHeader("/dev/null");
    PathLinesAreHeader(source);
    PathLinesAreHeader(target);
    PathLinesAreHeader(newPath);
  }

  lemma FinalHeaderIsHeader(s: Scan, discard: bool)
    requires FileHeader(s.header)
    ensures FileHeader(FinalHeader(s, discard))
  {
    hide FileHeader;
    DiscardedHeaderIsHeader(s.header);
    LastFieldHasNoNewline(s.header, "--- ", "");
    KeptLinesAreHeader(s.header, LastField(s.header, "--- ", ""));
  }

  // ----- printing and reading back -----

  /** A hunk that can be printed and read back. */
  predicate Printable(h: Hunk) {
    && NonNegative(h.header)
    && forall i | 0 <= i < |h.body| :: NoNewline(h.body[i]) && !IsHeaderLine(h.body[i])
  }

  predicate AllPrintable(hunks: seq<Hunk>) {
    forall i | 0 <= i < |hunks| :: Printable(hunks[i])
  }

  lemma FormatHeaderIsALine(h: Header)
    ensures NoNewline(FormatHeader(h)) && IsHeaderLine(FormatHeader(h))
  {
    DecimalHasNoNewline(h.oldStart);
    DecimalHasNoNewline(h.oldCount);
    DecimalHasNoNewline(h.newStart);
    DecimalHasNoNewline(h.newCount);
    hide Decimal;
    var line := FormatHeader(h);
    assert line[0] == '@' && line[1] == '@';
  }

  lemma DecimalHasNoNewline(n: int)
    ensures NoNewline(Decimal(n))
  {
    assert forall d: string | AllDigits(d) :: NoNewline(d) by {
      forall d: string | AllDigits(d)
        ensures NoNewline(d)
      {
        assert forall i | 0 <= i < |d| :: IsDigit(d[i]);
      }
    }
  }

  predicate BodiesOfLines(hunks: seq<Hunk>) {
    forall i | 0 <= i < |hunks| :: AllNoNewline(hunks[i].body)
  }

  lemma {:induction false} RenderHasNoNewline(hunks: seq<Hunk>)
    requires BodiesOfLines(hunks)
    ensures AllNoNewline(Render(hunks))
  {
    hide FormatHeader, NoNewline;
    if hunks != [] {
      FormatHeaderIsALine(hunks[0].header);
      RenderHasNoNewline(hunks[1..]);
    }
  }

  lemma NextHeaderAt(lines: seq<string>, i: nat, j: nat)
    requires i <= j <= |lines|
    requires forall k | i <= k < j :: !IsHeaderLine(lines[k])
    requires j < |lines| ==> IsHeaderLine(lines[j])
    ensures NextHeader(lines, i) == j
  {
  }

  lemma RenderStep(hunks: seq<Hunk>)
    requires hunks != []
    ensures Render(hunks) == [FormatHeader(hunks[0].header)] + hunks[0].body + Render(hunks[1..])
    ensures Render(hunks) != [] && IsHeaderLine(Render(hunks)[0])
  {
    FormatHeaderIsALine(hunks[0].header);
    hide FormatHeader, IsHeaderLine;
  }

  /** Where the parts of a concatenation stand. */
  lemma Layout<T>(before: seq<T>, first: T, body: seq<T>, tail: seq<T>)
    ensures var lines := before + ([first] + body + tail);
            var end := |before| + 1 + |body|;
            && lines == before + [first] + body + tail
            && lines[|before|] == first
            && lines[|before| + 1..end] == body
            && (forall k | |before| < k < end :: lines[k] == body[k - |before| - 1])
            && (tail != [] ==> lines[end] == tail[0])
  {
  }

  lemma ParseOfRenderStep(before: seq<string>, hunks: seq<Hunk>)
    requires hunks != [] && AllPrintable(hunks)
    ensures var lines := before + Render(hunks);
            var before' := before + [FormatHeader(hunks[0].header)] + hunks[0].body;
            && lines == before' + Render(hunks[1..])
            && ParseHeader(lines[|before|]) == Some(hunks[0].header)
            && NextHeader(lines, |before| + 1) == |before'|
            && lines[|before| + 1..|before'|] == hunks[0].body
  {
    var h, tail := hunks[0], Render(hunks[1..]);
    HeaderRoundTrip(h.header);
    RenderStep(hunks);
    if tail != [] {
      RenderStep(hunks[1..]);
    }
    Layout(before, FormatHeader(h.header), h.body, tail);
    hide FormatHeader, ParseHeader, IsHeaderLine, NoNewline, NonNegative, Render;
    assert Printable(h);
    NextHeaderAt(before + Render(hunks), |before| + 1, |before| + 1 + |h.body|);
  }

  /** Reading back printed hunks gives the hunks. */
  lemma {:induction false} ParseOfRender(before: seq<string>, hunks: seq<Hunk>)
    requires AllPrintable(hunks)
    ensures ParseHunks(before + Render(hunks), |before|) == Some(hunks)
    decreases |hunks|
  {
    hide FormatHeader, ParseHeader, Printable;
    if hunks == [] {
      assert before + [] == before;
    } else {
      var lines := before + Render(hunks);
      var before' := before + [FormatHeader(hunks[0].header)] + hunks[0].body;
      ParseOfRenderStep(before, hunks);
      assert AllPrintable(hunks[1..]);
      ParseOfRender(before', hunks[1..]);
      assert ParseHunks(lines, |before'|) == Some(hunks[1..]);
      assert [Hunk(hunks[0].header, hunks[0].body)] + hunks[1..] == hunks;
      assert ParseHunks(lines, |before|) == Some(hunks);
    }
  }
}
