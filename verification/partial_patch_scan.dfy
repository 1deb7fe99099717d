/** The line-by-line scan, described hunk by hunk. */
module PartialPatchScan {
  import opened TextLines
  import opened PatchFormat
  import opened PartialPatch

  /** The lines one diff line inside a hunk adds; `kept` says whether the content line before it was emitted. */
  function EmitAny(line: string, picked: bool, discard: bool, kept: bool): seq<string> {
    if IsContent(line) then EmitLine(line, picked, discard) else if IsMarker(line) && kept then [line] else []
  }

  /** Whether the latest content line was emitted, after this line. */
  function KeptBy(line: string, picked: bool, discard: bool, kept: bool): bool {
    if IsContent(line) then EmitLine(line, picked, discard) != [] else kept
  }

  /** The lines emitted for the body of a hunk whose first line has index `at` in the diff. */
  function EmitBody(body: seq<string>, at: int, selected: set<int>, discard: bool, kept: bool): seq<string> {
    if body == [] then []
    else EmitAny(body[0], at in selected, discard, kept)
         + EmitBody(body[1..], at + 1, selected, discard, KeptBy(body[0], at in selected, discard, kept))
  }

  function KeptAfter(body: seq<string>, at: int, selected: set<int>, discard: bool, kept: bool): bool {
    if body == [] then kept
    else KeptAfter(body[1..], at + 1, selected, discard, KeptBy(body[0], at in selected, discard, kept))
  }

  predicate IsDeletion(line: string) {
    "-" <= line
  }

  function Deletions(body: seq<string>): nat {
    if body == [] then 0 else (if IsDeletion(body[0]) then 1 else 0) + Deletions(body[1..])
  }

  function PickedDeletions(body: seq<string>, at: int, selected: set<int>): nat {
    if body == [] then 0
    else (if IsDeletion(body[0]) && at in selected then 1 else 0) + PickedDeletions(body[1..], at + 1, selected)
  }

  /** The scan state after a whole hunk body. */
  function AfterBody(s: Scan, body: seq<string>, at: int, selected: set<int>, discard: bool): Scan
    requires s.hunks != []
  {
    ExtendLast(s, EmitBody(body, at, selected, discard, s.lastLineKept)).(
      lastLineKept := KeptAfter(body, at, selected, discard, s.lastLineKept),
      totalDeletions := s.totalDeletions + Deletions(body),
      selectedDeletions := s.selectedDeletions + (if discard then 0 else PickedDeletions(body, at, selected)))
  }

  predicate InsideHunk(line: string) {
    !IsHeaderLine(line) && !("diff " <= line)
  }

  lemma HasChangeOfConcat(a: seq<string>, b: seq<string>)
    ensures HasChange(a + b) == (HasChange(a) || HasChange(b))
  {
    var all := a + b;
    assert forall i :: 0 <= i < |a| ==> all[i] == a[i];
    assert forall i :: 0 <= i < |b| ==> all[|a| + i] == b[i];
  }

  lemma ExtendTwice(s: Scan, a: seq<string>, b: seq<string>)
    requires s.hunks != []
    ensures ExtendLast(ExtendLast(s, a), b) == ExtendLast(s, a + b)
  {
    SidesOfConcat(a, b);
    HasChangeOfConcat(a, b);
    hide HasChange, OldSide, NewSide;
    var h := s.hunks[|s.hunks| - 1];
    assert h.lines + a + b == h.lines + (a + b);
    assert Extend(Extend(h, a), b) == Extend(h, a + b);
  }

  lemma StepInside(s: Scan, at: int, line: string, selected: set<int>, discard: bool)
    requires s.hunks != [] && InsideHunk(line)
    ensures var next := Step(s, at, line, selected, discard);
            && next.Ok?
            && next.value.header == s.header
            && next.value.hunks == ExtendLast(s, EmitAny(line, at in selected, discard, s.lastLineKept)).hunks
            && next.value.lastLineKept == KeptBy(line, at in selected, discard, s.lastLineKept)
            && next.value.totalDeletions == s.totalDeletions + (if IsDeletion(line) then 1 else 0)
            && next.value.selectedDeletions
               == s.selectedDeletions + (if !discard && IsDeletion(line) && at in selected then 1 else 0)
  {
    NothingToAdd(s);
  }

  lemma AfterLine(s: Scan, body: seq<string>, at: int, selected: set<int>, discard: bool)
    requires s.hunks != [] && body != [] && InsideHunk(body[0])
    ensures var next := Step(s, at, body[0], selected, discard);
            next.Ok? && next.value.hunks != [] &&
            AfterBody(next.value, body[1..], at + 1, selected, discard) == AfterBody(s, body, at, selected, discard)
  {
    hide Extend, Step, EmitAny, KeptBy;
    StepInside(s, at, body[0], selected, discard);
    var next := Step(s, at, body[0], selected, discard).value;
    var rest := EmitBody(body[1..], at + 1, selected, discard, next.lastLineKept);
    ExtendTwice(s, EmitAny(body[0], at in selected, discard, s.lastLineKept), rest);
  }

  /** Scanning a hunk body line by line is emitting it as a whole. */
  lemma {:induction false} ScanBody(lines: seq<string>, i: nat, j: nat, s: Scan, selected: set<int>, discard: bool)
    requires i <= j <= |lines| && s.hunks != []
    requires forall k | i <= k < j :: InsideHunk(lines[k])
    ensures ScanFrom(lines, i, s, selected, discard)
         == ScanFrom(lines, j, AfterBody(s, lines[i..j], i, selected, discard), selected, discard)
    decreases j - i
  {
    if i == j {
      NothingToAdd(s);
    } else {
      hide AfterBody, Step;
      var body := lines[i..j];
      assert body[0] == lines[i] && body[1..] == lines[i + 1..j];
      AfterLine(s, body, i, selected, discard);
      ScanBody(lines, i + 1, j, Step(s, i, lines[i], selected, discard).value, selected, discard);
    }
  }

  // ----- lines before the first hunk -----

  /** The lines kept from before the first hunk. */
  function HeaderLines(lines: seq<string>): seq<string> {
    if lines == [] then []
    else (if "diff " <= lines[0] || (lines[0] != "" && !("index " <= lines[0])) then [lines[0]] else [])
         + HeaderLines(lines[1..])
  }

  lemma {:induction false} ScanHeader(lines: seq<string>, i: nat, j: nat, s: Scan, selected: set<int>, discard: bool)
    requires i <= j <= |lines| && s.hunks == []
    requires forall k | i <= k < j :: !IsHeaderLine(lines[k])
    ensures ScanFrom(lines, i, s, selected, discard)
         == ScanFrom(lines, j, s.(header := s.header + HeaderLines(lines[i..j])), selected, discard)
    decreases j - i
  {
    if i == j {
      assert s.header + [] == s.header;
    } else {
      var part := lines[i..j];
      assert part[0] == lines[i] && part[1..] == lines[i + 1..j];
      var next := Step(s, i, lines[i], selected, discard).value;
      ScanHeader(lines, i + 1, j, next, selected, discard);
      assert next.header + HeaderLines(part[1..]) == s.header + HeaderLines(part);
    }
  }

  // ----- a whole diff that parses -----

  /** The hunk gathered from a parsed hunk whose header has index `at`. */
  function GatherOne(h: Hunk, at: int, selected: set<int>, discard: bool): PatchHunk {
    Extend(PatchHunk(if discard then h.header.newStart else h.header.oldStart, 0, 0, false, []),
           EmitBody(h.body, at + 1, selected, discard, false))
  }

  function Gather(hunks: seq<Hunk>, at: int, selected: set<int>, discard: bool): (r: seq<PatchHunk>)
    ensures |r| == |hunks|
  {
    if hunks == [] then []
    else [GatherOne(hunks[0], at, selected, discard)] + Gather(hunks[1..], at + 1 + |hunks[0].body|, selected, discard)
  }

  predicate Contents(hunks: seq<Hunk>) {
    forall i | 0 <= i < |hunks| :: AllContent(hunks[i].body)
  }

  /** All lines of the hunks are lines inside a hunk: content, markers or others, but no line of another file. */
  predicate AllInside(hunks: seq<Hunk>) {
    forall i | 0 <= i < |hunks| :: BodyInside(hunks[i].body)
  }

  predicate BodyInside(body: seq<string>) {
    forall k | 0 <= k < |body| :: InsideHunk(body[k])
  }

  lemma ContentsAreInside(hunks: seq<Hunk>)
    requires Contents(hunks)
    ensures AllInside(hunks)
  {
    forall i, k | 0 <= i < |hunks| && 0 <= k < |hunks[i].body|
      ensures InsideHunk(hunks[i].body[k])
    {
      assert IsContent(hunks[i].body[k]);
    }
  }

  function HunkDeletions(hunks: seq<Hunk>): nat {
    if hunks == [] then 0 else Deletions(hunks[0].body) + HunkDeletions(hunks[1..])
  }

  function HunkPickedDeletions(hunks: seq<Hunk>, at: int, selected: set<int>): nat {
    if hunks == [] then 0
    else PickedDeletions(hunks[0].body, at + 1, selected)
         + HunkPickedDeletions(hunks[1..], at + 1 + |hunks[0].body|, selected)
  }

  /** The scan state after one parsed hunk, and after a run of them. */
  function AfterHunk(s: Scan, h: Hunk, at: int, selected: set<int>, discard: bool): Scan {
    var start := if discard then h.header.newStart else h.header.oldStart;
    AfterBody(s.(hunks := s.hunks + [PatchHunk(start, 0, 0, false, [])], lastLineKept := false),
              h.body, at + 1, selected, discard)
  }

  function AfterHunks(s: Scan, hunks: seq<Hunk>, at: int, selected: set<int>, discard: bool): Scan
    decreases |hunks|
  {
    if hunks == [] then s
    else AfterHunks(AfterHunk(s, hunks[0], at, selected, discard), hunks[1..], at + 1 + |hunks[0].body|, selected,
                    discard)
  }

  lemma {:induction false} AfterHunksIsGather(s: Scan, hunks: seq<Hunk>, at: int, selected: set<int>, discard: bool)
    ensures var r := AfterHunks(s, hunks, at, selected, discard);
            && r.header == s.header
            && r.hunks == s.hunks + Gather(hunks, at, selected, discard)
            && r.totalDeletions == s.totalDeletions + HunkDeletions(hunks)
            && r.selectedDeletions
               == s.selectedDeletions + (if discard then 0 else HunkPickedDeletions(hunks, at, selected))
    decreases |hunks|
  {
    hide EmitBody;
    if hunks != [] {
      hide AfterHunk, GatherOne, Deletions, PickedDeletions;
      var next := AfterHunk(s, hunks[0], at, selected, discard);
      AfterOneHunk(s, hunks[0], at, selected, discard);
      AfterHunksIsGather(next, hunks[1..], at + 1 + |hunks[0].body|, selected, discard);
      OneMoreGathered(s.hunks, hunks, at, selected, discard);
      hide Gather;
    } else {
      assert s.hunks + [] == s.hunks;
    }
  }

  lemma AfterOneHunk(s: Scan, h: Hunk, at: int, selected: set<int>, discard: bool)
    ensures var next := AfterHunk(s, h, at, selected, discard);
            && next.header == s.header
            && next.hunks == s.hunks + [GatherOne(h, at, selected, discard)]
            && next.totalDeletions == s.totalDeletions + Deletions(h.body)
            && next.selectedDeletions
               == s.selectedDeletions + (if discard then 0 else PickedDeletions(h.body, at + 1, selected))
  {
    hide EmitBody, Extend;
    var all := s.hunks + [PatchHunk(if discard then h.header.newStart else h.header.oldStart, 0, 0, false, [])];
    assert all[..|all| - 1] == s.hunks;
  }

  lemma OneMoreGathered(before: seq<PatchHunk>, hunks: seq<Hunk>, at: int, selected: set<int>, discard: bool)
    requires hunks != []
    ensures before + [GatherOne(hunks[0], at, selected, discard)]
            + Gather(hunks[1..], at + 1 + |hunks[0].body|, selected, discard)
            == before + Gather(hunks, at, selected, discard)
  {
    hide GatherOne;
  }

  lemma ScanOneHunk(lines: seq<string>, i: nat, next: nat, h: Hunk, s: Scan, selected: set<int>, discard: bool)
    requires i < next <= |lines| && IsHeaderLine(lines[i])
    requires ParseHeader(lines[i]) == Some(h.header) && h.body == lines[i + 1..next] && BodyInside(h.body)
    ensures ScanFrom(lines, i, s, selected, discard)
         == ScanFrom(lines, next, AfterHunk(s, h, i, selected, discard), selected, discard)
  {
    hide AfterBody, ParseHeader;
    forall k | i + 1 <= k < next
      ensures InsideHunk(lines[k])
    {
      assert InsideHunk(h.body[k - i - 1]);
    }
    assert lines[i][0] == '@';
    ScanBody(lines, i + 1, next, Step(s, i, lines[i], selected, discard).value, selected, discard);
  }

  /** Scanning the hunk lines of a diff. */
  lemma {:induction false} ScanHunks(lines: seq<string>, i: nat, s: Scan, selected: set<int>, discard: bool)
    requires i <= |lines|
    requires ParseHunks(lines, i).Some? && AllInside(ParseHunks(lines, i).value)
    requires i < |lines| ==> IsHeaderLine(lines[i])
    ensures ScanFrom(lines, i, s, selected, discard)
         == Ok(AfterHunks(s, ParseHunks(lines, i).value, i, selected, discard))
    decreases |lines| - i
  {
    hide AfterHunk, ParseHeader;
    if i < |lines| {
      var next := NextHeader(lines, i + 1);
      var hunks := ParseHunks(lines, i).value;
      assert hunks[1..] == ParseHunks(lines, next).value;
      ScanOneHunk(lines, i, next, hunks[0], s, selected, discard);
      ScanHunks(lines, next, AfterHunk(s, hunks[0], i, selected, discard), selected, discard);
    }
  }
}
