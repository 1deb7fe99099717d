/** The text of a patch is a normal form: building it again, with all its changes picked, changes nothing.
    And when the header of a deleted file still says that the file goes away. */
module PartialPatchNormalForm {
  import opened TextLines
  import opened PatchFormat
  import opened PartialPatch
  import opened PartialPatchScan
  import opened PartialPatchText
  import opened PartialPatchContent
  import opened PartialPatchTheorems
  import opened PartialPatchNormal

  // ----- the file header of a text -----

  /** The lines kept from before the first hunk of a text. */
  function FileHeaderOf(text: string): seq<string> {
    HeaderLines(Split(text)[..NextHeader(Split(text), 0)])
  }

  lemma {:induction false} HeaderLinesOfHeader(header: seq<string>)
    requires FileHeader(header)
    ensures HeaderLines(header) == header
  {
    if header != [] {
      assert FileHeaderLine(header[0]);
      HeaderLinesOfHeader(header[1..]);
    }
  }

  lemma {:induction false} NextHeaderBeforeTrailingLine(lines: seq<string>, i: nat)
    requires i <= |lines| && NextHeader(lines, i) < |lines|
    ensures NextHeader(lines + [""], i) == NextHeader(lines, i)
    decreases |lines| - i
  {
    if !IsHeaderLine(lines[i]) {
      NextHeaderBeforeTrailingLine(lines, i + 1);
    }
  }

  /** Where the parts of a result text stand. */
  lemma ResultParts(s: Scan, discard: bool)
    requires GoodScan(s) && Emitted(s.hunks, 0) != []
    ensures var text, header := PatchText(s, discard), FinalHeader(s, discard);
            && Split(text) == ResultLines(s, discard) + [""]
            && NextHeader(ResultLines(s, discard), 0) == NextHeader(Split(text), 0) == |header|
            && FileHeader(header)
            && FileHeaderOf(text) == header
  {
    hide GoodHunk, FinalHeader, PatchText, Emitted, FileHeaderLine, Split;
    ResultText(s, discard);
    ResultFirstHeader(s, discard);
    FinalHeaderIsHeader(s, discard);
    RenderStep(Emitted(s.hunks, 0));
    NextHeaderBeforeTrailingLine(ResultLines(s, discard), 0);
    HeaderLinesOfHeader(FinalHeader(s, discard));
    assert (ResultLines(s, discard) + [""])[..|FinalHeader(s, discard)|] == FinalHeader(s, discard);
  }

  // ----- reading a result again -----

  /** Every change line from `i` on is picked. */
  predicate AllPicked(lines: seq<string>, i: nat, selected: set<int>) {
    forall k | i <= k < |lines| && IsChange(lines[k]) :: k in selected
  }

  predicate BodyPicked(body: seq<string>, at: int, selected: set<int>) {
    forall k | 0 <= k < |body| && IsChange(body[k]) :: at + k in selected
  }

  lemma {:induction false} PickedBodyIsKept(body: seq<string>, at: int, selected: set<int>, kept: bool)
    requires forall k | 0 <= k < |body| :: BodyLine(body[k])
    requires kept || body == [] || IsContent(body[0])
    requires BodyPicked(body, at, selected)
    ensures EmitBody(body, at, selected, false, kept) == body
    ensures PickedDeletions(body, at, selected) == Deletions(body)
  {
    if body != [] {
      assert BodyLine(body[0]);
      assert IsChange(body[0]) ==> at + 0 in selected;
      assert EmitAny(body[0], at in selected, false, kept) == [body[0]];
      assert forall k | 0 <= k < |body[1..]| :: body[1..][k] == body[k + 1] && at + 1 + k == at + (k + 1);
      PickedBodyIsKept(body[1..], at + 1, selected, KeptBy(body[0], at in selected, false, kept));
    }
  }

  /** The state after reading one printed hunk again. */
  function AfterGood(s: Scan, g: PatchHunk, at: int, selected: set<int>): Scan {
    AfterBody(s.(hunks := s.hunks + [PatchHunk(g.oldStart, 0, 0, false, [])], lastLineKept := false),
              g.lines, at + 1, selected, false)
  }

  predicate SameButHunk(s: Scan, next: Scan, g: PatchHunk) {
    && next.header == s.header
    && next.hunks == s.hunks + [g]
    && next.totalDeletions - next.selectedDeletions == s.totalDeletions - s.selectedDeletions
  }

  lemma GoodHunkReadAgain(s: Scan, g: PatchHunk, at: int, selected: set<int>)
    requires GoodHunk(g) && BodyPicked(g.lines, at + 1, selected)
    ensures SameButHunk(s, AfterGood(s, g, at, selected), g)
  {
    PickedBodyIsKept(g.lines, at + 1, selected, false);
    hide EmitBody, HasChange, OldSide, NewSide;
    assert Extend(PatchHunk(g.oldStart, 0, 0, false, []), g.lines) == g;
  }

  lemma BodyAtIsInside(lines: seq<string>, i: nat, g: PatchHunk)
    requires GoodHunk(g) && i + 1 + |g.lines| <= |lines| && lines[i + 1..i + 1 + |g.lines|] == g.lines
    ensures forall k | i < k < i + 1 + |g.lines| :: InsideHunk(lines[k])
  {
    hide BodyLine, InsideHunk;
    forall k | i < k < i + 1 + |g.lines|
      ensures InsideHunk(lines[k])
    {
      assert lines[k] == g.lines[k - i - 1];
      assert BodyLine(g.lines[k - i - 1]);
      InsideBody(lines[k]);
    }
  }

  /** Scanning one hunk whose header and body stand at `i`. */
  lemma ScanHunkAt(lines: seq<string>, i: nat, header: Header, g: PatchHunk, s: Scan, selected: set<int>)
    requires GoodHunk(g) && i + 1 + |g.lines| <= |lines|
    requires IsHeaderLine(lines[i]) && ParseHeader(lines[i]) == Some(header) && header.oldStart == g.oldStart
    requires lines[i + 1..i + 1 + |g.lines|] == g.lines
    ensures ScanFrom(lines, i, s, selected, false)
         == ScanFrom(lines, i + 1 + |g.lines|, AfterGood(s, g, i, selected), selected, false)
  {
    hide ParseHeader, AfterBody, BodyLine, InsideHunk, GoodHunk, Step, IsHeaderLine;
    BodyAtIsInside(lines, i, g);
    OpensHunk(s, i, lines[i], header, selected);
    var begun := Step(s, i, lines[i], selected, false).value;
    ScanBody(lines, i + 1, i + 1 + |g.lines|, begun, selected, false);
  }

  lemma OpensHunk(s: Scan, i: int, line: string, header: Header, selected: set<int>)
    requires IsHeaderLine(line) && ParseHeader(line) == Some(header)
    ensures Step(s, i, line, selected, false)
         == Ok(s.(hunks := s.hunks + [PatchHunk(header.oldStart, 0, 0, false, [])], lastLineKept := false))
  {
    hide ParseHeader;
    assert line[0] == '@';
  }

  lemma InsideBody(line: string)
    requires BodyLine(line)
    ensures InsideHunk(line)
  {
    assert line[0] != 'd' && line[0] != '@';
    assert "diff "[0] == 'd' && "@@"[0] == '@';
  }

  lemma NegativeHeaderStops(lines: seq<string>, i: nat, h: Header, s: Scan, selected: set<int>)
    requires h.oldStart >= 0 && h.oldCount >= 0 && h.newStart < 0
    requires i < |lines| && lines[i] == FormatHeader(h)
    ensures ScanFrom(lines, i, s, selected, false).Err?
  {
    NegativeHeaderIsRejected(h);
    FormatHeaderIsALine(h);
    assert lines[i][0] == '@';
    hide FormatHeader, ParseHeader;
  }

  predicate AllChanged(hunks: seq<PatchHunk>) {
    forall i | 0 <= i < |hunks| :: hunks[i].hasChanges
  }

  predicate StartsNonNegative(hunks: seq<Hunk>) {
    forall i | 0 <= i < |hunks| :: hunks[i].header.newStart >= 0
  }

  /** What reading the printed hunks again must come to. */
  ghost predicate ReadAgain(r: Result<Scan, PatchError>, s: Scan, hunks: seq<PatchHunk>, emitted: seq<Hunk>) {
    if StartsNonNegative(emitted) then
      && r.Ok? && r.value.header == s.header && r.value.hunks == s.hunks + hunks
      && r.value.totalDeletions - r.value.selectedDeletions == s.totalDeletions - s.selectedDeletions
    else r.Err?
  }

  lemma StartsOfCons(first: Hunk, rest: seq<Hunk>)
    requires first.header.newStart >= 0
    ensures StartsNonNegative([first] + rest) == StartsNonNegative(rest)
  {
    var all := [first] + rest;
    assert forall i | 0 <= i < |rest| :: rest[i] == all[i + 1];
    assert forall i | 1 <= i < |all| :: all[i] == rest[i - 1];
  }

  lemma ReadAgainStep(r: Result<Scan, PatchError>, s: Scan, next: Scan, hunks: seq<PatchHunk>, delta: int)
    requires hunks != [] && hunks[0].hasChanges && SameButHunk(s, next, hunks[0])
    requires EmittedHeader(hunks[0], delta).newStart >= 0
    requires ReadAgain(r, next, hunks[1..], Emitted(hunks[1..], delta + hunks[0].newCount - hunks[0].oldCount))
    ensures ReadAgain(r, s, hunks, Emitted(hunks, delta))
  {
    hide EmittedHeader;
    var emitted := Emitted(hunks, delta);
    var rest := Emitted(hunks[1..], delta + hunks[0].newCount - hunks[0].oldCount);
    assert emitted == [emitted[0]] + rest && emitted[0].header == EmittedHeader(hunks[0], delta);
    StartsOfCons(emitted[0], rest);
    hide Emitted, StartsNonNegative;
    assert s.hunks + [hunks[0]] + hunks[1..] == s.hunks + hunks;
  }

  /** From line `i` on, the lines are the printed hunks. */
  predicate PrintedAt(lines: seq<string>, i: nat, hunks: seq<PatchHunk>, delta: int) {
    i <= |lines| && lines[i..] == Render(Emitted(hunks, delta))
  }

  lemma SliceLayout<T>(lines: seq<T>, i: nat, first: T, body: seq<T>, tail: seq<T>)
    requires i <= |lines| && lines[i..] == [first] + body + tail
    ensures i + 1 + |body| <= |lines|
    ensures lines[i] == first && lines[i + 1..i + 1 + |body|] == body && lines[i + 1 + |body|..] == tail
  {
    var part := lines[i..];
    assert part[0] == first;
    assert lines[i + 1..i + 1 + |body|] == part[1..1 + |body|];
    assert lines[i + 1 + |body|..] == part[1 + |body|..];
  }

  lemma PrintedStep(lines: seq<string>, i: nat, hunks: seq<PatchHunk>, delta: int)
    requires PrintedAt(lines, i, hunks, delta) && hunks != [] && hunks[0].hasChanges
    ensures var g := hunks[0];
            && i + 1 + |g.lines| <= |lines|
            && lines[i] == FormatHeader(EmittedHeader(g, delta))
            && lines[i + 1..i + 1 + |g.lines|] == g.lines
            && PrintedAt(lines, i + 1 + |g.lines|, hunks[1..], delta + g.newCount - g.oldCount)
  {
    hide FormatHeader, Render, Emitted, EmittedHeader;
    RenderHead(hunks, delta);
    var g := hunks[0];
    SliceLayout(lines, i, FormatHeader(EmittedHeader(g, delta)), g.lines,
                Render(Emitted(hunks[1..], delta + g.newCount - g.oldCount)));
  }

  /** One printed hunk with a readable header, read again. */
  lemma ScanPrintedHunk(lines: seq<string>, i: nat, hunks: seq<PatchHunk>, delta: int, s: Scan, selected: set<int>)
    requires PrintedAt(lines, i, hunks, delta) && hunks != [] && hunks[0].hasChanges && GoodHunk(hunks[0])
    requires EmittedHeader(hunks[0], delta).newStart >= 0
    requires AllPicked(lines, i, selected)
    ensures var g := hunks[0];
            var after := AfterGood(s, g, i, selected);
            && SameButHunk(s, after, g)
            && i + 1 + |g.lines| <= |lines|
            && ScanFrom(lines, i, s, selected, false) == ScanFrom(lines, i + 1 + |g.lines|, after, selected, false)
  {
    hide FormatHeader, ParseHeader, AfterGood, SameButHunk, IsHeaderLine, PrintedAt, GoodHunk, ScanFrom, AllPicked,
         BodyPicked;
    var g := hunks[0];
    var header := EmittedHeader(g, delta);
    CountsAreNonNegative(g, delta);
    HeaderRoundTrip(header);
    FormatHeaderIsALine(header);
    PrintedStep(lines, i, hunks, delta);
    PickedSlice(lines, i, |g.lines|, selected);
    GoodHunkReadAgain(s, g, i, selected);
    ScanHunkAt(lines, i, header, g, s, selected);
  }

  lemma NothingPrinted(lines: seq<string>, i: nat, delta: int, s: Scan, selected: set<int>)
    requires PrintedAt(lines, i, [], delta)
    ensures ReadAgain(ScanFrom(lines, i, s, selected, false), s, [], Emitted([], delta))
  {
    hide Step;
    assert |lines[i..]| == 0;
    assert s.hunks + [] == s.hunks;
  }

  lemma PickedSlice(lines: seq<string>, i: nat, n: nat, selected: set<int>)
    requires i + 1 + n <= |lines| && AllPicked(lines, i, selected)
    ensures BodyPicked(lines[i + 1..i + 1 + n], i + 1, selected)
  {
  }

  lemma {:induction false} ScanPrintedHunks(lines: seq<string>, i: nat, hunks: seq<PatchHunk>, delta: int, s: Scan,
                                            selected: set<int>)
    requires GoodHunks(hunks) && AllChanged(hunks)
    requires PrintedAt(lines, i, hunks, delta) && AllPicked(lines, i, selected)
    ensures ReadAgain(ScanFrom(lines, i, s, selected, false), s, hunks, Emitted(hunks, delta))
    decreases |hunks|
  {
    hide GoodHunk, FormatHeader, ScanFrom, Emitted, AfterGood, SameButHunk, ReadAgain, PrintedAt;
    if hunks == [] {
      NothingPrinted(lines, i, delta, s, selected);
    } else {
      var g := hunks[0];
      assert GoodHunk(g);
      PrintedStep(lines, i, hunks, delta);
      CountsAreNonNegative(g, delta);
      if EmittedHeader(g, delta).newStart < 0 {
        NegativeHeaderStops(lines, i, EmittedHeader(g, delta), s, selected);
        NegativeFirst(ScanFrom(lines, i, s, selected, false), s, hunks, delta);
      } else {
        ScanPrintedHunk(lines, i, hunks, delta, s, selected);
        var after := AfterGood(s, g, i, selected);
        var next := i + 1 + |g.lines|;
        ScanPrintedHunks(lines, next, hunks[1..], delta + g.newCount - g.oldCount, after, selected);
        ReadAgainStep(ScanFrom(lines, next, after, selected, false), s, after, hunks, delta);
      }
    }
  }

  lemma NegativeFirst(r: Result<Scan, PatchError>, s: Scan, hunks: seq<PatchHunk>, delta: int)
    requires hunks != [] && hunks[0].hasChanges && EmittedHeader(hunks[0], delta).newStart < 0 && r.Err?
    ensures ReadAgain(r, s, hunks, Emitted(hunks, delta))
  {
    assert Emitted(hunks, delta)[0].header.newStart < 0;
  }

  lemma CountsAreNonNegative(g: PatchHunk, delta: int)
    requires GoodHunk(g)
    ensures var h := EmittedHeader(g, delta);
            h.oldStart >= 0 && h.oldCount >= 0 && h.newCount >= 0
  {
  }

  lemma RenderHead(hunks: seq<PatchHunk>, delta: int)
    requires hunks != [] && hunks[0].hasChanges
    ensures Render(Emitted(hunks, delta))
         == [FormatHeader(EmittedHeader(hunks[0], delta))] + hunks[0].lines
            + Render(Emitted(hunks[1..], delta + hunks[0].newCount - hunks[0].oldCount))
  {
    hide FormatHeader;
    var emitted := Emitted(hunks, delta);
    assert emitted[1..] == Emitted(hunks[1..], delta + hunks[0].newCount - hunks[0].oldCount);
  }

  // ----- the normal form -----

  /** The hunks that are printed. */
  function Changed(hunks: seq<PatchHunk>): (r: seq<PatchHunk>)
    ensures AllChanged(r)
  {
    if hunks == [] then [] else (if hunks[0].hasChanges then [hunks[0]] else []) + Changed(hunks[1..])
  }

  lemma EmittedOfCons(g: PatchHunk, rest: seq<PatchHunk>, delta: int)
    requires g.hasChanges
    ensures Emitted([g] + rest, delta)
         == [Hunk(EmittedHeader(g, delta), g.lines)] + Emitted(rest, delta + g.newCount - g.oldCount)
  {
    hide EmittedHeader;
    assert ([g] + rest)[1..] == rest;
  }

  lemma {:induction false} EmittedOfChanged(hunks: seq<PatchHunk>, delta: int)
    ensures Emitted(Changed(hunks), delta) == Emitted(hunks, delta)
    decreases |hunks|
  {
    hide EmittedHeader;
    if hunks != [] {
      var g := hunks[0];
      if g.hasChanges {
        EmittedOfChanged(hunks[1..], delta + g.newCount - g.oldCount);
        EmittedOfCons(g, Changed(hunks[1..]), delta);
        assert Changed(hunks) == [g] + Changed(hunks[1..]);
      } else {
        EmittedOfChanged(hunks[1..], delta);
        assert Changed(hunks) == Changed(hunks[1..]);
      }
    }
  }

  lemma {:induction false} ChangedIsGood(hunks: seq<PatchHunk>)
    requires GoodHunks(hunks)
    ensures GoodHunks(Changed(hunks))
  {
    hide GoodHunk;
    if hunks != [] {
      ChangedIsGood(hunks[1..]);
    }
  }

  /** The emitted hunks of a selection. */
  function EmittedFor(diff: string, selected: set<int>, discard: bool): seq<Hunk>
    requires SelectionPatch(diff, selected, discard).Ok?
  {
    Emitted(ScanFrom(Split(diff), 0, START_OF_SCAN, selected, discard).value.hunks, 0)
  }

  lemma RebuildFromScan(s: Scan, discard: bool, all: set<int>)
    requires GoodScan(s) && Emitted(s.hunks, 0) != []
    requires AllPicked(Split(PatchText(s, discard)), NextHeader(Split(PatchText(s, discard)), 0), all)
    ensures SelectionPatch(PatchText(s, discard), all, false) == Ok(PatchText(s, discard))
       <==> StartsNonNegative(Emitted(s.hunks, 0))
  {
    hide GoodHunk, FinalHeader, Step, Join, Split, FormatHeader, IsChange;
    var text, header, lines := PatchText(s, discard), FinalHeader(s, discard), ResultLines(s, discard);
    ResultParts(s, discard);
    EmittedOfChanged(s.hunks, 0);
    ChangedIsGood(s.hunks);
    var changed := Changed(s.hunks);
    var start := START_OF_SCAN.(header := header);
    TrailingLine(lines, 0, START_OF_SCAN, all, false);
    ScanToFirstHeader(lines, all, false);
    assert lines[..|header|] == header;
    HeaderLinesOfHeader(header);
    assert AllPicked(lines, |header|, all) by {
      assert forall k | 0 <= k < |lines| :: Split(text)[k] == lines[k];
    }
    assert lines[|header|..] == Render(Emitted(changed, 0));
    ScanPrintedHunks(lines, |header|, changed, 0, start, all);
    var r := ScanFrom(Split(text), 0, START_OF_SCAN, all, false);
    assert r == ScanFrom(lines, |header|, start, all, false);
    if StartsNonNegative(Emitted(s.hunks, 0)) {
      assert r.value.hunks == changed;
      NothingLeftOut(r.value, header);
    }
  }

  lemma NothingLeftOut(s: Scan, header: seq<string>)
    requires s.header == header && s.totalDeletions == s.selectedDeletions
    ensures FinalHeader(s, false) == header
  {
  }

  /** Building a staging patch from a patch this builder made, with every change of it picked, gives back its
      text exactly when no printed new start is negative: the hunk pattern refuses a sign. */
  lemma PatchTextIsNormalForm(diff: string, selected: set<int>, discard: bool, all: set<int>)
    requires SelectionPatch(diff, selected, discard).Ok? && SelectionPatch(diff, selected, discard).value != ""
    requires var text := SelectionPatch(diff, selected, discard).value;
             AllPicked(Split(text), NextHeader(Split(text), 0), all)
    ensures var text := SelectionPatch(diff, selected, discard).value;
            SelectionPatch(text, all, false) == Ok(text) <==> StartsNonNegative(EmittedFor(diff, selected, discard))
  {
    hide ScanFrom, GoodScan, AllPicked, FinalHeader, Join, StartsNonNegative;
    ScanIsGood(diff, selected, discard);
    RebuildFromScan(ScanFrom(Split(diff), 0, START_OF_SCAN, selected, discard).value, discard, all);
  }

  lemma {:induction false} AppliedStartsAreNonNegative(hunks: seq<Hunk>, file: seq<string>, pos: nat, done: seq<string>)
    requires pos <= |file| && ApplyHunks(hunks, file, pos, done).Some?
    ensures StartsNonNegative(hunks)
    decreases |hunks|
  {
    if hunks != [] {
      FirstStep(hunks, file, pos, done);
      AppliedStartsAreNonNegative(hunks[1..], file, HunkEnd(hunks[0], file, pos, |done|),
                                  AfterHunkFits(hunks[0], file, pos, done));
      assert forall i | 1 <= i < |hunks| :: hunks[i] == hunks[1..][i - 1];
    }
  }

  /** For a diff that is a valid patch the staging patch always is a normal form. */
  lemma StagingPatchOfValidDiffIsNormalForm(diff: string, selected: set<int>, all: set<int>, oldFile: seq<string>)
    requires Apply(diff, oldFile).Some?
    requires SelectionPatch(diff, selected, false).Ok? && SelectionPatch(diff, selected, false).value != ""
    requires var text := SelectionPatch(diff, selected, false).value;
             AllPicked(Split(text), NextHeader(Split(text), 0), all)
    ensures var text := SelectionPatch(diff, selected, false).value;
            SelectionPatch(text, all, false) == Ok(text)
  {
    hide Apply, ScanFrom, Step, HunksOf, PatchText, GoodScan, Gather, Emitted, ApplyHunks, Taking, AllPicked,
         StartsNonNegative;
    ApplicableDiff(diff, oldFile);
    ScanOfValidDiff(diff, selected, false);
    StagedHunksApply(HunksOf(diff), FirstHeader(diff), selected, oldFile, 0, [], 0, []);
    AppliedStartsAreNonNegative(EmittedFor(diff, selected, false), oldFile, 0, []);
    PatchTextIsNormalForm(diff, selected, false, all);
  }

  /** The same for the discarding patch, read again as a patch to stage. */
  lemma DiscardingPatchOfValidDiffIsNormalForm(diff: string, selected: set<int>, all: set<int>, oldFile: seq<string>)
    requires Apply(diff, oldFile).Some?
    requires SelectionPatch(diff, selected, true).Ok? && SelectionPatch(diff, selected, true).value != ""
    requires var text := SelectionPatch(diff, selected, true).value;
             AllPicked(Split(text), NextHeader(Split(text), 0), all)
    ensures var text := SelectionPatch(diff, selected, true).value;
            SelectionPatch(text, all, false) == Ok(text)
  {
    hide Apply, ScanFrom, Step, HunksOf, PatchText, GoodScan, Gather, Emitted, ApplyHunks, Taking, AllPicked,
         StartsNonNegative;
    ApplicableDiff(diff, oldFile);
    var hunks, at := HunksOf(diff), FirstHeader(diff);
    ReverseUndoes(hunks, oldFile, 0, []);
    var newFile := Apply(diff, oldFile).value;
    ScanOfValidDiff(diff, selected, true);
    DiscardIsStageOfReverse(hunks, at, selected);
    assert oldFile[..0] == [];
    StagedHunksApply(Reverse(hunks), at, selected, newFile, 0, [], 0, []);
    AppliedStartsAreNonNegative(EmittedFor(diff, selected, true), newFile, 0, []);
    PatchTextIsNormalForm(diff, selected, true, all);
  }

  // ----- a condition on the diff's own positions -----

  /** The lines of a hunk on the side that a patch is for: the old one when staging, the new one when discarding. */
  function SideCount(h: Hunk, discard: bool): nat {
    if discard then |NewSide(h.body)| else |OldSide(h.body)|
  }

  function SidePosition(h: Hunk, discard: bool): int {
    Position(if discard then h.header.newStart else h.header.oldStart, SideCount(h, discard))
  }

  /** From `pos` on, the hunks stand in order and without overlap, as `git diff` prints them. */
  predicate InOrder(hunks: seq<Hunk>, pos: int, discard: bool) {
    hunks == [] ||
    (pos <= SidePosition(hunks[0], discard)
     && InOrder(hunks[1..], SidePosition(hunks[0], discard) + SideCount(hunks[0], discard), discard))
  }

  predicate GatheredInOrder(hunks: seq<PatchHunk>, pos: int) {
    hunks == [] ||
    (var at := Position(hunks[0].oldStart, hunks[0].oldCount);
     pos <= at && hunks[0].oldCount >= 0 && hunks[0].newCount >= 0
     && GatheredInOrder(hunks[1..], at + hunks[0].oldCount))
  }

  /** Whatever is picked, and whatever lines are between the content, one side of a hunk stays whole. */
  lemma {:induction false} EmittedSideIsWhole(body: seq<string>, at: int, selected: set<int>, discard: bool, kept: bool)
    ensures |OldSide(EmitBody(body, at, selected, discard, kept))|
            == if discard then |NewSide(body)| else |OldSide(body)|
  {
    if body != [] {
      EmittedLineSide(body[0], at in selected, discard, kept);
      EmittedSideIsWhole(body[1..], at + 1, selected, discard, KeptBy(body[0], at in selected, discard, kept));
      hide EmitAny, KeptBy, OldPart, NewPart;
      OldSideOfConcat(EmitAny(body[0], at in selected, discard, kept),
                      EmitBody(body[1..], at + 1, selected, discard, KeptBy(body[0], at in selected, discard, kept)));
    }
  }

  lemma EmittedLineSide(line: string, picked: bool, discard: bool, kept: bool)
    ensures |OldSide(EmitAny(line, picked, discard, kept))| == |if discard then NewPart(line) else OldPart(line)|
  {
    var emitted := EmitAny(line, picked, discard, kept);
    if emitted != [] {
      assert emitted == [emitted[0]];
      SidesOfOne(emitted[0]);
    }
  }

  lemma {:induction false} GatheredKeepsOrder(hunks: seq<Hunk>, at: int, selected: set<int>, discard: bool, pos: int)
    requires InOrder(hunks, pos, discard)
    ensures GatheredInOrder(Gather(hunks, at, selected, discard), pos)
    decreases |hunks|
  {
    hide EmitBody, HasChange, OldSide, NewSide;
    if hunks != [] {
      var h := hunks[0];
      EmittedSideIsWhole(h.body, at + 1, selected, discard, false);
      GatheredKeepsOrder(hunks[1..], at + 1 + |h.body|, selected, discard,
                         SidePosition(h, discard) + SideCount(h, discard));
    }
  }

  /** What is in order is renumbered without going below zero: no hunk deletes more than it stands on. */
  lemma {:induction false} OrderedStartsAreNonNegative(hunks: seq<PatchHunk>, pos: int, delta: int)
    requires GatheredInOrder(hunks, pos) && pos + delta >= 0
    ensures StartsNonNegative(Emitted(hunks, delta))
    decreases |hunks|
  {
    if hunks != [] {
      var g := hunks[0];
      var end := Position(g.oldStart, g.oldCount) + g.oldCount;
      if g.hasChanges {
        OrderedStartsAreNonNegative(hunks[1..], end, delta + g.newCount - g.oldCount);
        var rest := Emitted(hunks[1..], delta + g.newCount - g.oldCount);
        StartsOfCons(Hunk(EmittedHeader(g, delta), g.lines), rest);
      } else {
        OrderedStartsAreNonNegative(hunks[1..], end, delta);
      }
    }
  }

  /** The patch of every diff whose hunks stand in order is a normal form, whatever file it is for. */
  lemma PatchOfOrderedDiffIsNormalForm(diff: string, selected: set<int>, discard: bool, all: set<int>)
    requires EndsWithNewline(diff) && ParseHunks(PatchLines(diff), FirstHeader(diff)).Some?
    requires AllInside(HunksOf(diff)) && InOrder(HunksOf(diff), 0, discard)
    requires SelectionPatch(diff, selected, discard).Ok? && SelectionPatch(diff, selected, discard).value != ""
    requires var text := SelectionPatch(diff, selected, discard).value;
             AllPicked(Split(text), NextHeader(Split(text), 0), all)
    ensures var text := SelectionPatch(diff, selected, discard).value;
            SelectionPatch(text, all, false) == Ok(text)
  {
    hide ScanFrom, Step, HunksOf, PatchText, GoodScan, Gather, Emitted, AllPicked, StartsNonNegative, InOrder,
         GatheredInOrder, ParseHunks;
    ScanOfValidDiff(diff, selected, discard);
    GatheredKeepsOrder(HunksOf(diff), FirstHeader(diff), selected, discard, 0);
    OrderedStartsAreNonNegative(Gather(HunksOf(diff), FirstHeader(diff), selected, discard), 0, 0);
    PatchTextIsNormalForm(diff, selected, discard, all);
  }

  // ----- a diff out of order -----

  /**
   * An artificial text that `git diff` never prints, as no file can match it: one deletion that stands at line zero.
   */
  function NegativeDiff(): string {
    Join([FormatHeader(Header(0, 1, 0, 0)), "-x", ""])
  }

  const NEGATIVE_SCAN := Scan([], [PatchHunk(0, 1, 0, true, ["-x"])], true, 1, 1)

  lemma NegativeDiffLines()
    ensures Split(NegativeDiff()) == [FormatHeader(Header(0, 1, 0, 0)), "-x", ""]
  {
    FormatHeaderIsALine(Header(0, 1, 0, 0));
    hide FormatHeader, Join, Split;
    SplitJoin([FormatHeader(Header(0, 1, 0, 0)), "-x", ""]);
  }

  lemma NegativeDiffScans()
    ensures ScanFrom(Split(NegativeDiff()), 0, START_OF_SCAN, {1}, false) == Ok(NEGATIVE_SCAN)
  {
    hide FormatHeader, ParseHeader, Split, Step, ScanFrom, NegativeDiff;
    var line := FormatHeader(Header(0, 1, 0, 0));
    NegativeDiffLines();
    FormatHeaderIsALine(Header(0, 1, 0, 0));
    HeaderRoundTrip(Header(0, 1, 0, 0));
    var begun := START_OF_SCAN.(hunks := [PatchHunk(0, 0, 0, false, [])]);
    OpensHunk(START_OF_SCAN, 0, line, Header(0, 1, 0, 0), {1});
    assert START_OF_SCAN.hunks + [PatchHunk(0, 0, 0, false, [])] == begun.hunks;
    ExampleDeletion(begun, NEGATIVE_SCAN);
    EmptyLine(NEGATIVE_SCAN, 2, {1}, false);
    ExampleScan([line, "-x", ""], begun, NEGATIVE_SCAN);
  }

  /** Its patch names line -1 and cannot be read again. */
  lemma NegativeStartExample()
    ensures var patch := SelectionPatch(NegativeDiff(), {1}, false);
            patch.Ok? && patch.value != "" && SelectionPatch(patch.value, {1}, false) != patch
  {
    hide NegativeDiff, ScanFrom, GoodScan, PatchText, Emitted, AllPicked, StartsNonNegative, Split, NextHeader;
    NegativeDiffScans();
    ScanIsGood(NegativeDiff(), {1}, false);
    ExamplePatch(NEGATIVE_SCAN);
    RebuildFromScan(NEGATIVE_SCAN, false, {1});
  }

  lemma ExampleDeletion(s: Scan, next: Scan)
    requires s == Scan([], [PatchHunk(0, 0, 0, false, [])], false, 0, 0)
    requires next == Scan([], [PatchHunk(0, 1, 0, true, ["-x"])], true, 1, 1)
    ensures Step(s, 1, "-x", {1}, false) == Ok(next)
  {
    assert InsideHunk("-x") by { assert "-x"[0] == '-'; }
    SidesOfOne("-x");
    StepInside(s, 1, "-x", {1}, false);
    assert EmitAny("-x", true, false, false) == ["-x"];
    assert "-x"[0] == '-' && [] + ["-x"] == ["-x"];
    assert Extend(s.hunks[0], ["-x"]) == next.hunks[0];
    assert ExtendLast(s, ["-x"]).hunks == next.hunks;
  }

  lemma ExampleScan(lines: seq<string>, s1: Scan, s2: Scan)
    requires |lines| == 3
    requires Step(START_OF_SCAN, 0, lines[0], {1}, false) == Ok(s1)
    requires Step(s1, 1, lines[1], {1}, false) == Ok(s2)
    requires Step(s2, 2, lines[2], {1}, false) == Ok(s2)
    ensures ScanFrom(lines, 0, START_OF_SCAN, {1}, false) == Ok(s2)
  {
    hide Step;
    assert ScanFrom(lines, 2, s2, {1}, false) == Ok(s2);
    assert ScanFrom(lines, 1, s1, {1}, false) == Ok(s2);
  }

  lemma ExamplePatch(s: Scan)
    requires s == Scan([], [PatchHunk(0, 1, 0, true, ["-x"])], true, 1, 1) && GoodScan(s)
    ensures Emitted(s.hunks, 0) != [] && !StartsNonNegative(Emitted(s.hunks, 0))
    ensures PatchText(s, false) != ""
    ensures AllPicked(Split(PatchText(s, false)), NextHeader(Split(PatchText(s, false)), 0), {1})
  {
    var emitted := [Hunk(Header(0, 1, -1, 0), ["-x"])];
    assert Emitted(s.hunks, 0) == emitted by { assert s.hunks[1..] == []; }
    assert emitted[0].header.newStart < 0;
    FormatHeaderIsALine(Header(0, 1, -1, 0));
    hide FormatHeader, Join, Split;
    ResultParts(s, false);
    var line := FormatHeader(Header(0, 1, -1, 0));
    assert line[0] == '@';
    assert emitted[1..] == [];
    assert Render(emitted) == [line, "-x"];
    assert FinalHeader(s, false) == [];
    assert Split(PatchText(s, false)) == [line, "-x", ""];
    ResultText(s, false);
  }

  // ----- the header of a deleted file -----

  predicate DeletionsPickedFrom(lines: seq<string>, i: nat, selected: set<int>) {
    forall k | i <= k < |lines| && IsDeletion(lines[k]) :: k in selected
  }

  /** How many deletions were met without being picked. */
  function Unpicked(s: Scan): int {
    s.totalDeletions - s.selectedDeletions
  }

  lemma StepUnpicked(s: Scan, index: int, line: string, selected: set<int>)
    requires s.hunks != [] || IsHeaderLine(line)
    requires Step(s, index, line, selected, false).Ok?
    ensures var next := Step(s, index, line, selected, false).value;
            && next.hunks != [] && next.header == s.header
            && Unpicked(next) == Unpicked(s) + (if IsDeletion(line) && index !in selected then 1 else 0)
  {
    if s.hunks != [] && InsideHunk(line) {
      StepInside(s, index, line, selected, false);
    } else {
      hide ParseHeader;
      assert IsHeaderLine(line) && line[0] == '@';
    }
  }

  lemma {:induction false} ScanUnpicked(lines: seq<string>, i: nat, s: Scan, selected: set<int>)
    requires i <= |lines| && (s.hunks != [] || (i < |lines| ==> IsHeaderLine(lines[i])))
    requires ScanFrom(lines, i, s, selected, false).Ok?
    ensures var r := ScanFrom(lines, i, s, selected, false).value;
            && r.header == s.header
            && Unpicked(r) >= Unpicked(s)
            && (Unpicked(r) == Unpicked(s) <==> DeletionsPickedFrom(lines, i, selected))
    decreases |lines| - i
  {
    hide Step, IsDeletion, IsHeaderLine;
    if i < |lines| {
      StepUnpicked(s, i, lines[i], selected);
      var next := Step(s, i, lines[i], selected, false).value;
      ScanUnpicked(lines, i + 1, next, selected);
      assert DeletionsPickedFrom(lines, i, selected)
        <==> (IsDeletion(lines[i]) ==> i in selected) && DeletionsPickedFrom(lines, i + 1, selected);
    }
  }

  predicate StandsAt(part: string, text: string, i: int) {
    0 <= i <= |text| - |part| && text[i..i + |part|] == part
  }

  lemma {:induction false} ReplacedShows(text: string, from: string, to: string)
    ensures ReplaceFirst(text, from, to) == text || exists i :: StandsAt(to, ReplaceFirst(text, from, to), i)
  {
    var r := ReplaceFirst(text, from, to);
    if from <= text {
      assert StandsAt(to, r, 0);
    } else if text != "" {
      ReplacedShows(text[1..], from, to);
      var rest := ReplaceFirst(text[1..], from, to);
      if rest == text[1..] {
        assert r == text;
      } else {
        var i :| StandsAt(to, rest, i);
        assert r[i + 1..i + 1 + |to|] == rest[i..i + |to|];
        assert StandsAt(to, r, i + 1);
      }
    }
  }

  lemma FirstStands(part: string, text: string, i: int)
    requires part != "" && StandsAt(part, text, i)
    ensures part[0] in text
  {
    assert text[i] == text[i..i + |part|][0];
  }

  /** A path becomes `/dev/null` only when it already was. */
  lemma TargetIsNotNull(path: string)
    requires path != "/dev/null"
    ensures TargetOf(path) != "/dev/null"
  {
    ReplacedShows(path, "a/", "b/");
    if TargetOf(path) == "/dev/null" {
      var i :| StandsAt("b/", TargetOf(path), i);
      FirstStands("b/", TargetOf(path), i);
      assert false;
    }
  }

  const NULL_TARGET := "+++ /dev/null"

  lemma {:induction false} KeptLinesHaveNoNull(header: seq<string>, oldPath: string)
    requires oldPath != "/dev/null"
    ensures NULL_TARGET !in KeptLines(header, oldPath)
  {
    if header != [] {
      KeptLinesHaveNoNull(header[..|header| - 1], oldPath);
      TargetIsNotNull(oldPath);
      var line := NewPathLine(TargetOf(oldPath));
      assert line[4..] == TargetOf(oldPath) && NULL_TARGET[4..] == "/dev/null";
    }
  }

  /** A deleted file's staging patch still deletes the file exactly when every deletion of the diff is picked. */
  lemma DeletedFileStaysDeleted(diff: string, selected: set<int>)
    requires var header := FileHeaderOf(diff);
             && HasDeletedMode(header) && NULL_TARGET in header
             && LastField(header, "--- ", "") != "" && LastField(header, "--- ", "") != "/dev/null"
    requires SelectionPatch(diff, selected, false).Ok? && SelectionPatch(diff, selected, false).value != ""
    ensures NULL_TARGET in FileHeaderOf(SelectionPatch(diff, selected, false).value)
       <==> DeletionsPickedFrom(Split(diff), NextHeader(Split(diff), 0), selected)
  {
    hide Step, FileHeaderOf, LastField, HasDeletedMode, Join, Emitted, DeletionsPickedFrom;
    var lines := Split(diff);
    var first := NextHeader(lines, 0);
    var header := HeaderLines(lines[..first]);
    HeaderOfDiff(diff);
    ScanToFirstHeader(lines, selected, false);
    ScanUnpicked(lines, first, START_OF_SCAN.(header := header), selected);
    var s := ScanFrom(lines, 0, START_OF_SCAN, selected, false).value;
    ScanIsGood(diff, selected, false);
    ResultParts(s, false);
    KeptLinesHaveNoNull(header, LastField(header, "--- ", ""));
  }

  lemma HeaderOfDiff(diff: string)
    ensures FileHeaderOf(diff) == HeaderLines(Split(diff)[..NextHeader(Split(diff), 0)])
  {
  }
}
