/** The patch builder's promises, for whole diff texts. */
module PartialPatchTheorems {
  import opened TextLines
  import opened PatchFormat
  import opened PartialPatch
  import opened PartialPatchScan
  import opened PartialPatchText
  import opened PartialPatchContent

  // ----- scanning a diff text that is a valid patch -----

  function HunksOf(diff: string): seq<Hunk>
    requires ParseHunks(PatchLines(diff), FirstHeader(diff)).Some?
  {
    ParseHunks(PatchLines(diff), FirstHeader(diff)).value
  }

  /** Index of the first hunk header of a diff. */
  function FirstHeader(diff: string): (i: nat)
    ensures i <= |PatchLines(diff)|
  {
    NextHeader(PatchLines(diff), 0)
  }

  /** The empty line after the final newline changes nothing. */
  lemma {:induction false} TrailingLine(lines: seq<string>, i: nat, s: Scan, selected: set<int>, discard: bool)
    requires i <= |lines|
    ensures ScanFrom(lines + [""], i, s, selected, discard) == ScanFrom(lines, i, s, selected, discard)
    decreases |lines| - i
  {
    hide Step;
    if i == |lines| {
      EmptyLine(s, i, selected, discard);
    } else if Step(s, i, lines[i], selected, discard).Ok? {
      TrailingLine(lines, i + 1, Step(s, i, lines[i], selected, discard).value, selected, discard);
    }
  }

  lemma EmptyLine(s: Scan, index: int, selected: set<int>, discard: bool)
    ensures Step(s, index, "", selected, discard) == Ok(s)
  {
  }

  /** The scan state of a diff just before its first hunk. */
  function AtFirstHunk(diff: string): Scan {
    START_OF_SCAN.(header := HeaderLines(PatchLines(diff)[..FirstHeader(diff)]))
  }

  lemma ScanOfPatch(diff: string, selected: set<int>, discard: bool)
    requires EndsWithNewline(diff)
    requires ParseHunks(PatchLines(diff), FirstHeader(diff)).Some? && AllInside(HunksOf(diff))
    ensures ScanFrom(Split(diff), 0, START_OF_SCAN, selected, discard)
         == Ok(AfterHunks(AtFirstHunk(diff), HunksOf(diff), FirstHeader(diff), selected, discard))
  {
    hide Step, AfterHunk, ParseHeader;
    var lines := PatchLines(diff);
    var first := FirstHeader(diff);
    LastLineOfSplit(diff);
    TrailingLine(lines, 0, START_OF_SCAN, selected, discard);
    ScanHeader(lines, 0, first, START_OF_SCAN, selected, discard);
    assert [] + HeaderLines(lines[..first]) == HeaderLines(lines[..first]);
    ScanHunks(lines, first, AtFirstHunk(diff), selected, discard);
  }

  // ----- applying the printed patch -----

  lemma {:induction false} EmittedIsPrintable(hunks: seq<PatchHunk>, delta: int, file: seq<string>, pos: nat,
                                              made: seq<string>)
    requires GoodHunks(hunks)
    requires pos <= |file| && ApplyHunks(Emitted(hunks, delta), file, pos, made).Some?
    ensures AllPrintable(Emitted(hunks, delta))
    decreases |hunks|
  {
    hide HunkBody;
    if hunks != [] {
      var g := hunks[0];
      assert GoodHunk(g);
      if g.hasChanges {
        var emitted := Emitted(hunks, delta);
        var rest := Emitted(hunks[1..], delta + g.newCount - g.oldCount);
        assert emitted[0] == Hunk(EmittedHeader(g, delta), g.lines) && emitted[1..] == rest;
        FirstStep(emitted, file, pos, made);
        GoodHunkIsPrintable(g, delta, file, pos, |made|);
        EmittedIsPrintable(hunks[1..], delta + g.newCount - g.oldCount, file,
                           HunkEnd(emitted[0], file, pos, |made|), AfterHunkFits(emitted[0], file, pos, made));
        assert forall i | 1 <= i < |emitted| :: emitted[i] == rest[i - 1];
      } else {
        EmittedIsPrintable(hunks[1..], delta, file, pos, made);
      }
    }
  }

  lemma GoodHunkIsPrintable(g: PatchHunk, delta: int, file: seq<string>, pos: nat, produced: nat)
    requires GoodHunk(g) && pos <= |file|
    requires HunkFits(Hunk(EmittedHeader(g, delta), g.lines), file, pos, produced)
    ensures Printable(Hunk(EmittedHeader(g, delta), g.lines))
  {
    forall i | 0 <= i < |g.lines|
      ensures NoNewline(g.lines[i]) && !IsHeaderLine(g.lines[i])
    {
      assert BodyLine(g.lines[i]);
    }
  }

  /** Lines of the result, and that splitting its text gives them back. */
  function ResultLines(s: Scan, discard: bool): seq<string> {
    FinalHeader(s, discard) + Render(Emitted(s.hunks, 0))
  }

  lemma {:induction false} EmittedBodies(hunks: seq<PatchHunk>, delta: int)
    requires GoodHunks(hunks)
    ensures BodiesOfLines(Emitted(hunks, delta))
    decreases |hunks|
  {
    if hunks != [] {
      var g := hunks[0];
      assert GoodHunk(g);
      assert forall k | 0 <= k < |g.lines| :: BodyLine(g.lines[k]);
      var next := if g.hasChanges then delta + g.newCount - g.oldCount else delta;
      EmittedBodies(hunks[1..], next);
      var e, rest := Emitted(hunks, delta), Emitted(hunks[1..], next);
      if g.hasChanges {
        assert forall i | 1 <= i < |e| :: e[i] == rest[i - 1];
      }
    }
  }

  lemma ResultText(s: Scan, discard: bool)
    requires GoodScan(s) && Emitted(s.hunks, 0) != []
    ensures var text := PatchText(s, discard);
            && Split(text) == ResultLines(s, discard) + [""]
            && PatchLines(text) == ResultLines(s, discard)
            && EndsWithNewline(text) && ResultLines(s, discard) != []
  {
    hide FormatHeader, Emitted, FinalHeader;
    var lines := ResultLines(s, discard);
    RenderStep(Emitted(s.hunks, 0));
    FinalHeaderIsHeader(s, discard);
    EmittedBodies(s.hunks, 0);
    RenderHasNoNewline(Emitted(s.hunks, 0));
    JoinTrailingNewline(lines);
    assert AllNoNewline(lines + [""]) by {
      assert forall i | 0 <= i < |FinalHeader(s, discard)| :: FileHeaderLine(FinalHeader(s, discard)[i]);
    }
    SplitJoin(lines + [""]);
    assert (lines + [""])[..|lines|] == lines;
  }

  lemma ResultFirstHeader(s: Scan, discard: bool)
    requires GoodScan(s) && Emitted(s.hunks, 0) != []
    ensures NextHeader(ResultLines(s, discard), 0) == |FinalHeader(s, discard)|
  {
    hide FormatHeader, Emitted, FinalHeader;
    RenderStep(Emitted(s.hunks, 0));
    FinalHeaderIsHeader(s, discard);
    assert forall i | 0 <= i < |FinalHeader(s, discard)| :: FileHeaderLine(FinalHeader(s, discard)[i]);
    NextHeaderAt(ResultLines(s, discard), 0, |FinalHeader(s, discard)|);
  }

  /** The callers hand a patch to git only when it is not empty. */
  function ApplyUnlessEmpty(patch: string, file: seq<string>): Option<seq<string>> {
    if patch == "" then Some(file) else Apply(patch, file)
  }

  /** Applying the printed patch is applying its hunks. */
  lemma PrintedPatchApplies(s: Scan, discard: bool, file: seq<string>)
    requires GoodScan(s) && ApplyHunks(Emitted(s.hunks, 0), file, 0, []).Some?
    ensures ApplyUnlessEmpty(PatchText(s, discard), file) == ApplyHunks(Emitted(s.hunks, 0), file, 0, [])
  {
    hide FormatHeader, FinalHeader, HunkFits, GoodHunks, Split, Join;
    var emitted := Emitted(s.hunks, 0);
    if emitted == [] {
      assert [] + file[0..] == file;
    } else {
      EmittedIsPrintable(s.hunks, 0, file, 0, []);
      ResultText(s, discard);
      ResultFirstHeader(s, discard);
      ParseOfRender(FinalHeader(s, discard), emitted);
    }
  }

  // ----- what staging and discarding do -----

  /** The old file with exactly the changes in `taken` made: context kept, `-` lines dropped exactly when
      taken, `+` lines added exactly when taken, in the order of the diff. */
  function Take(diff: string, taken: set<int>, oldFile: seq<string>): seq<string>
    requires Apply(diff, oldFile).Some?
  {
    ApplicableDiff(diff, oldFile);
    Taking(HunksOf(diff), FirstHeader(diff), taken, oldFile, 0, [])
  }

  lemma ApplicableDiff(diff: string, file: seq<string>)
    requires Apply(diff, file).Some?
    ensures EndsWithNewline(diff) && ParseHunks(PatchLines(diff), FirstHeader(diff)).Some?
    ensures ApplyHunks(HunksOf(diff), file, 0, []) == Apply(diff, file)
    ensures Placed(HunksOf(diff), file, 0) && Contents(HunksOf(diff)) && AllInside(HunksOf(diff))
  {
    AppliedIsPlaced(ParseHunks(PatchLines(diff), FirstHeader(diff)).value, file, 0, []);
    ContentsAreInside(HunksOf(diff));
  }

  /** Whatever the diff, the hunks of its scan carry their real counts. */
  lemma ScanIsGood(diff: string, selected: set<int>, discard: bool)
    requires ScanFrom(Split(diff), 0, START_OF_SCAN, selected, discard).Ok?
    ensures GoodScan(ScanFrom(Split(diff), 0, START_OF_SCAN, selected, discard).value)
  {
    hide Step, ScanFrom, GoodHunk;
    SplitHasNoNewline(diff);
    ScanKeepsGood(Split(diff), 0, START_OF_SCAN, selected, discard);
  }

  lemma GatherFromNothing(s: Scan, hunks: seq<Hunk>, at: int, selected: set<int>, discard: bool)
    requires s.hunks == []
    ensures AfterHunks(s, hunks, at, selected, discard).hunks == Gather(hunks, at, selected, discard)
  {
    hide AfterHunks, Gather;
    AfterHunksIsGather(s, hunks, at, selected, discard);
    assert [] + Gather(hunks, at, selected, discard) == Gather(hunks, at, selected, discard);
  }

  /** The hunks the scan of a valid diff ends with. */
  lemma ScanOfValidDiff(diff: string, selected: set<int>, discard: bool)
    requires EndsWithNewline(diff)
    requires ParseHunks(PatchLines(diff), FirstHeader(diff)).Some? && AllInside(HunksOf(diff))
    ensures var scan := ScanFrom(Split(diff), 0, START_OF_SCAN, selected, discard);
            && scan.Ok? && GoodScan(scan.value)
            && scan.value.hunks == Gather(HunksOf(diff), FirstHeader(diff), selected, discard)
            && SelectionPatch(diff, selected, discard) == Ok(PatchText(scan.value, discard))
  {
    hide Step, ScanFrom, AfterHunks, HunksOf, PatchText, GoodScan, Gather;
    ScanOfPatch(diff, selected, discard);
    GatherFromNothing(AtFirstHunk(diff), HunksOf(diff), FirstHeader(diff), selected, discard);
    ScanIsGood(diff, selected, discard);
  }

  /** Staging a selection applies to the old file and makes exactly the selected changes. */
  lemma StagingTakesSelection(diff: string, selected: set<int>, oldFile: seq<string>)
    requires Apply(diff, oldFile).Some?
    ensures var r := SelectionPatch(diff, selected, false);
            r.Ok? && ApplyUnlessEmpty(r.value, oldFile) == Some(Take(diff, selected, oldFile))
  {
    hide Apply, Step, HunksOf, PatchText, GoodScan, Gather, Emitted, ApplyHunks, Taking;
    ApplicableDiff(diff, oldFile);
    ScanOfValidDiff(diff, selected, false);
    StagedHunksApply(HunksOf(diff), FirstHeader(diff), selected, oldFile, 0, [], 0, []);
    assert [] + oldFile[0..0] == [];
    PrintedPatchApplies(ScanFrom(Split(diff), 0, START_OF_SCAN, selected, false).value, false, oldFile);
  }

  lemma {:induction false} ParsedExtent(lines: seq<string>, i: nat)
    requires i <= |lines| && ParseHunks(lines, i).Some?
    ensures i + Extent(ParseHunks(lines, i).value) == |lines|
    decreases |lines| - i
  {
    hide ParseHeader;
    if i < |lines| {
      var hunks := ParseHunks(lines, i).value;
      var next := NextHeader(lines, i + 1);
      assert hunks[0].body == lines[i + 1..next] && hunks[1..] == ParseHunks(lines, next).value;
      ParsedExtent(lines, next);
    }
  }

  /** Discarding a selection applies to the new file and leaves exactly the changes that were not selected. */
  lemma DiscardingLeavesTheRest(diff: string, selected: set<int>, rest: set<int>, oldFile: seq<string>)
    requires Apply(diff, oldFile).Some?
    requires Opposite(selected, rest, |PatchLines(diff)|)
    ensures var r := SelectionPatch(diff, selected, true);
            r.Ok? && ApplyUnlessEmpty(r.value, Apply(diff, oldFile).value) == Some(Take(diff, rest, oldFile))
  {
    hide Apply, Step, PatchText, GoodScan, Gather, Emitted, ApplyHunks, Taking, Opposite;
    ApplicableDiff(diff, oldFile);
    var hunks, at := HunksOf(diff), FirstHeader(diff);
    var newFile := Apply(diff, oldFile).value;
    ScanOfValidDiff(diff, selected, true);
    DiscardIsStageOfReverse(hunks, at, selected);
    ReverseUndoes(hunks, oldFile, 0, []);
    assert oldFile[..0] == [];
    StagedHunksApply(Reverse(hunks), at, selected, newFile, 0, [], 0, []);
    assert [] + newFile[0..0] == [];
    ParsedExtent(PatchLines(diff), at);
    TakingReversed(hunks, at, selected, rest, |PatchLines(diff)|, oldFile, 0, [], []);
    PrintedPatchApplies(ScanFrom(Split(diff), 0, START_OF_SCAN, selected, true).value, true, newFile);
  }

  /** Staging a selection on the old file and discarding the other changes from the new file give the same file. */
  lemma StageAndDiscardAreComplementary(diff: string, selected: set<int>, rest: set<int>, oldFile: seq<string>)
    requires Apply(diff, oldFile).Some?
    requires Opposite(selected, rest, |PatchLines(diff)|)
    ensures var staged, discarded := SelectionPatch(diff, selected, false), SelectionPatch(diff, rest, true);
            staged.Ok? && discarded.Ok?
            && ApplyUnlessEmpty(staged.value, oldFile).Some?
            && ApplyUnlessEmpty(staged.value, oldFile) == ApplyUnlessEmpty(discarded.value, Apply(diff, oldFile).value)
  {
    StagingTakesSelection(diff, selected, oldFile);
    DiscardingLeavesTheRest(diff, rest, selected, oldFile);
  }

  /** Selecting everything gives the new file, and selecting nothing the old one. */
  lemma ExtremeSelections(diff: string, taken: set<int>, oldFile: seq<string>)
    requires Apply(diff, oldFile).Some?
    ensures (forall i | 0 <= i < |PatchLines(diff)| :: i in taken)
            ==> Take(diff, taken, oldFile) == Apply(diff, oldFile).value
    ensures (forall i | 0 <= i < |PatchLines(diff)| :: i !in taken) ==> Take(diff, taken, oldFile) == oldFile
  {
    hide Apply, ApplyHunks, Taking;
    ApplicableDiff(diff, oldFile);
    var hunks, at := HunksOf(diff), FirstHeader(diff);
    ParsedExtent(PatchLines(diff), at);
    TakingExtremes(hunks, at, taken, oldFile, 0, []);
    assert oldFile[..0] == [];
  }
}
