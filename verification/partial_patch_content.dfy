/** What the staging and discarding patches do to a file, hunk by hunk. */
module PartialPatchContent {
  import opened TextLines
  import opened PatchFormat
  import opened PartialPatch
  import opened PartialPatchScan

  // ----- the file a selection asks for -----

  /** The content of a hunk when exactly the changes with an index in `taken` are made. */
  function Chosen(body: seq<string>, at: int, taken: set<int>): seq<string> {
    if body == [] then [] else
    var line := body[0];
    var present := line != ""
                   && (line[0] == ' ' || (line[0] == '-' && at !in taken) || (line[0] == '+' && at in taken));
    (if present then [line[1..]] else []) + Chosen(body[1..], at + 1, taken)
  }

  function StartOf(h: Hunk): int {
    Position(h.header.oldStart, h.header.oldCount)
  }

  /** The hunks lie in the file, in order and without overlap, from `pos` on. */
  predicate Placed(hunks: seq<Hunk>, file: seq<string>, pos: nat)
    requires pos <= |file|
    decreases |hunks|
  {
    hunks == [] ||
    (pos <= StartOf(hunks[0]) && hunks[0].header.oldCount >= 0
     && StartOf(hunks[0]) + hunks[0].header.oldCount <= |file|
     && Placed(hunks[1..], file, StartOf(hunks[0]) + hunks[0].header.oldCount))
  }

  /** The file with exactly the changes in `taken` made, when `file[..pos]` already became `made`;
      `at` is the index of the first hunk's header in the diff. */
  function Taking(hunks: seq<Hunk>, at: int, taken: set<int>, file: seq<string>, pos: nat,
                  made: seq<string>): seq<string>
    requires pos <= |file| && Placed(hunks, file, pos)
    decreases |hunks|
  {
    if hunks == [] then made + file[pos..]
    else
      var h := hunks[0];
      Taking(hunks[1..], at + 1 + |h.body|, taken, file, StartOf(h) + h.header.oldCount,
             made + file[pos..StartOf(h)] + Chosen(h.body, at + 1, taken))
  }

  lemma {:induction false} AppliedIsPlaced(hunks: seq<Hunk>, file: seq<string>, pos: nat, done: seq<string>)
    requires pos <= |file| && ApplyHunks(hunks, file, pos, done).Some?
    ensures Placed(hunks, file, pos) && Contents(hunks)
    decreases |hunks|
  {
    if hunks != [] {
      var h := hunks[0];
      AppliedIsPlaced(hunks[1..], file, StartOf(h) + h.header.oldCount, done + file[pos..StartOf(h)] + NewSide(h.body));
      assert forall i | 1 <= i < |hunks| :: hunks[i] == hunks[1..][i - 1];
    }
  }

  function HunkEnd(h: Hunk, file: seq<string>, pos: nat, produced: nat): (end: nat)
    requires pos <= |file| && HunkFits(h, file, pos, produced)
    ensures pos <= StartOf(h) <= end <= |file| && end == StartOf(h) + h.header.oldCount
  {
    StartOf(h) + h.header.oldCount
  }

  /** What was written once the hunk is applied. */
  function AfterHunkFits(h: Hunk, file: seq<string>, pos: nat, done: seq<string>): seq<string>
    requires pos <= |file| && HunkFits(h, file, pos, |done|)
  {
    done + file[pos..StartOf(h)] + NewSide(h.body)
  }

  lemma HunkOldSide(h: Hunk, file: seq<string>, pos: nat, produced: nat)
    requires pos <= |file| && HunkFits(h, file, pos, produced)
    ensures OldSide(h.body) == file[StartOf(h)..HunkEnd(h, file, pos, produced)] && AllContent(h.body)
  {
  }

  /** The first step of applying a non-empty patch that applies. */
  lemma FirstStep(hunks: seq<Hunk>, file: seq<string>, pos: nat, done: seq<string>)
    requires pos <= |file| && hunks != [] && ApplyHunks(hunks, file, pos, done).Some?
    ensures HunkFits(hunks[0], file, pos, |done|)
    ensures var end := HunkEnd(hunks[0], file, pos, |done|);
            ApplyHunks(hunks, file, pos, done)
            == ApplyHunks(hunks[1..], file, end, AfterHunkFits(hunks[0], file, pos, done))
  {
  }

  lemma TakingStep(hunks: seq<Hunk>, at: int, taken: set<int>, file: seq<string>, pos: nat, made: seq<string>)
    requires pos <= |file| && hunks != [] && Placed(hunks, file, pos)
    ensures var h := hunks[0];
            && pos <= StartOf(h) && 0 <= StartOf(h) + h.header.oldCount <= |file| && h.header.oldCount >= 0
            && Placed(hunks[1..], file, StartOf(h) + h.header.oldCount)
            && Taking(hunks, at, taken, file, pos, made)
               == Taking(hunks[1..], at + 1 + |h.body|, taken, file, StartOf(h) + h.header.oldCount,
                         made + file[pos..StartOf(h)] + Chosen(h.body, at + 1, taken))
  {
  }

  // ----- the two sides of an emitted body -----

  lemma {:induction false} StagedSides(body: seq<string>, at: int, selected: set<int>, kept: bool)
    requires AllContent(body)
    ensures var e := EmitBody(body, at, selected, false, kept);
            AllContent(e) && OldSide(e) == OldSide(body) && NewSide(e) == Chosen(body, at, selected)
  {
    if body != [] {
      assert IsContent(body[0]) && AllContent(body[1..]);
      StagedLine(body, at, selected);
      hide EmitLine, NewPart, OldPart, IsContent, Chosen;
      var emitted := EmitLine(body[0], at in selected, false);
      StagedSides(body[1..], at + 1, selected, emitted != []);
      var rest := EmitBody(body[1..], at + 1, selected, false, emitted != []);
      SidesOfConcat(emitted, rest);
      ContentOfConcat(emitted, rest);
      assert EmitBody(body, at, selected, false, kept) == emitted + rest;
      hide EmitBody;
    }
  }

  /** What the first line of a body contributes when it is staged. */
  lemma StagedLine(body: seq<string>, at: int, selected: set<int>)
    requires body != [] && IsContent(body[0])
    ensures var emitted := EmitLine(body[0], at in selected, false);
            && AllContent(emitted) && OldSide(emitted) == OldPart(body[0])
            && Chosen(body, at, selected) == NewSide(emitted) + Chosen(body[1..], at + 1, selected)
  {
    var emitted := EmitLine(body[0], at in selected, false);
    if emitted != [] {
      SidesOfOne(emitted[0]);
      assert emitted == [emitted[0]];
    }
  }

  lemma ContentOfConcat(a: seq<string>, b: seq<string>)
    requires AllContent(a) && AllContent(b)
    ensures AllContent(a + b)
  {
    hide IsContent;
  }

  /** A body without a change has equal sides. */
  lemma {:induction false} UnchangedSides(body: seq<string>)
    requires AllContent(body) && !HasChange(body)
    ensures OldSide(body) == NewSide(body)
  {
    if body != [] {
      assert IsContent(body[0]);
      assert forall i | 0 <= i < |body[1..]| :: body[1..][i] == body[i + 1];
      UnchangedSides(body[1..]);
    }
  }

  // ----- staging -----

  lemma StagedHunk(h: Hunk, at: int, selected: set<int>, file: seq<string>, pos: nat, produced: nat)
    requires pos <= |file| && HunkFits(h, file, pos, produced)
    ensures var g := GatherOne(h, at, selected, false);
            && g.oldStart == h.header.oldStart && g.oldCount == h.header.oldCount
            && AllContent(g.lines) && OldSide(g.lines) == OldSide(h.body)
            && NewSide(g.lines) == Chosen(h.body, at + 1, selected)
            && g.newCount == |Chosen(h.body, at + 1, selected)|
            && (!g.hasChanges ==> Chosen(h.body, at + 1, selected) == OldSide(h.body))
  {
    StagedSides(h.body, at + 1, selected, false);
    var e := EmitBody(h.body, at + 1, selected, false, false);
    assert [] + e == e;
    if !HasChange(e) {
      UnchangedSides(e);
    }
  }

  /** An emitted hunk fits wherever the diff's own hunk fits, even when hunks before it were skipped. */
  lemma EmittedHunkFits(h: Hunk, at: int, selected: set<int>, file: seq<string>, pos: nat, produced: nat, from: nat,
                        made: nat)
    requires from <= pos <= |file| && HunkFits(h, file, pos, produced)
    ensures var g := GatherOne(h, at, selected, false);
            HunkFits(Hunk(EmittedHeader(g, made - from), g.lines), file, from, made)
  {
    StagedHunk(h, at, selected, file, pos, produced);
    hide GatherOne;
  }

  lemma ApplyEmitted(gathered: seq<PatchHunk>, file: seq<string>, from: nat, made: seq<string>)
    requires from <= |file| && gathered != [] && gathered[0].hasChanges
    requires var g := gathered[0]; HunkFits(Hunk(EmittedHeader(g, |made| - from), g.lines), file, from, |made|)
    ensures var g := gathered[0];
            var start := Position(g.oldStart, g.oldCount);
            var made' := made + file[from..start] + NewSide(g.lines);
            && ApplyHunks(Emitted(gathered, |made| - from), file, from, made)
               == ApplyHunks(Emitted(gathered[1..], |made'| - (start + g.oldCount)), file, start + g.oldCount, made')
  {
    var g := gathered[0];
    var emitted := Emitted(gathered, |made| - from);
    assert emitted[1..] == Emitted(gathered[1..], |made| - from + g.newCount - g.oldCount);
  }

  lemma SkipEmitted(gathered: seq<PatchHunk>, delta: int)
    requires gathered != [] && !gathered[0].hasChanges
    ensures Emitted(gathered, delta) == Emitted(gathered[1..], delta)
  {
  }

  lemma GatherStep(hunks: seq<Hunk>, at: int, selected: set<int>, discard: bool)
    requires hunks != []
    ensures var gathered := Gather(hunks, at, selected, discard);
            && gathered[0] == GatherOne(hunks[0], at, selected, discard)
            && gathered[1..] == Gather(hunks[1..], at + 1 + |hunks[0].body|, selected, discard)
  {
  }

  /** What is written after the first hunk, when the selection's changes are made in it. */
  function MadeAfter(h: Hunk, at: int, selected: set<int>, file: seq<string>, from: nat, made: seq<string>): seq<string>
    requires from <= StartOf(h) <= |file|
  {
    made + file[from..StartOf(h)] + Chosen(h.body, at + 1, selected)
  }

  /** The selection's file, one hunk on. */
  lemma TakingNext(hunks: seq<Hunk>, at: int, selected: set<int>, file: seq<string>,
                   pos: nat, done: seq<string>, from: nat, made: seq<string>)
    requires from <= pos <= |file| && hunks != [] && ApplyHunks(hunks, file, pos, done).Some?
    ensures Placed(hunks, file, pos) && HunkFits(hunks[0], file, pos, |done|)
    ensures var h := hunks[0];
            var end := HunkEnd(h, file, pos, |done|);
            && Placed(hunks[1..], file, end)
            && Taking(hunks, at, selected, file, pos, made + file[from..pos])
               == Taking(hunks[1..], at + 1 + |h.body|, selected, file, end,
                         MadeAfter(h, at, selected, file, from, made))
  {
    hide ApplyHunks, Placed, Taking, HunkFits, Chosen, Contents;
    AppliedIsPlaced(hunks, file, pos, done);
    FirstStep(hunks, file, pos, done);
    TakingStep(hunks, at, selected, file, pos, made + file[from..pos]);
    var h := hunks[0];
    assert made + file[from..pos] + file[pos..StartOf(h)] == made + file[from..StartOf(h)];
  }

  /** The emitted patch, one hunk on, when the hunk holds a picked change. */
  lemma EmittedNext(hunks: seq<Hunk>, at: int, selected: set<int>, file: seq<string>,
                    pos: nat, done: seq<string>, from: nat, made: seq<string>)
    requires from <= pos <= |file| && hunks != [] && HunkFits(hunks[0], file, pos, |done|)
    requires GatherOne(hunks[0], at, selected, false).hasChanges
    ensures var h := hunks[0];
            var end := HunkEnd(h, file, pos, |done|);
            var made' := MadeAfter(h, at, selected, file, from, made);
            ApplyHunks(Emitted(Gather(hunks, at, selected, false), |made| - from), file, from, made)
            == ApplyHunks(Emitted(Gather(hunks[1..], at + 1 + |h.body|, selected, false), |made'| - end), file, end,
                          made')
  {
    hide ApplyHunks, Gather, GatherOne, Emitted, HunkFits, Chosen;
    var h := hunks[0];
    GatherStep(hunks, at, selected, false);
    StagedHunk(h, at, selected, file, pos, |done|);
    EmittedHunkFits(h, at, selected, file, pos, |done|, from, |made|);
    ApplyEmitted(Gather(hunks, at, selected, false), file, from, made);
  }

  /** Applying the staged hunks from `from`, with `made` written, gives the selection's file.
      The diff itself stands at `pos`: the gap is hunks that were skipped. */
  ghost predicate StagedFrom(hunks: seq<Hunk>, at: int, selected: set<int>, file: seq<string>, pos: nat, from: nat,
                             made: seq<string>)
    requires from <= pos <= |file|
  {
    && Placed(hunks, file, pos)
    && ApplyHunks(Emitted(Gather(hunks, at, selected, false), |made| - from), file, from, made)
       == Some(Taking(hunks, at, selected, file, pos, made + file[from..pos]))
  }

  lemma StagedFromNothing(at: int, selected: set<int>, file: seq<string>, pos: nat, from: nat, made: seq<string>)
    requires from <= pos <= |file|
    ensures StagedFrom([], at, selected, file, pos, from, made)
  {
    Gap(made, file, from, pos);
  }

  /** A hunk with a picked change is emitted. */
  lemma StagedFromPicked(hunks: seq<Hunk>, at: int, selected: set<int>, file: seq<string>,
                         pos: nat, done: seq<string>, from: nat, made: seq<string>)
    requires from <= pos <= |file| && hunks != [] && ApplyHunks(hunks, file, pos, done).Some?
    requires HunkFits(hunks[0], file, pos, |done|) && GatherOne(hunks[0], at, selected, false).hasChanges
    requires var end := HunkEnd(hunks[0], file, pos, |done|);
             StagedFrom(hunks[1..], at + 1 + |hunks[0].body|, selected, file, end, end,
                        MadeAfter(hunks[0], at, selected, file, from, made))
    ensures StagedFrom(hunks, at, selected, file, pos, from, made)
  {
    hide ApplyHunks, Placed, Taking, Gather, GatherOne, Emitted, HunkFits, MadeAfter;
    TakingNext(hunks, at, selected, file, pos, done, from, made);
    EmittedNext(hunks, at, selected, file, pos, done, from, made);
    var end := HunkEnd(hunks[0], file, pos, |done|);
    Gap(MadeAfter(hunks[0], at, selected, file, from, made), file, end, end);
  }

  /** A hunk without one is skipped. */
  lemma StagedFromSkipped(hunks: seq<Hunk>, at: int, selected: set<int>, file: seq<string>,
                          pos: nat, done: seq<string>, from: nat, made: seq<string>)
    requires from <= pos <= |file| && hunks != [] && ApplyHunks(hunks, file, pos, done).Some?
    requires HunkFits(hunks[0], file, pos, |done|) && !GatherOne(hunks[0], at, selected, false).hasChanges
    requires StagedFrom(hunks[1..], at + 1 + |hunks[0].body|, selected, file, HunkEnd(hunks[0], file, pos, |done|),
                        from, made)
    ensures StagedFrom(hunks, at, selected, file, pos, from, made)
  {
    hide ApplyHunks, Placed, Taking, Gather, GatherOne, Emitted, HunkFits, MadeAfter;
    TakingNext(hunks, at, selected, file, pos, done, from, made);
    GatherStep(hunks, at, selected, false);
    SkipEmitted(Gather(hunks, at, selected, false), |made| - from);
    SkippedMade(hunks[0], at, selected, file, pos, |done|, from, made);
  }

  lemma {:induction false} StagedHunksApply(hunks: seq<Hunk>, at: int, selected: set<int>, file: seq<string>,
                                            pos: nat, done: seq<string>, from: nat, made: seq<string>)
    requires from <= pos <= |file| && ApplyHunks(hunks, file, pos, done).Some?
    ensures StagedFrom(hunks, at, selected, file, pos, from, made)
    decreases |hunks|
  {
    hide ApplyHunks, StagedFrom, GatherOne, HunkFits, AfterHunkFits, MadeAfter;
    if hunks == [] {
      StagedFromNothing(at, selected, file, pos, from, made);
    } else {
      FirstStep(hunks, file, pos, done);
      var end := HunkEnd(hunks[0], file, pos, |done|);
      var done' := AfterHunkFits(hunks[0], file, pos, done);
      var next := at + 1 + |hunks[0].body|;
      if GatherOne(hunks[0], at, selected, false).hasChanges {
        StagedHunksApply(hunks[1..], next, selected, file, end, done', end,
                         MadeAfter(hunks[0], at, selected, file, from, made));
        StagedFromPicked(hunks, at, selected, file, pos, done, from, made);
      } else {
        StagedHunksApply(hunks[1..], next, selected, file, end, done', from, made);
        StagedFromSkipped(hunks, at, selected, file, pos, done, from, made);
      }
    }
  }

  lemma Gap(made: seq<string>, file: seq<string>, from: nat, pos: nat)
    requires from <= pos <= |file|
    ensures made + file[from..pos] + file[pos..] == made + file[from..]
    ensures from == pos ==> made + file[from..pos] == made
  {
  }

  lemma SkippedMade(h: Hunk, at: int, selected: set<int>, file: seq<string>, pos: nat, produced: nat, from: nat,
                    made: seq<string>)
    requires from <= pos <= |file| && HunkFits(h, file, pos, produced)
    requires !GatherOne(h, at, selected, false).hasChanges
    ensures MadeAfter(h, at, selected, file, from, made) == made + file[from..HunkEnd(h, file, pos, produced)]
  {
    StagedHunk(h, at, selected, file, pos, produced);
    HunkOldSide(h, file, pos, produced);
    hide GatherOne, HunkFits, Chosen;
  }

  // ----- discarding is staging on the reversed diff -----

  lemma {:induction false} DiscardedBody(body: seq<string>, at: int, selected: set<int>, kept: bool)
    requires AllContent(body)
    ensures AllContent(ReverseBody(body))
    ensures EmitBody(body, at, selected, true, kept) == EmitBody(ReverseBody(body), at, selected, false, kept)
  {
    ReverseBodySides(body);
    if body != [] {
      assert IsContent(body[0]);
      var emitted := EmitLine(body[0], at in selected, true);
      assert emitted == EmitLine(ReverseLine(body[0]), at in selected, false);
      DiscardedBody(body[1..], at + 1, selected, emitted != []);
      assert ReverseBody(body)[1..] == ReverseBody(body[1..]);
    }
  }

  lemma GatheredReversed(h: Hunk, at: int, selected: set<int>)
    requires AllContent(h.body)
    ensures GatherOne(h, at, selected, true) == GatherOne(ReverseHunk(h), at, selected, false)
    ensures |ReverseHunk(h).body| == |h.body|
  {
    hide EmitBody, ReverseBody;
    DiscardedBody(h.body, at + 1, selected, false);
  }

  lemma ReverseCons(hunks: seq<Hunk>)
    requires hunks != []
    ensures Reverse(hunks) != [] && Reverse(hunks)[0] == ReverseHunk(hunks[0])
            && Reverse(hunks)[1..] == Reverse(hunks[1..])
  {
    hide ReverseHunk;
  }

  /** The discarding patch of a diff is the staging patch of the reversed diff, for the same selection. */
  lemma {:induction false} DiscardIsStageOfReverse(hunks: seq<Hunk>, at: int, selected: set<int>)
    requires Contents(hunks)
    ensures Gather(hunks, at, selected, true) == Gather(Reverse(hunks), at, selected, false)
  {
    if hunks != [] {
      hide GatherOne, Reverse, ReverseHunk;
      GatheredReversed(hunks[0], at, selected);
      ReverseCons(hunks);
      DiscardIsStageOfReverse(hunks[1..], at + 1 + |hunks[0].body|, selected);
    }
  }

  /** Of the diff lines below `n`, each is in exactly one of the two selections. */
  predicate Opposite(one: set<int>, other: set<int>, n: int) {
    forall i | 0 <= i < n :: i in one <==> i !in other
  }

  /** How many diff lines the hunks cover. */
  function Extent(hunks: seq<Hunk>): nat {
    if hunks == [] then 0 else 1 + |hunks[0].body| + Extent(hunks[1..])
  }

  lemma {:induction false} ChosenReversed(body: seq<string>, at: nat, selected: set<int>, rest: set<int>, n: int)
    requires AllContent(body) && Opposite(selected, rest, n) && at + |body| <= n
    ensures Chosen(ReverseBody(body), at, selected) == Chosen(body, at, rest)
  {
    if body != [] {
      assert IsContent(body[0]);
      ChosenReversed(body[1..], at + 1, selected, rest, n);
      assert ReverseBody(body)[1..] == ReverseBody(body[1..]);
      assert ReverseLine(body[0])[1..] == body[0][1..];
    }
  }

  /** Unmaking the selected changes of the new file is making the others in the old file. */
  lemma {:induction false} TakingReversed(hunks: seq<Hunk>, at: nat, selected: set<int>, rest: set<int>, n: int,
                                          file: seq<string>, pos: nat, done: seq<string>, made: seq<string>)
    requires pos <= |file| && ApplyHunks(hunks, file, pos, done).Some?
    requires Opposite(selected, rest, n) && at + Extent(hunks) <= n
    ensures Placed(hunks, file, pos)
    ensures var result := ApplyHunks(hunks, file, pos, done).value;
            && |done| <= |result| && Placed(Reverse(hunks), result, |done|)
            && Taking(Reverse(hunks), at, selected, result, |done|, made) == Taking(hunks, at, rest, file, pos, made)
    decreases |hunks|
  {
    hide ApplyHunks, Placed, Taking, HunkFits, Chosen, AllContent, Contents, Reverse, ReverseHunk, Opposite, StartOf,
         Position;
    AppliedIsPlaced(hunks, file, pos, done);
    ApplyKeepsDone(hunks, file, pos, done);
    var result := ApplyHunks(hunks, file, pos, done).value;
    if hunks == [] {
      NothingReversed(at, selected, rest, file, pos, done, made);
    } else {
      var h := hunks[0];
      FirstStep(hunks, file, pos, done);
      HunkOldSide(h, file, pos, |done|);
      var end, done' := HunkEnd(h, file, pos, |done|), AfterHunkFits(h, file, pos, done);
      ApplyKeepsDone(hunks[1..], file, end, done');
      FitsBack(h, file, pos, done, result);
      ChosenReversed(h.body, at + 1, selected, rest, n);
      var made' := made + file[pos..StartOf(h)] + Chosen(h.body, at + 1, rest);
      TakingReversed(hunks[1..], at + 1 + |h.body|, selected, rest, n, file, end, done', made');
      ReverseCons(hunks);
      PlacedCons(Reverse(hunks), result, |done|, pos);
      TakingStep(hunks, at, rest, file, pos, made);
      TakingBothSteps(hunks, at, selected, rest, file, pos, result, |done|, made);
    }
  }

  lemma NothingReversed(at: nat, selected: set<int>, rest: set<int>, file: seq<string>, pos: nat, done: seq<string>,
                        made: seq<string>)
    requires pos <= |file|
    ensures ApplyHunks([], file, pos, done).Some? && Placed([], file, pos)
    ensures var result := ApplyHunks([], file, pos, done).value;
            && |done| <= |result| && Placed(Reverse([]), result, |done|)
            && Taking(Reverse([]), at, selected, result, |done|, made) == Taking([], at, rest, file, pos, made)
  {
    var result := ApplyHunks([], file, pos, done).value;
    assert result[|done|..] == file[pos..];
  }

  /** The reversed hunk fits the new file, behind the same lines. */
  lemma FitsBack(h: Hunk, file: seq<string>, pos: nat, done: seq<string>, result: seq<string>)
    requires pos <= |file| && HunkFits(h, file, pos, |done|)
    requires AfterHunkFits(h, file, pos, done) <= result
    ensures |done| <= StartOf(ReverseHunk(h)) <= |result| && HunkFits(ReverseHunk(h), result, |done|, pos)
    ensures result[|done|..StartOf(ReverseHunk(h))] == file[pos..StartOf(h)]
    ensures HunkEnd(ReverseHunk(h), result, |done|, pos) == |AfterHunkFits(h, file, pos, done)|
    ensures ReverseHunk(h).body == ReverseBody(h.body) && |ReverseHunk(h).body| == |h.body|
  {
    ReverseHunkFits(h, file, pos, done, result);
    SameGap(h, file, pos, done, result);
  }

  /** One hunk on, in the old file and in the new one. */
  lemma TakingBothSteps(hunks: seq<Hunk>, at: int, selected: set<int>, rest: set<int>, file: seq<string>, pos: nat,
                        result: seq<string>, produced: nat, made: seq<string>)
    requires pos <= |file| && produced <= |result| && hunks != []
    requires Placed(hunks, file, pos) && Placed(Reverse(hunks), result, produced)
    requires var h, r := hunks[0], ReverseHunk(hunks[0]);
             && pos <= StartOf(h) <= |file| && produced <= StartOf(r) <= |result|
             && result[produced..StartOf(r)] == file[pos..StartOf(h)]
             && Chosen(r.body, at + 1, selected) == Chosen(h.body, at + 1, rest)
             && 0 <= StartOf(h) + h.header.oldCount <= |file| && 0 <= StartOf(r) + r.header.oldCount <= |result|
             && Placed(hunks[1..], file, StartOf(h) + h.header.oldCount)
             && Placed(Reverse(hunks[1..]), result, StartOf(r) + r.header.oldCount)
    requires var h, r := hunks[0], ReverseHunk(hunks[0]);
             var made' := made + file[pos..StartOf(h)] + Chosen(h.body, at + 1, rest);
             Taking(Reverse(hunks[1..]), at + 1 + |h.body|, selected, result, StartOf(r) + r.header.oldCount, made')
             == Taking(hunks[1..], at + 1 + |h.body|, rest, file, StartOf(h) + h.header.oldCount, made')
    ensures Taking(Reverse(hunks), at, selected, result, produced, made) == Taking(hunks, at, rest, file, pos, made)
  {
    hide Placed, Taking, Chosen, Reverse, StartOf;
    ReverseCons(hunks);
    TakingStep(Reverse(hunks), at, selected, result, produced, made);
    TakingStep(hunks, at, rest, file, pos, made);
  }

  /** The lines between two hunks are the same in both files. */
  lemma SameGap(h: Hunk, file: seq<string>, pos: nat, done: seq<string>, result: seq<string>)
    requires pos <= |file| && HunkFits(h, file, pos, |done|)
    requires AfterHunkFits(h, file, pos, done) <= result
    ensures |done| <= StartOf(ReverseHunk(h)) <= |result|
    ensures result[|done|..StartOf(ReverseHunk(h))] == file[pos..StartOf(h)]
  {
    var done' := AfterHunkFits(h, file, pos, done);
    assert result[..|done'|] == done';
    assert result[|done|..StartOf(ReverseHunk(h))] == done'[|done|..StartOf(ReverseHunk(h))];
  }

  lemma PlacedCons(hunks: seq<Hunk>, file: seq<string>, pos: nat, produced: nat)
    requires pos <= |file| && hunks != [] && HunkFits(hunks[0], file, pos, produced)
    requires Placed(hunks[1..], file, HunkEnd(hunks[0], file, pos, produced))
    ensures Placed(hunks, file, pos)
  {
  }

  // ----- the extreme selections -----

  lemma {:induction false} ChosenExtremes(body: seq<string>, at: int, taken: set<int>)
    requires AllContent(body)
    ensures (forall i | at <= i < at + |body| :: i in taken) ==> Chosen(body, at, taken) == NewSide(body)
    ensures (forall i | at <= i < at + |body| :: i !in taken) ==> Chosen(body, at, taken) == OldSide(body)
  {
    if body != [] {
      assert IsContent(body[0]);
      ChosenExtremes(body[1..], at + 1, taken);
    }
  }

  lemma {:induction false} TakingAll(hunks: seq<Hunk>, at: int, taken: set<int>, file: seq<string>, pos: nat,
                                     done: seq<string>)
    requires pos <= |file| && ApplyHunks(hunks, file, pos, done).Some?
    requires forall i | at <= i < at + Extent(hunks) :: i in taken
    ensures Placed(hunks, file, pos)
    ensures Some(Taking(hunks, at, taken, file, pos, done)) == ApplyHunks(hunks, file, pos, done)
    decreases |hunks|
  {
    AppliedIsPlaced(hunks, file, pos, done);
    if hunks != [] {
      hide ApplyHunks, Placed, Taking, HunkFits, Chosen, AllContent;
      var h := hunks[0];
      FirstStep(hunks, file, pos, done);
      TakingStep(hunks, at, taken, file, pos, done);
      ChosenExtremes(h.body, at + 1, taken);
      var end := HunkEnd(h, file, pos, |done|);
      TakingAll(hunks[1..], at + 1 + |h.body|, taken, file, end, AfterHunkFits(h, file, pos, done));
    }
  }

  lemma SlicesJoin<T>(file: seq<T>, pos: nat, start: nat, end: nat)
    requires pos <= start <= end <= |file|
    ensures file[..pos] + file[pos..start] + file[start..end] == file[..end]
  {
  }

  lemma {:induction false} TakingNone(hunks: seq<Hunk>, at: int, taken: set<int>, file: seq<string>, pos: nat,
                                      done: seq<string>)
    requires pos <= |file| && ApplyHunks(hunks, file, pos, done).Some?
    requires forall i | at <= i < at + Extent(hunks) :: i !in taken
    ensures Placed(hunks, file, pos)
    ensures Taking(hunks, at, taken, file, pos, file[..pos]) == file
    decreases |hunks|
  {
    AppliedIsPlaced(hunks, file, pos, done);
    if hunks == [] {
      assert file[..pos] + file[pos..] == file;
    } else {
      hide ApplyHunks, Placed, Taking, HunkFits, Chosen, AllContent;
      var h := hunks[0];
      FirstStep(hunks, file, pos, done);
      HunkOldSide(h, file, pos, |done|);
      TakingStep(hunks, at, taken, file, pos, file[..pos]);
      ChosenExtremes(h.body, at + 1, taken);
      var start, end := StartOf(h), HunkEnd(h, file, pos, |done|);
      TakingNone(hunks[1..], at + 1 + |h.body|, taken, file, end, AfterHunkFits(h, file, pos, done));
      SlicesJoin(file, pos, start, end);
    }
  }

  /** Taking every change gives the new file; taking none gives the old one. */
  lemma TakingExtremes(hunks: seq<Hunk>, at: int, taken: set<int>, file: seq<string>, pos: nat, done: seq<string>)
    requires pos <= |file| && ApplyHunks(hunks, file, pos, done).Some?
    ensures Placed(hunks, file, pos)
    ensures (forall i | at <= i < at + Extent(hunks) :: i in taken) ==>
              Some(Taking(hunks, at, taken, file, pos, done)) == ApplyHunks(hunks, file, pos, done)
    ensures (forall i | at <= i < at + Extent(hunks) :: i !in taken) ==>
              Taking(hunks, at, taken, file, pos, file[..pos]) == file
  {
    AppliedIsPlaced(hunks, file, pos, done);
    hide ApplyHunks, Placed, Taking;
    if forall i | at <= i < at + Extent(hunks) :: i in taken {
      TakingAll(hunks, at, taken, file, pos, done);
    }
    if forall i | at <= i < at + Extent(hunks) :: i !in taken {
      TakingNone(hunks, at, taken, file, pos, done);
    }
  }
}
