/** What holds of the patch for every diff, valid or not: when it is empty, where its hunks stand,
    which markers survive, how a deleted file's header is spelled, and that its text is a normal form. */
module PartialPatchNormal {
  import opened TextLines
  import opened PatchFormat
  import opened PartialPatch
  import opened PartialPatchScan
  import opened PartialPatchText
  import opened PartialPatchTheorems

  predicate IsChange(line: string) {
    line != "" && (line[0] == '-' || line[0] == '+')
  }

  predicate AnyChange(hunks: seq<PatchHunk>) {
    exists i :: 0 <= i < |hunks| && hunks[i].hasChanges
  }

  // ----- emptiness -----

  /** Some change line from `i` on is picked. */
  predicate PickedFrom(lines: seq<string>, i: nat, selected: set<int>) {
    exists k :: i <= k < |lines| && IsChange(lines[k]) && k in selected
  }

  lemma EmittedChange(line: string, picked: bool, discard: bool)
    requires IsContent(line)
    ensures HasChange(EmitLine(line, picked, discard)) == (IsChange(line) && picked)
  {
    var e := EmitLine(line, picked, discard);
    if e != [] {
      SidesOfOne(e[0]);
      assert e == [e[0]];
    }
  }

  lemma StepChange(s: Scan, index: int, line: string, selected: set<int>, discard: bool)
    requires s.hunks != [] || IsHeaderLine(line)
    requires Step(s, index, line, selected, discard).Ok?
    ensures var next := Step(s, index, line, selected, discard).value;
            && next.hunks != []
            && AnyChange(next.hunks) == (AnyChange(s.hunks) || (IsChange(line) && index in selected))
  {
    hide ParseHeader;
    var next := Step(s, index, line, selected, discard).value;
    if s.hunks != [] && InsideHunk(line) {
      StepInside(s, index, line, selected, discard);
      var e := EmitAny(line, index in selected, discard, s.lastLineKept);
      assert HasChange(e) == (IsChange(line) && index in selected) by {
        if IsContent(line) {
          EmittedChange(line, index in selected, discard);
        } else if e != [] {
          SidesOfOne(line);
        }
      }
      var last := |s.hunks| - 1;
      assert next.hunks[last].hasChanges == (s.hunks[last].hasChanges || HasChange(e));
      assert forall i | 0 <= i < last :: next.hunks[i] == s.hunks[i];
    } else {
      assert IsHeaderLine(line) && line[0] == '@';
      var last := |s.hunks|;
      assert !next.hunks[last].hasChanges;
      assert forall i | 0 <= i < last :: next.hunks[i] == s.hunks[i];
    }
  }

  lemma {:induction false} ScanChange(lines: seq<string>, i: nat, s: Scan, selected: set<int>, discard: bool)
    requires i <= |lines| && (s.hunks != [] || (i < |lines| ==> IsHeaderLine(lines[i])))
    requires ScanFrom(lines, i, s, selected, discard).Ok?
    ensures AnyChange(ScanFrom(lines, i, s, selected, discard).value.hunks)
         == (AnyChange(s.hunks) || PickedFrom(lines, i, selected))
    decreases |lines| - i
  {
    hide Step, IsChange, IsHeaderLine;
    if i < |lines| {
      StepChange(s, i, lines[i], selected, discard);
      ScanChange(lines, i + 1, Step(s, i, lines[i], selected, discard).value, selected, discard);
    }
  }

  lemma {:induction false} EmittedIsEmpty(hunks: seq<PatchHunk>, delta: int)
    ensures (Emitted(hunks, delta) == []) == !AnyChange(hunks)
    decreases |hunks|
  {
    if hunks != [] {
      EmittedIsEmpty(hunks[1..], delta);
      assert forall i | 1 <= i < |hunks| :: hunks[i] == hunks[1..][i - 1];
      assert hunks[0] == hunks[0];
    }
  }

  /** The scan reaches its first hunk header with the header lines only. */
  lemma ScanToFirstHeader(lines: seq<string>, selected: set<int>, discard: bool)
    ensures var first := NextHeader(lines, 0);
            ScanFrom(lines, 0, START_OF_SCAN, selected, discard)
            == ScanFrom(lines, first, START_OF_SCAN.(header := HeaderLines(lines[..first])), selected, discard)
  {
    hide Step;
    var first := NextHeader(lines, 0);
    ScanHeader(lines, 0, first, START_OF_SCAN, selected, discard);
    assert [] + HeaderLines(lines[..first]) == HeaderLines(lines[..first]);
  }

  /** The patch is empty exactly when no change line of a hunk is selected. */
  lemma EmptyExactlyWhenNothingPicked(diff: string, selected: set<int>, discard: bool)
    requires SelectionPatch(diff, selected, discard).Ok?
    ensures SelectionPatch(diff, selected, discard).value == ""
       <==> !PickedFrom(Split(diff), NextHeader(Split(diff), 0), selected)
  {
    hide Step, PickedFrom, FinalHeader, FormatHeader, Join;
    var lines := Split(diff);
    var first := NextHeader(lines, 0);
    ScanToFirstHeader(lines, selected, discard);
    ScanChange(lines, first, START_OF_SCAN.(header := HeaderLines(lines[..first])), selected, discard);
    var s := ScanFrom(lines, 0, START_OF_SCAN, selected, discard).value;
    EmittedIsEmpty(s.hunks, 0);
    if Emitted(s.hunks, 0) != [] {
      RenderStep(Emitted(s.hunks, 0));
    }
  }

  // ----- positions -----

  function Growth(hunks: seq<Hunk>): int {
    if hunks == [] then 0 else hunks[0].header.newCount - hunks[0].header.oldCount + Growth(hunks[1..])
  }

  /** Every new start is the old position moved by what the hunks emitted before it added, empty sides included. */
  lemma {:induction false} NewStartsAreTruePositions(hunks: seq<PatchHunk>, delta: int, k: nat)
    requires k < |Emitted(hunks, delta)|
    ensures var e := Emitted(hunks, delta);
            Position(e[k].header.newStart, e[k].header.newCount)
            == Position(e[k].header.oldStart, e[k].header.oldCount) + delta + Growth(e[..k])
    decreases |hunks|
  {
    var e := Emitted(hunks, delta);
    if !hunks[0].hasChanges {
      NewStartsAreTruePositions(hunks[1..], delta, k);
    } else if k > 0 {
      var next := delta + hunks[0].newCount - hunks[0].oldCount;
      NewStartsAreTruePositions(hunks[1..], next, k - 1);
      assert e[1..] == Emitted(hunks[1..], next);
      assert e[..k][1..] == Emitted(hunks[1..], next)[..k - 1];
    }
  }

  // ----- markers -----

  lemma Associates<T>(a: seq<T>, b: seq<T>, c: seq<T>)
    ensures a + (b + c) == a + b + c
  {
  }

  lemma EmitBodyCons(line: string, rest: seq<string>, at: int, selected: set<int>, discard: bool, kept: bool)
    ensures EmitBody([line] + rest, at, selected, discard, kept)
         == EmitAny(line, at in selected, discard, kept)
            + EmitBody(rest, at + 1, selected, discard, KeptBy(line, at in selected, discard, kept))
  {
    hide EmitAny, KeptBy;
    assert ([line] + rest)[1..] == rest;
  }

  lemma {:induction false} EmitBodySplits(a: seq<string>, b: seq<string>, at: int, selected: set<int>, discard: bool,
                                          kept: bool)
    ensures EmitBody(a + b, at, selected, discard, kept)
         == EmitBody(a, at, selected, discard, kept)
            + EmitBody(b, at + |a|, selected, discard, KeptAfter(a, at, selected, discard, kept))
  {
    if a == [] {
      assert a + b == b;
    } else {
      hide EmitAny, KeptBy;
      var next := KeptBy(a[0], at in selected, discard, kept);
      EmitBodySplits(a[1..], b, at + 1, selected, discard, next);
      EmitBodyCons(a[0], a[1..] + b, at, selected, discard, kept);
      EmitBodyCons(a[0], a[1..], at, selected, discard, kept);
      assert a == [a[0]] + a[1..] && a + b == [a[0]] + (a[1..] + b);
      Associates(EmitAny(a[0], at in selected, discard, kept), EmitBody(a[1..], at + 1, selected, discard, next),
                 EmitBody(b, at + |a|, selected, discard, KeptAfter(a, at, selected, discard, kept)));
      hide EmitBody;
    }
  }

  /** A marker that follows a content line is emitted exactly when that line is. */
  lemma MarkerFollowsItsLine(before: seq<string>, line: string, marker: string, after: seq<string>,
                             at: int, selected: set<int>, discard: bool, kept: bool)
    requires IsContent(line) && IsMarker(marker)
    ensures var emitted := EmitLine(line, at + |before| in selected, discard);
            EmitBody(before + ([line, marker] + after), at, selected, discard, kept)
            == EmitBody(before, at, selected, discard, kept)
               + ((if emitted == [] then [] else emitted + [marker])
                  + EmitBody(after, at + |before| + 2, selected, discard, emitted != []))
  {
    EmitBodySplits(before, [line, marker] + after, at, selected, discard, kept);
    hide EmitLine;
    var tail := [line, marker] + after;
    assert tail[1..] == [marker] + after && ([marker] + after)[1..] == after;
  }

  /** The index of the header of hunk `n` in the diff, when the first one's is `at`. */
  function HunkIndex(hunks: seq<Hunk>, at: int, n: nat): int
    requires n < |hunks|
  {
    if n == 0 then at else HunkIndex(hunks[1..], at + 1 + |hunks[0].body|, n - 1)
  }

  lemma {:induction false} GatherAt(hunks: seq<Hunk>, at: int, selected: set<int>, discard: bool, n: nat)
    requires n < |hunks|
    ensures Gather(hunks, at, selected, discard)[n] == GatherOne(hunks[n], HunkIndex(hunks, at, n), selected, discard)
  {
    hide GatherOne;
    if n > 0 {
      GatherAt(hunks[1..], at + 1 + |hunks[0].body|, selected, discard, n - 1);
    }
  }

  /** How many of the first `n` hunks are printed. */
  function PrintedBefore(hunks: seq<PatchHunk>, n: nat): nat
    requires n <= |hunks|
  {
    if n == 0 then 0 else (if hunks[0].hasChanges then 1 else 0) + PrintedBefore(hunks[1..], n - 1)
  }

  /** A hunk with changes is printed with all its lines, behind the changed hunks in front of it. */
  lemma {:induction false} PrintedHunk(hunks: seq<PatchHunk>, delta: int, n: nat)
    requires n < |hunks| && hunks[n].hasChanges
    ensures PrintedBefore(hunks, n) < |Emitted(hunks, delta)|
    ensures Emitted(hunks, delta)[PrintedBefore(hunks, n)].body == hunks[n].lines
    decreases n
  {
    hide EmittedHeader;
    if n > 0 {
      PrintedHunk(hunks[1..], if hunks[0].hasChanges then delta + hunks[0].newCount - hunks[0].oldCount else delta,
                  n - 1);
    }
  }

  /**
   * For every diff whose hunks can be read, whatever lines they hold: in the hunk that the builder makes of a hunk, a
   * marker that follows a content line stands right behind that line, and is there exactly when the line is; and the
   * builder prints this hunk exactly so if it has a change.
   */
  lemma MarkersFollowTheirLines(diff: string, selected: set<int>, discard: bool, n: nat, j: nat)
    requires EndsWithNewline(diff) && ParseHunks(PatchLines(diff), FirstHeader(diff)).Some? && AllInside(HunksOf(diff))
    requires n < |HunksOf(diff)| && j + 1 < |HunksOf(diff)[n].body|
    requires IsContent(HunksOf(diff)[n].body[j]) && IsMarker(HunksOf(diff)[n].body[j + 1])
    ensures var scan := ScanFrom(Split(diff), 0, START_OF_SCAN, selected, discard);
            && scan.Ok? && n < |scan.value.hunks|
            && SelectionPatch(diff, selected, discard) == Ok(PatchText(scan.value, discard))
    ensures var hunks := ScanFrom(Split(diff), 0, START_OF_SCAN, selected, discard).value.hunks;
            var body := HunksOf(diff)[n].body;
            var at := HunkIndex(HunksOf(diff), FirstHeader(diff), n) + 1;
            var emitted := EmitLine(body[j], at + j in selected, discard);
            && hunks[n].lines
               == EmitBody(body[..j], at, selected, discard, false)
                  + ((if emitted == [] then [] else emitted + [body[j + 1]])
                     + EmitBody(body[j + 2..], at + j + 2, selected, discard, emitted != []))
            && (hunks[n].hasChanges ==>
                  PrintedBefore(hunks, n) < |Emitted(hunks, 0)|
                  && Emitted(hunks, 0)[PrintedBefore(hunks, n)].body == hunks[n].lines)
  {
    hide Step, ScanFrom, HunksOf, PatchText, GoodScan, Gather, Emitted, EmitLine, EmitBody, PrintedBefore, HunkIndex,
         ParseHunks;
    ScanOfValidDiff(diff, selected, discard);
    var hunks, body := ScanFrom(Split(diff), 0, START_OF_SCAN, selected, discard).value.hunks, HunksOf(diff)[n].body;
    GatherAt(HunksOf(diff), FirstHeader(diff), selected, discard, n);
    var at := HunkIndex(HunksOf(diff), FirstHeader(diff), n) + 1;
    assert body == body[..j] + ([body[j], body[j + 1]] + body[j + 2..]);
    MarkerFollowsItsLine(body[..j], body[j], body[j + 1], body[j + 2..], at, selected, discard, false);
    assert [] + EmitBody(body, at, selected, discard, false) == EmitBody(body, at, selected, discard, false);
    if hunks[n].hasChanges {
      PrintedHunk(hunks, 0, n);
    }
  }
}
