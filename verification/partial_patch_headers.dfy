/** Which file a patch is for: the lines in front of its hunks, spelled out. */
module PartialPatchHeaders {
  import opened TextLines
  import opened PatchFormat
  import opened PartialPatch
  import opened PartialPatchScan
  import opened PartialPatchText
  import opened PartialPatchTheorems
  import opened PartialPatchNormal
  import opened PartialPatchNormalForm

  /** The lines in front of the first hunk, as they stand. */
  function LinesBeforeHunks(text: string): seq<string> {
    Split(text)[..NextHeader(Split(text), 0)]
  }

  // ----- the last line with a prefix -----

  predicate NoneFrom(lines: seq<string>, prefix: string, from: nat) {
    forall i | from <= i < |lines| :: !(prefix <= lines[i])
  }

  /** The last line with the prefix goes on with `field`; without such a line the field is `otherwise`. */
  predicate FieldIs(lines: seq<string>, prefix: string, field: string, otherwise: string) {
    (exists i :: 0 <= i < |lines| && lines[i] == prefix + field && NoneFrom(lines, prefix, i + 1))
    || (NoneFrom(lines, prefix, 0) && field == otherwise)
  }

  lemma {:induction false} LastFieldIs(lines: seq<string>, prefix: string, field: string, otherwise: string)
    requires FieldIs(lines, prefix, field, otherwise)
    ensures LastField(lines, prefix, otherwise) == field
  {
    if lines != [] && !(prefix <= lines[|lines| - 1]) {
      FieldOfBefore(lines, prefix, field, otherwise);
      LastFieldIs(lines[..|lines| - 1], prefix, field, otherwise);
    }
  }

  lemma FieldOfBefore(lines: seq<string>, prefix: string, field: string, otherwise: string)
    requires lines != [] && FieldIs(lines, prefix, field, otherwise) && !(prefix <= lines[|lines| - 1])
    ensures FieldIs(lines[..|lines| - 1], prefix, field, otherwise)
  {
    var before := lines[..|lines| - 1];
    if i :| 0 <= i < |lines| && lines[i] == prefix + field && NoneFrom(lines, prefix, i + 1) {
      assert before[i] == prefix + field && NoneFrom(before, prefix, i + 1);
    }
  }

  predicate IsKept(line: string) {
    line != "" && !("index " <= line)
  }

  lemma {:induction false} HeaderLinesOfLast(lines: seq<string>)
    requires lines != []
    ensures var before, last := lines[..|lines| - 1], lines[|lines| - 1];
            HeaderLines(lines) == HeaderLines(before) + (if IsKept(last) then [last] else [])
  {
    var before, last := lines[..|lines| - 1], lines[|lines| - 1];
    assert "diff "[0] == 'd' && "index "[0] == 'i';
    if before == [] {
      assert lines[1..] == [];
    } else {
      HeaderLinesOfLast(lines[1..]);
      assert lines[1..][..|lines| - 2] == before[1..];
    }
  }

  lemma {:induction false} LastFieldOfKept(lines: seq<string>, prefix: string, otherwise: string)
    requires forall line: string | prefix <= line :: IsKept(line)
    ensures LastField(HeaderLines(lines), prefix, otherwise) == LastField(lines, prefix, otherwise)
  {
    if lines != [] {
      var before, last := lines[..|lines| - 1], lines[|lines| - 1];
      HeaderLinesOfLast(lines);
      LastFieldOfKept(before, prefix, otherwise);
      if IsKept(last) {
        assert (HeaderLines(before) + [last])[..|HeaderLines(before)|] == HeaderLines(before);
      } else {
        assert HeaderLines(before) + [] == HeaderLines(before);
      }
    }
  }

  lemma PathPrefixesAreKept(line: string)
    ensures "--- " <= line ==> IsKept(line)
    ensures "+++ " <= line ==> IsKept(line)
    ensures "deleted file mode " <= line ==> IsKept(line)
    ensures "deleted file mode" <= line ==> IsKept(line)
  {
    assert "index "[0] == 'i' && "--- "[0] == '-' && "+++ "[0] == '+' && "deleted file mode "[0] == 'd';
    assert "deleted file mode"[0] == 'd';
  }

  // ----- replacing the first occurrence -----

  ghost predicate RenamedAt(path: string, from: string, to: string, i: nat, r: string) {
    FirstAt(from, path, i) && r == path[..i] + to + path[i + |from|..]
  }

  /** `r` is the path with its first `from` replaced, or the path itself when there is none. */
  ghost predicate Renamed(path: string, from: string, to: string, r: string) {
    (exists i: nat :: RenamedAt(path, from, to, i, r))
    || ((forall i :: !StandsAt(from, path, i)) && r == path)
  }

  ghost predicate FirstAt(part: string, text: string, i: int) {
    StandsAt(part, text, i) && forall j | 0 <= j < i :: !StandsAt(part, text, j)
  }

  lemma {:induction false} ReplacedExactly(path: string, from: string, to: string)
    requires from != ""
    ensures Renamed(path, from, to, ReplaceFirst(path, from, to))
  {
    var r := ReplaceFirst(path, from, to);
    if from <= path {
      RenamedInFront(from, to, path[|from|..]);
      assert path == from + path[|from|..];
    } else if path != "" {
      ReplacedExactly(path[1..], from, to);
      RenamedBehind(path, from, to, ReplaceFirst(path[1..], from, to));
    }
  }

  lemma RenamedInFront(from: string, to: string, rest: string)
    ensures Renamed(from + rest, from, to, to + rest)
  {
    var path := from + rest;
    assert path[0..|from|] == from && path[|from|..] == rest;
    assert StandsAt(from, path, 0);
    assert RenamedAt(path, from, to, 0, to + rest);
  }

  lemma StandsBehind(part: string, text: string, j: int)
    requires text != "" && !(part <= text)
    ensures StandsAt(part, text, j) <==> StandsAt(part, text[1..], j - 1)
  {
    if 1 <= j <= |text| - |part| {
      var here, behind := text[j..j + |part|], text[1..][j - 1..j - 1 + |part|];
      assert |here| == |behind| && forall k | 0 <= k < |here| :: here[k] == behind[k];
    }
  }

  lemma FirstBehind(part: string, text: string, i: int)
    requires text != "" && !(part <= text) && FirstAt(part, text[1..], i)
    ensures FirstAt(part, text, i + 1)
  {
    StandsBehind(part, text, i + 1);
    forall j | 0 <= j < i + 1
      ensures !StandsAt(part, text, j)
    {
      StandsBehind(part, text, j);
      assert j >= 1 ==> !StandsAt(part, text[1..], j - 1);
    }
  }

  lemma RenamedBehind(path: string, from: string, to: string, rest: string)
    requires path != "" && !(from <= path) && Renamed(path[1..], from, to, rest)
    ensures Renamed(path, from, to, [path[0]] + rest)
  {
    hide RenamedAt, StandsAt, FirstAt;
    var tail := path[1..];
    if i: nat :| RenamedAt(tail, from, to, i, rest) {
      RenamedAtBehind(path, from, to, i, rest);
    } else {
      forall j
        ensures !StandsAt(from, path, j)
      {
        StandsBehind(from, path, j);
      }
    }
  }

  lemma RenamedAtBehind(path: string, from: string, to: string, i: nat, rest: string)
    requires path != "" && !(from <= path) && RenamedAt(path[1..], from, to, i, rest)
    ensures RenamedAt(path, from, to, i + 1, [path[0]] + rest)
  {
    FirstBehind(from, path, i);
    SpliceBehind(path, i, i + |from|, to);
    hide FirstAt;
  }

  lemma SpliceBehind(path: string, i: nat, j: nat, to: string)
    requires path != "" && i <= j <= |path[1..]|
    ensures [path[0]] + (path[1..][..i] + to + path[1..][j..]) == path[..i + 1] + to + path[j + 1..]
  {
    assert path[..i + 1] == [path[0]] + path[1..][..i];
  }

  lemma RenamedOnce(path: string, from: string, to: string, r: string, q: string)
    requires Renamed(path, from, to, r) && Renamed(path, from, to, q)
    ensures r == q
  {
    if i: nat :| RenamedAt(path, from, to, i, r) {
      assert StandsAt(from, path, i);
      var j: nat :| RenamedAt(path, from, to, j, q);
      assert i == j;
    }
  }

  // ----- the lines of a patch -----

  lemma StepKeepsHeader(s: Scan, index: int, line: string, selected: set<int>, discard: bool)
    requires s.hunks != [] || IsHeaderLine(line)
    requires Step(s, index, line, selected, discard).Ok?
    ensures Step(s, index, line, selected, discard).value.hunks != []
    ensures Step(s, index, line, selected, discard).value.header == s.header
  {
    if s.hunks != [] && InsideHunk(line) {
      StepInside(s, index, line, selected, discard);
    } else {
      hide ParseHeader;
      assert IsHeaderLine(line) && line[0] == '@';
    }
  }

  lemma {:induction false} ScanKeepsHeader(lines: seq<string>, i: nat, s: Scan, selected: set<int>, discard: bool)
    requires i <= |lines| && (s.hunks != [] || (i < |lines| ==> IsHeaderLine(lines[i])))
    requires ScanFrom(lines, i, s, selected, discard).Ok?
    ensures ScanFrom(lines, i, s, selected, discard).value.header == s.header
    decreases |lines| - i
  {
    hide Step, IsHeaderLine;
    if i < |lines| {
      StepKeepsHeader(s, i, lines[i], selected, discard);
      ScanKeepsHeader(lines, i + 1, Step(s, i, lines[i], selected, discard).value, selected, discard);
    }
  }

  lemma HeaderOfResult(diff: string, selected: set<int>, discard: bool)
    requires SelectionPatch(diff, selected, discard).Ok? && SelectionPatch(diff, selected, discard).value != ""
    ensures var scan := ScanFrom(Split(diff), 0, START_OF_SCAN, selected, discard);
            && scan.Ok? && scan.value.header == HeaderLines(LinesBeforeHunks(diff))
            && LinesBeforeHunks(SelectionPatch(diff, selected, discard).value) == FinalHeader(scan.value, discard)
  {
    hide Step, FinalHeader, Split, GoodHunk, Join, ScanFrom, HeaderLines, ResultLines, FileHeaderOf;
    var lines, scan := Split(diff), ScanFrom(Split(diff), 0, START_OF_SCAN, selected, discard);
    ScanIsGood(diff, selected, discard);
    ResultParts(scan.value, discard);
    ScanToFirstHeader(lines, selected, discard);
    ScanKeepsHeader(lines, NextHeader(lines, 0), START_OF_SCAN.(header := HeaderLines(LinesBeforeHunks(diff))),
                    selected, discard);
    ResultStarts(scan.value, discard);
  }

  lemma ResultStarts(s: Scan, discard: bool)
    ensures FinalHeader(s, discard) <= ResultLines(s, discard)
  {
    hide FinalHeader, Render, Emitted;
  }

  /**
   * The header of every non-empty discarding patch: that of a deleted file makes the file new again, with its mode, and
   * any other patch is between the two names of the file as it now is.
   */
  lemma DiscardedHeaderIs(diff: string, selected: set<int>, oldPath: string, newPath: string, mode: string,
                          other: string)
    requires SelectionPatch(diff, selected, true).Ok? && SelectionPatch(diff, selected, true).value != ""
    requires FieldIs(LinesBeforeHunks(diff), "--- ", oldPath, "")
             && FieldIs(LinesBeforeHunks(diff), "+++ ", newPath, "")
    requires FieldIs(LinesBeforeHunks(diff), "deleted file mode ", mode, "100644")
    requires if newPath == "/dev/null" then Renamed(oldPath, "a/", "b/", other) else Renamed(newPath, "b/", "a/", other)
    ensures LinesBeforeHunks(SelectionPatch(diff, selected, true).value)
            == if newPath == "/dev/null"
               then ["diff --git " + oldPath + " " + other, "new file mode " + mode, "--- /dev/null", "+++ " + other]
               else ["diff --git " + other + " " + newPath, "--- " + other, "+++ " + newPath]
  {
    hide LinesBeforeHunks, FieldIs, Renamed, ReplaceFirst, HeaderLines, LastField, SelectionPatch, ScanFrom, IsKept;
    HeaderOfResult(diff, selected, true);
    FieldsOfHeader(LinesBeforeHunks(diff), oldPath, newPath, mode);
    ReplacedExactly(oldPath, "a/", "b/");
    ReplacedExactly(newPath, "b/", "a/");
    var scan := ScanFrom(Split(diff), 0, START_OF_SCAN, selected, true).value;
    assert FinalHeader(scan, true) == DiscardedHeader(HeaderLines(LinesBeforeHunks(diff)));
    assert OldPathLine("/dev/null") == "--- /dev/null";
    if newPath == "/dev/null" {
      RenamedOnce(oldPath, "a/", "b/", other, ReplaceFirst(oldPath, "a/", "b/"));
    } else {
      RenamedOnce(newPath, "b/", "a/", other, ReplaceFirst(newPath, "b/", "a/"));
    }
  }

  lemma FieldsOfHeader(lines: seq<string>, oldPath: string, newPath: string, mode: string)
    requires FieldIs(lines, "--- ", oldPath, "") && FieldIs(lines, "+++ ", newPath, "")
    requires FieldIs(lines, "deleted file mode ", mode, "100644")
    ensures LastField(HeaderLines(lines), "--- ", "") == oldPath
    ensures LastField(HeaderLines(lines), "+++ ", "") == newPath
    ensures LastField(HeaderLines(lines), "deleted file mode ", "100644") == mode
  {
    hide FieldIs, HeaderLines, LastField, IsKept;
    forall line
      ensures "--- " <= line ==> IsKept(line)
      ensures "+++ " <= line ==> IsKept(line)
      ensures "deleted file mode " <= line ==> IsKept(line)
    {
      PathPrefixesAreKept(line);
    }
    LastFieldOfKept(lines, "--- ", "");
    LastFieldOfKept(lines, "+++ ", "");
    LastFieldOfKept(lines, "deleted file mode ", "100644");
    LastFieldIs(lines, "--- ", oldPath, "");
    LastFieldIs(lines, "+++ ", newPath, "");
    LastFieldIs(lines, "deleted file mode ", mode, "100644");
  }

  lemma RenamedPath(p: string)
    ensures Renamed("a/" + p, "a/", "b/", "b/" + p) && Renamed("b/" + p, "b/", "a/", "a/" + p)
  {
    RenamedInFront("a/", "b/", p);
    RenamedInFront("b/", "a/", p);
  }

  /** Discarding the deletion of a file brings the file back under its name and with its mode. */
  lemma DiscardingADeletionBringsTheFileBack(diff: string, selected: set<int>, p: string, mode: string)
    requires SelectionPatch(diff, selected, true).Ok? && SelectionPatch(diff, selected, true).value != ""
    requires FieldIs(LinesBeforeHunks(diff), "--- ", "a/" + p, "")
    requires FieldIs(LinesBeforeHunks(diff), "+++ ", "/dev/null", "")
    requires FieldIs(LinesBeforeHunks(diff), "deleted file mode ", mode, "100644")
    ensures LinesBeforeHunks(SelectionPatch(diff, selected, true).value)
            == ["diff --git a/" + p + " b/" + p, "new file mode " + mode, "--- /dev/null", "+++ b/" + p]
    ensures "+++ /dev/null" !in LinesBeforeHunks(SelectionPatch(diff, selected, true).value)
  {
    hide LinesBeforeHunks, FieldIs, Renamed, SelectionPatch;
    RenamedPath(p);
    DiscardedHeaderIs(diff, selected, "a/" + p, "/dev/null", mode, "b/" + p);
    assert "diff --git " + ("a/" + p) + " " + ("b/" + p) == "diff --git a/" + p + " b/" + p;
    assert "+++ " + ("b/" + p) == "+++ b/" + p;
    NamesNoNull(p, mode);
  }

  lemma NamesNoNull(p: string, mode: string)
    ensures "+++ /dev/null" !in ["diff --git a/" + p + " b/" + p, "new file mode " + mode, "--- /dev/null",
                                 "+++ b/" + p]
  {
    assert ("diff --git a/" + p + " b/" + p)[0] == 'd' && ("new file mode " + mode)[0] == 'n';
    assert "--- /dev/null"[0] == '-' && ("+++ b/" + p)[4] == 'b';
    assert "+++ /dev/null"[0] == '+' && "+++ /dev/null"[4] == '/';
  }

  /** Discarding from any other diff is a change of the file under its new name. */
  lemma DiscardingKeepsTheNewName(diff: string, selected: set<int>, oldPath: string, p: string, mode: string)
    requires SelectionPatch(diff, selected, true).Ok? && SelectionPatch(diff, selected, true).value != ""
    requires FieldIs(LinesBeforeHunks(diff), "--- ", oldPath, "")
    requires FieldIs(LinesBeforeHunks(diff), "+++ ", "b/" + p, "")
    requires FieldIs(LinesBeforeHunks(diff), "deleted file mode ", mode, "100644")
    ensures LinesBeforeHunks(SelectionPatch(diff, selected, true).value)
            == ["diff --git a/" + p + " b/" + p, "--- a/" + p, "+++ b/" + p]
  {
    hide LinesBeforeHunks, FieldIs, Renamed, SelectionPatch;
    RenamedPath(p);
    assert ("b/" + p)[0] == 'b' && "/dev/null"[0] == '/';
    DiscardedHeaderIs(diff, selected, oldPath, "b/" + p, mode, "a/" + p);
    assert "--- " + ("a/" + p) == "--- a/" + p && "+++ " + ("b/" + p) == "+++ b/" + p;
    assert "diff --git " + ("a/" + p) + " " + ("b/" + p) == "diff --git a/" + p + " b/" + p;
  }

  // ----- staging -----

  /** What becomes of the header of a deleted file when it is only partly staged, line by line. */
  ghost predicate StillThere(lines: seq<string>, target: string, header: seq<string>) {
    forall line ::
      line in header <==>
        (line in lines && line != "" && !("index " <= line) && !("deleted file mode" <= line)
         && line != "+++ /dev/null")
        || (line == "+++ " + target && "+++ /dev/null" in lines)
  }

  predicate IsDeletedFile(lines: seq<string>) {
    exists i :: 0 <= i < |lines| && "deleted file mode" <= lines[i]
  }

  lemma {:induction false} KeptLinesMembers(header: seq<string>, oldPath: string, line: string)
    ensures line in KeptLines(header, oldPath) <==>
              (line in header && !("deleted file mode" <= line) && line != "+++ /dev/null")
              || (line == "+++ " + TargetOf(oldPath) && "+++ /dev/null" in header)
  {
    if header != [] {
      KeptLinesMembers(header[..|header| - 1], oldPath, line);
      assert header == header[..|header| - 1] + [header[|header| - 1]];
      assert "deleted file mode"[0] == 'd' && "+++ /dev/null"[0] == '+';
    }
  }

  lemma {:induction false} HeaderLinesMembers(lines: seq<string>, line: string)
    ensures line in HeaderLines(lines) <==> line in lines && line != "" && !("index " <= line)
  {
    if lines != [] {
      HeaderLinesOfLast(lines);
      HeaderLinesMembers(lines[..|lines| - 1], line);
      assert lines == lines[..|lines| - 1] + [lines[|lines| - 1]];
    }
  }

  /** The deletions of a staging scan are counted, and whether one was left out. */
  lemma DeletionsOfScan(diff: string, selected: set<int>)
    requires ScanFrom(Split(diff), 0, START_OF_SCAN, selected, false).Ok?
    ensures var scan := ScanFrom(Split(diff), 0, START_OF_SCAN, selected, false).value;
            scan.selectedDeletions < scan.totalDeletions
            <==> !DeletionsPickedFrom(Split(diff), NextHeader(Split(diff), 0), selected)
  {
    hide Step, DeletionsPickedFrom, HeaderLines;
    var lines := Split(diff);
    var first := NextHeader(lines, 0);
    ScanToFirstHeader(lines, selected, false);
    ScanUnpicked(lines, first, START_OF_SCAN.(header := HeaderLines(lines[..first])), selected);
  }

  lemma DeletedModeIsKept(lines: seq<string>)
    ensures HasDeletedMode(HeaderLines(lines)) <==> IsDeletedFile(lines)
  {
    var header := HeaderLines(lines);
    if i :| 0 <= i < |lines| && "deleted file mode" <= lines[i] {
      PathPrefixesAreKept(lines[i]);
      HeaderLinesMembers(lines, lines[i]);
      assert lines[i] in header;
      var k :| 0 <= k < |header| && header[k] == lines[i];
      assert IsDeletedMode(header[k]);
    }
    if k :| 0 <= k < |header| && IsDeletedMode(header[k]) {
      HeaderLinesMembers(lines, header[k]);
      assert header[k] in lines;
    }
  }

  /**
   * The header of every non-empty staging patch: when a deleted file keeps some lines it is named as changed instead of
   * deleted, and otherwise only the index line goes.
   */
  lemma StagedHeaderIs(diff: string, selected: set<int>, oldPath: string, target: string)
    requires SelectionPatch(diff, selected, false).Ok? && SelectionPatch(diff, selected, false).value != ""
    requires FieldIs(LinesBeforeHunks(diff), "--- ", oldPath, "") && Renamed(oldPath, "a/", "b/", target)
    ensures var before, after := LinesBeforeHunks(diff), LinesBeforeHunks(SelectionPatch(diff, selected, false).value);
            if IsDeletedFile(before) && oldPath != ""
               && !DeletionsPickedFrom(Split(diff), NextHeader(Split(diff), 0), selected)
            then StillThere(before, target, after)
            else forall line :: line in after <==> line in before && line != "" && !("index " <= line)
  {
    hide LinesBeforeHunks, FieldIs, Renamed, ReplaceFirst, HeaderLines, LastField, SelectionPatch, ScanFrom, IsKept,
         DeletionsPickedFrom, IsDeletedFile, HasDeletedMode, KeptLines, Split, NextHeader;
    var before := LinesBeforeHunks(diff);
    HeaderOfResult(diff, selected, false);
    DeletionsOfScan(diff, selected);
    DeletedModeIsKept(before);
    KeptPath(before, oldPath);
    ReplacedExactly(oldPath, "a/", "b/");
    RenamedOnce(oldPath, "a/", "b/", target, ReplaceFirst(oldPath, "a/", "b/"));
    assert "+++ /dev/null"[0] == '+' && "index "[0] == 'i';
    forall line
      ensures line in HeaderLines(before) <==> line in before && line != "" && !("index " <= line)
    {
      HeaderLinesMembers(before, line);
    }
    forall line
      ensures line in KeptLines(HeaderLines(before), oldPath) <==>
                (line in HeaderLines(before) && !("deleted file mode" <= line) && line != "+++ /dev/null")
                || (line == "+++ " + target && "+++ /dev/null" in HeaderLines(before))
    {
      KeptLinesMembers(HeaderLines(before), oldPath, line);
    }
  }

  lemma KeptPath(lines: seq<string>, oldPath: string)
    requires FieldIs(lines, "--- ", oldPath, "")
    ensures LastField(HeaderLines(lines), "--- ", "") == oldPath
  {
    hide FieldIs, HeaderLines, LastField, IsKept;
    forall line
      ensures "--- " <= line ==> IsKept(line)
    {
      PathPrefixesAreKept(line);
    }
    LastFieldOfKept(lines, "--- ", "");
    LastFieldIs(lines, "--- ", oldPath, "");
  }

  /** The header that `git diff` prints for a deleted file. */
  function GitDeletion(p: string, mode: string, hashes: string): seq<string> {
    ["diff --git a/" + p + " b/" + p, "deleted file mode " + mode, "index " + hashes, "--- a/" + p, "+++ /dev/null"]
  }

  /** Staging some of a deletion's lines changes the file, and staging all of them deletes it. */
  lemma StagingADeletion(diff: string, selected: set<int>, p: string, mode: string, hashes: string)
    requires SelectionPatch(diff, selected, false).Ok? && SelectionPatch(diff, selected, false).value != ""
    requires LinesBeforeHunks(diff) == GitDeletion(p, mode, hashes)
    ensures LinesBeforeHunks(SelectionPatch(diff, selected, false).value)
            == if DeletionsPickedFrom(Split(diff), NextHeader(Split(diff), 0), selected)
               then ["diff --git a/" + p + " b/" + p, "deleted file mode " + mode, "--- a/" + p, "+++ /dev/null"]
               else ["diff --git a/" + p + " b/" + p, "--- a/" + p, "+++ b/" + p]
  {
    hide LinesBeforeHunks, SelectionPatch, ScanFrom, DeletionsPickedFrom, Split, NextHeader, HeaderLines, KeptLines,
         LastField, FieldIs;
    HeaderOfResult(diff, selected, false);
    DeletionsOfScan(diff, selected);
    DeletionLines(p, mode, hashes);
    DeletedModeIsKept(GitDeletion(p, mode, hashes));
    assert IsDeletedFile(GitDeletion(p, mode, hashes)) by {
      assert "deleted file mode" <= GitDeletion(p, mode, hashes)[1];
    }
    KeptPath(GitDeletion(p, mode, hashes), "a/" + p);
  }

  lemma DeletionLines(p: string, mode: string, hashes: string)
    ensures FieldIs(GitDeletion(p, mode, hashes), "--- ", "a/" + p, "")
    ensures HeaderLines(GitDeletion(p, mode, hashes))
            == ["diff --git a/" + p + " b/" + p, "deleted file mode " + mode, "--- a/" + p, "+++ /dev/null"]
    ensures KeptLines(HeaderLines(GitDeletion(p, mode, hashes)), "a/" + p)
            == ["diff --git a/" + p + " b/" + p, "--- a/" + p, "+++ b/" + p]
  {
    var all := GitDeletion(p, mode, hashes);
    assert all[3] == "--- " + ("a/" + p) && all[4..] == [all[4]];
    assert all[0][0] == 'd' && all[1][0] == 'd' && all[2][0] == 'i' && all[3][0] == '-' && all[4][0] == '+';
    assert all[0][1] == 'i' && all[1][1] == 'e' && "deleted file mode"[1] == 'e';
    FiveLines(all);
    assert TargetOf("a/" + p) == "b/" + p;
    assert "+++ " + ("b/" + p) == "+++ b/" + p;
    FourLines([all[0], all[1], all[3], all[4]], "a/" + p);
    hide HeaderLines, KeptLines;
  }

  lemma FourLines(lines: seq<string>, oldPath: string)
    requires |lines| == 4 && IsDeletedMode(lines[1]) && lines[3] == "+++ /dev/null"
    requires !IsDeletedMode(lines[0]) && lines[0] != lines[3] && !IsDeletedMode(lines[2]) && lines[2] != lines[3]
    ensures KeptLines(lines, oldPath) == [lines[0], lines[2], "+++ " + TargetOf(oldPath)]
  {
    hide TargetOf;
    assert lines[..3][..2] == lines[..2] && lines[..2][..1] == lines[..1] && lines[..1][..0] == [];
    assert lines[3][0] == '+' && "deleted file mode"[0] == 'd';
    assert KeptLines(lines[..1], oldPath) == [lines[0]];
    assert KeptLines(lines[..2], oldPath) == [lines[0]];
    assert KeptLines(lines[..3], oldPath) == [lines[0], lines[2]];
  }

  lemma FiveLines(lines: seq<string>)
    requires |lines| == 5 && IsKept(lines[0]) && IsKept(lines[1]) && !IsKept(lines[2]) && IsKept(lines[3])
             && IsKept(lines[4])
    ensures HeaderLines(lines) == [lines[0], lines[1], lines[3], lines[4]]
  {
    hide IsKept, HeaderLines;
    HeaderLinesOfLast(lines);
    HeaderLinesOfLast(lines[..4]);
    HeaderLinesOfLast(lines[..3]);
    HeaderLinesOfLast(lines[..2]);
    HeaderLinesOfLast(lines[..1]);
    assert lines[..4][..3] == lines[..3] && lines[..3][..2] == lines[..2] && lines[..2][..1] == lines[..1];
    assert lines[..1][..0] == [];
    assert HeaderLines([]) == [] by { NoHeaderLines(); }
  }

  lemma NoHeaderLines()
    ensures HeaderLines([]) == []
  {
  }

  // ----- what the builder refuses -----

  /** The line makes the builder give up: another file's diff, or a hunk header that cannot be read. */
  predicate IsRefused(line: string) {
    "diff " <= line || ("@@" <= line && ParseHeader(line).None?)
  }

  lemma RefusedStep(s: Scan, index: int, line: string, selected: set<int>, discard: bool)
    requires s.hunks != [] || "@@" <= line
    ensures var r := Step(s, index, line, selected, discard);
            && (r.Err? <==> IsRefused(line))
            && (r.Err? ==> r.error == if "diff " <= line then MoreThanOneFile else InvalidHunkHeader(line))
            && (r.Ok? ==> r.value.hunks != [])
  {
    hide ParseHeader;
    assert "diff "[0] == 'd' && "@@"[0] == '@';
  }

  lemma {:induction false} RefusedFrom(lines: seq<string>, i: nat, s: Scan, selected: set<int>, discard: bool, bad: nat)
    requires i <= |lines| && (s.hunks != [] || (i < |lines| ==> "@@" <= lines[i]))
    ensures i <= bad < |lines| && IsRefused(lines[bad]) && (forall k | i <= k < bad :: !IsRefused(lines[k])) ==>
              ScanFrom(lines, i, s, selected, discard)
              == Err(if "diff " <= lines[bad] then MoreThanOneFile else InvalidHunkHeader(lines[bad]))
    ensures (forall k | i <= k < |lines| :: !IsRefused(lines[k])) ==> ScanFrom(lines, i, s, selected, discard).Ok?
    decreases |lines| - i
  {
    hide Step, IsRefused;
    if i < |lines| {
      RefusedStep(s, i, lines[i], selected, discard);
      var next := Step(s, i, lines[i], selected, discard);
      if next.Ok? {
        RefusedFrom(lines, i + 1, next.value, selected, discard, bad);
      }
    }
  }

  /**
   * A diff is refused for its first line, from the first hunk on, that starts another file or is no readable header.
   */
  lemma RefusedExactly(diff: string, selected: set<int>, discard: bool, bad: nat)
    ensures var lines := Split(diff);
            var first := NextHeader(lines, 0);
            var r := SelectionPatch(diff, selected, discard);
            && (first <= bad < |lines| && IsRefused(lines[bad]) && (forall k | first <= k < bad :: !IsRefused(lines[k]))
                ==> r == Err(if "diff " <= lines[bad] then MoreThanOneFile else InvalidHunkHeader(lines[bad])))
            && ((forall k | first <= k < |lines| :: !IsRefused(lines[k])) ==> r.Ok?)
  {
    hide Step, IsRefused, PatchText, HeaderLines;
    var lines := Split(diff);
    ScanToFirstHeader(lines, selected, discard);
    RefusedFrom(lines, NextHeader(lines, 0), START_OF_SCAN.(header := HeaderLines(lines[..NextHeader(lines, 0)])),
                selected, discard, bad);
  }
}
