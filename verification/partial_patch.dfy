/** Building a smaller patch from one file's diff and the set of diff lines a user picked. */
module PartialPatch {
  import opened TextLines
  import opened PatchFormat

  datatype PatchError = MoreThanOneFile | InvalidHunkHeader(line: string)

  datatype PatchHunk = PatchHunk(oldStart: int, oldCount: int, newCount: int, hasChanges: bool, lines: seq<string>)

  /** Everything the scan over the diff lines carries; the current hunk is the last one. */
  datatype Scan = Scan(header: seq<string>, hunks: seq<PatchHunk>, lastLineKept: bool,
                       totalDeletions: int, selectedDeletions: int)

  const START_OF_SCAN := Scan([], [], false, 0, 0)

  // ----- specification -----

  /** What a content line of the diff becomes: a change that is not picked turns into context or vanishes. */
  function EmitLine(line: string, picked: bool, discard: bool): seq<string>
    requires IsContent(line)
  {
    if line[0] == ' ' then [line]
    else if line[0] == '+' then
      if discard then [(if picked then "-" else " ") + line[1..]] else if picked then [line] else []
    else
      if discard then if picked then ["+" + line[1..]] else [] else if picked then [line] else [" " + line[1..]]
  }

  /** Adds emitted lines to a hunk, keeping its counts. */
  function Extend(h: PatchHunk, emitted: seq<string>): PatchHunk {
    PatchHunk(h.oldStart, h.oldCount + |OldSide(emitted)|, h.newCount + |NewSide(emitted)|,
              h.hasChanges || HasChange(emitted), h.lines + emitted)
  }

  function ExtendLast(s: Scan, emitted: seq<string>): Scan
    requires s.hunks != []
  {
    var last := |s.hunks| - 1;
    s.(hunks := s.hunks[last := Extend(s.hunks[last], emitted)])
  }

  /** A content line inside a hunk. */
  function ContentStep(s: Scan, line: string, picked: bool, discard: bool): Scan
    requires s.hunks != [] && IsContent(line)
  {
    var emitted := EmitLine(line, picked, discard);
    var isDeletion := line[0] == '-';
    ExtendLast(s, emitted).(
      lastLineKept := emitted != [],
      totalDeletions := s.totalDeletions + (if isDeletion then 1 else 0),
      selectedDeletions := s.selectedDeletions + (if isDeletion && !discard && picked then 1 else 0))
  }

  /** One line of the diff. */
  function Step(s: Scan, index: int, line: string, selected: set<int>, discard: bool): Result<Scan, PatchError> {
    if "diff " <= line then
      if s.hunks != [] then Err(MoreThanOneFile) else Ok(s.(header := s.header + [line]))
    else if IsHeaderLine(line) then
      var header := ParseHeader(line);
      if header.None? then Err(InvalidHunkHeader(line)) else
      var start := if discard then header.value.newStart else header.value.oldStart;
      Ok(s.(hunks := s.hunks + [PatchHunk(start, 0, 0, false, [])], lastLineKept := false))
    else if s.hunks == [] then
      Ok(if line != "" && !("index " <= line) then s.(header := s.header + [line]) else s)
    else if IsContent(line) then
      Ok(ContentStep(s, line, index in selected, discard))
    else if IsMarker(line) then
      Ok(if s.lastLineKept then ExtendLast(s, [line]) else s)
    else
      Ok(s)
  }

  function ScanFrom(lines: seq<string>, i: nat, s: Scan, selected: set<int>, discard: bool): Result<Scan, PatchError>
    requires i <= |lines|
    decreases |lines| - i
  {
    if i == |lines| then Ok(s) else
    var next := Step(s, i, lines[i], selected, discard);
    if next.Err? then next else ScanFrom(lines, i + 1, next.value, selected, discard)
  }

  /** The header of an emitted hunk, given how much earlier emitted hunks grew the file. */
  function EmittedHeader(h: PatchHunk, delta: int): Header {
    var newStart := h.oldStart + delta + (if h.oldCount == 0 then 1 else 0) - (if h.newCount == 0 then 1 else 0);
    Header(h.oldStart, h.oldCount, newStart, h.newCount)
  }

  /** The hunks of the resulting patch: those without a change are skipped, the rest are renumbered. */
  function Emitted(hunks: seq<PatchHunk>, delta: int): seq<Hunk> {
    if hunks == [] then []
    else if !hunks[0].hasChanges then Emitted(hunks[1..], delta)
    else
      [Hunk(EmittedHeader(hunks[0], delta), hunks[0].lines)]
      + Emitted(hunks[1..], delta + hunks[0].newCount - hunks[0].oldCount)
  }

  /** What follows the prefix on the last line that carries it. */
  function LastField(header: seq<string>, prefix: string, otherwise: string): string {
    if header == [] then otherwise
    else
      var last := header[|header| - 1];
      if prefix <= last then last[|prefix|..] else LastField(header[..|header| - 1], prefix, otherwise)
  }

  predicate IsDeletedMode(line: string) {
    "deleted file mode" <= line
  }

  predicate HasDeletedMode(header: seq<string>) {
    exists i :: 0 <= i < |header| && IsDeletedMode(header[i])
  }

  /** The old path, spelled as the new path. */
  function TargetOf(oldPath: string): string {
    ReplaceFirst(oldPath, "a/", "b/")
  }

  function KeptLines(header: seq<string>, oldPath: string): seq<string> {
    if header == [] then []
    else
      var rest := KeptLines(header[..|header| - 1], oldPath);
      var last := header[|header| - 1];
      if IsDeletedMode(last) then rest
      else if last == "+++ /dev/null" then rest + [NewPathLine(TargetOf(oldPath))]
      else rest + [last]
  }

  function KeptHeader(header: seq<string>): seq<string> {
    var oldPath := LastField(header, "--- ", "");
    if !HasDeletedMode(header) || oldPath == "" then header else KeptLines(header, oldPath)
  }

  function GitLine(source: string, target: string): string {
    "diff --git " + source + " " + target
  }

  function OldPathLine(path: string): string {
    "--- " + path
  }

  function NewPathLine(path: string): string {
    "+++ " + path
  }

  function NewFileLine(mode: string): string {
    "new file mode " + mode
  }

  function DiscardedHeader(header: seq<string>): seq<string> {
    var oldPath := LastField(header, "--- ", "");
    var newPath := LastField(header, "+++ ", "");
    if newPath == "/dev/null" then
      var target := TargetOf(oldPath);
      [GitLine(oldPath, target), NewFileLine(LastField(header, "deleted file mode ", "100644")),
       OldPathLine("/dev/null"), NewPathLine(target)]
    else
      var source := ReplaceFirst(newPath, "b/", "a/");
      [GitLine(source, newPath), OldPathLine(source), NewPathLine(newPath)]
  }

  function FinalHeader(s: Scan, discard: bool): seq<string> {
    if discard then DiscardedHeader(s.header)
    else if s.selectedDeletions < s.totalDeletions then KeptHeader(s.header)
    else s.header
  }

  function PatchText(s: Scan, discard: bool): string {
    var body := Render(Emitted(s.hunks, 0));
    if body == [] then "" else Join(FinalHeader(s, discard) + body) + "\n"
  }

  /** The patch for a selection, as a function of the diff text. */
  function SelectionPatch(diff: string, selected: set<int>, discard: bool): Result<string, PatchError> {
    var scan := ScanFrom(Split(diff), 0, START_OF_SCAN, selected, discard);
    if scan.Err? then Err(scan.error) else Ok(PatchText(scan.value, discard))
  }

  // ----- the builder -----

  /** The variables the scanning loop and its `keep` closure share. */
  class PatchScan {
    var header: seq<string>
    var hunks: seq<PatchHunk>
    var lastLineKept: bool
    var totalDeletions: int
    var selectedDeletions: int

    ghost function Value(): Scan
      reads this
    {
      Scan(header, hunks, lastLineKept, totalDeletions, selectedDeletions)
    }

    constructor ()
      ensures Value() == START_OF_SCAN
    {
      header, hunks, lastLineKept, totalDeletions, selectedDeletions := [], [], false, 0, 0;
    }

    method Keep(line: string, inOld: bool, inNew: bool, isChange: bool)
      requires hunks != [] && IsContent(line)
      requires inOld == (line[0] != '+') && inNew == (line[0] != '-') && isChange == (line[0] != ' ')
      modifies this
      ensures Value() == ExtendLast(old(Value()), [line]).(lastLineKept := true)
    {
      var last := |hunks| - 1;
      var current := hunks[last];
      current := current.(lines := current.lines + [line]);
      if inOld {
        current := current.(oldCount := current.oldCount + 1);
      }
      if inNew {
        current := current.(newCount := current.newCount + 1);
      }
      if isChange {
        current := current.(hasChanges := true);
      }
      SidesOfOne(line);
      hunks := hunks[last := current];
      lastLineKept := true;
    }

    method AddedLine(line: string, picked: bool, discard: bool)
      requires hunks != [] && IsContent(line) && line[0] == '+'
      modifies this
      ensures Value() == ContentStep(old(Value()), line, picked, discard)
    {
      NothingToAdd(Value());
      if discard && picked {
        Keep("-" + line[1..], true, false, true);
      } else if discard {
        Keep(" " + line[1..], true, true, false);
      } else if picked {
        Keep(line, false, true, true);
      } else {
        lastLineKept := false;
      }
    }

    method DeletedLine(line: string, picked: bool, discard: bool)
      requires hunks != [] && IsContent(line) && line[0] == '-'
      modifies this
      ensures Value() == ContentStep(old(Value()), line, picked, discard)
    {
      NothingToAdd(Value());
      totalDeletions := totalDeletions + 1;
      if discard && picked {
        Keep("+" + line[1..], false, true, true);
      } else if discard {
        lastLineKept := false;
      } else if picked {
        selectedDeletions := selectedDeletions + 1;
        Keep(line, true, false, true);
      } else {
        Keep(" " + line[1..], true, true, false);
      }
    }

    method Line(index: int, line: string, selected: set<int>, discard: bool) returns (r: Result<(), PatchError>)
      modifies this
      ensures match Step(old(Value()), index, line, selected, discard)
              case Ok(next) => r.Ok? && Value() == next
              case Err(e) => r == Err(e)
    {
      hide ParseHeader;
      if "diff " <= line {
        if hunks != [] {
          return Err(MoreThanOneFile);
        }
        header := header + [line];
      } else if "@@" <= line {
        var matched := ParseHeader(line);
        if matched.None? {
          return Err(InvalidHunkHeader(line));
        }
        var start := matched.value.oldStart;
        if discard {
          start := matched.value.newStart;
        }
        hunks := hunks + [PatchHunk(start, 0, 0, false, [])];
        lastLineKept := false;
      } else if hunks == [] {
        if line != "" && !("index " <= line) {
          header := header + [line];
        }
      } else if "+" <= line {
        AddedLine(line, index in selected, discard);
      } else if "-" <= line {
        DeletedLine(line, index in selected, discard);
      } else if " " <= line {
        Keep(line, true, true, false);
      } else if "\\" <= line {
        if lastLineKept {
          SidesOfOne(line);
          var last := |hunks| - 1;
          hunks := hunks[last := hunks[last].(lines := hunks[last].lines + [line])];
        }
      }
      return Ok(());
    }
  }

  lemma NothingToAdd(s: Scan)
    requires s.hunks != []
    ensures ExtendLast(s, []) == s
  {
    var h := s.hunks[|s.hunks| - 1];
    assert h.lines + [] == h.lines;
    assert Extend(h, []) == h;
  }

  method KeepDeletedFileAsModified(header: seq<string>) returns (result: seq<string>)
    ensures result == KeptHeader(header)
  {
    var oldPath := "";
    var isDeleted := false;
    for i := 0 to |header|
      invariant oldPath == LastField(header[..i], "--- ", "")
      invariant isDeleted == exists k :: 0 <= k < i && IsDeletedMode(header[k])
    {
      assert header[..i + 1] == header[..i] + [header[i]];
      assert header[..i + 1][..i] == header[..i];
      if "--- " <= header[i] {
        oldPath := header[i][4..];
      }
      if "deleted file mode" <= header[i] {
        isDeleted := true;
      }
    }
    assert header[..|header|] == header;
    if !isDeleted || oldPath == "" {
      return header;
    }
    result := [];
    for i := 0 to |header|
      invariant result == KeptLines(header[..i], oldPath)
    {
      assert header[..i + 1][..i] == header[..i];
      if "deleted file mode" <= header[i] {
        continue;
      } else if header[i] == "+++ /dev/null" {
        result := result + [NewPathLine(ReplaceFirst(oldPath, "a/", "b/"))];
      } else {
        result := result + [header[i]];
      }
    }
  }

  lemma DistinctPrefixes(line: string)
    ensures "--- " <= line ==> line[0] == '-'
    ensures "+++ " <= line ==> line[0] == '+'
    ensures "deleted file mode " <= line ==> line[0] == 'd'
  {
  }

  method DiscardHeader(header: seq<string>) returns (result: seq<string>)
    ensures result == DiscardedHeader(header)
  {
    var mode := "100644";
    var oldPath, newPath := "", "";
    for i := 0 to |header|
      invariant oldPath == LastField(header[..i], "--- ", "")
      invariant newPath == LastField(header[..i], "+++ ", "")
      invariant mode == LastField(header[..i], "deleted file mode ", "100644")
    {
      assert header[..i + 1][..i] == header[..i];
      DistinctPrefixes(header[i]);
      if "--- " <= header[i] {
        oldPath := header[i][4..];
      } else if "+++ " <= header[i] {
        newPath := header[i][4..];
      } else if "deleted file mode " <= header[i] {
        mode := header[i][18..];
      }
    }
    assert header[..|header|] == header;
    if newPath == "/dev/null" {
      var target := ReplaceFirst(oldPath, "a/", "b/");
      return [GitLine(oldPath, target), NewFileLine(mode), OldPathLine("/dev/null"), NewPathLine(target)];
    }
    var source := ReplaceFirst(newPath, "b/", "a/");
    return [GitLine(source, newPath), OldPathLine(source), NewPathLine(newPath)];
  }

  /** What the second loop still has to add to the body after `done`. */
  ghost predicate Remaining(done: seq<string>, hunks: seq<PatchHunk>, i: nat, delta: int)
    requires i <= |hunks|
  {
    done + Render(Emitted(hunks[i..], delta)) == Render(Emitted(hunks, 0))
  }

  lemma RemainingStart(hunks: seq<PatchHunk>)
    ensures Remaining([], hunks, 0, 0)
  {
    assert hunks[0..] == hunks;
  }

  lemma RemainingEnd(done: seq<string>, hunks: seq<PatchHunk>, delta: int)
    requires Remaining(done, hunks, |hunks|, delta)
    ensures done == Render(Emitted(hunks, 0))
  {
  }

  lemma RemainingStep(done: seq<string>, hunks: seq<PatchHunk>, i: nat, delta: int)
    requires i < |hunks| && Remaining(done, hunks, i, delta)
    ensures !hunks[i].hasChanges ==> Remaining(done, hunks, i + 1, delta)
    ensures hunks[i].hasChanges ==>
              Remaining(done + [FormatHeader(EmittedHeader(hunks[i], delta))] + hunks[i].lines,
                        hunks, i + 1, delta + hunks[i].newCount - hunks[i].oldCount)
  {
    hide FormatHeader;
    assert hunks[i..][0] == hunks[i] && hunks[i..][1..] == hunks[i + 1..];
    if hunks[i].hasChanges {
      var head := [FormatHeader(EmittedHeader(hunks[i], delta))];
      var emitted := Emitted(hunks[i..], delta);
      var rest := Emitted(hunks[i + 1..], delta + hunks[i].newCount - hunks[i].oldCount);
      assert emitted[1..] == rest;
      assert done + head + hunks[i].lines + Render(rest) == done + (head + hunks[i].lines + Render(rest));
    }
  }

  /** The second loop of the builder, which carries the offset between old and new positions. */
  method PatchBody(hunks: seq<PatchHunk>) returns (body: seq<string>)
    ensures body == Render(Emitted(hunks, 0))
  {
    hide FormatHeader, Remaining, Render, Emitted;
    body := [];
    var delta := 0;
    RemainingStart(hunks);
    for i := 0 to |hunks|
      invariant Remaining(body, hunks, i, delta)
    {
      var hunk := hunks[i];
      RemainingStep(body, hunks, i, delta);
      if !hunk.hasChanges {
        continue;
      }
      var newStart := hunk.oldStart + delta;
      if hunk.oldCount == 0 {
        newStart := newStart + 1;
      }
      if hunk.newCount == 0 {
        newStart := newStart - 1;
      }
      body := body + [FormatHeader(Header(hunk.oldStart, hunk.oldCount, newStart, hunk.newCount))];
      body := body + hunk.lines;
      delta := delta + (hunk.newCount - hunk.oldCount);
    }
    RemainingEnd(body, hunks, delta);
  }

  method BuildSelectionPatch(diff: string, selectedLines: seq<int>, discard: bool)
    returns (r: Result<string, PatchError>)
    ensures r == SelectionPatch(diff, (set index | index in selectedLines), discard)
  {
    var selected := {};
    for i := 0 to |selectedLines|
      invariant selected == set index | index in selectedLines[..i]
    {
      selected := selected + {selectedLines[i]};
    }
    assert selectedLines[..|selectedLines|] == selectedLines;

    var scan := new PatchScan();
    var lines := Split(diff);
    for i := 0 to |lines|
      invariant fresh(scan)
      invariant ScanFrom(lines, i, scan.Value(), selected, discard)
                == ScanFrom(lines, 0, START_OF_SCAN, selected, discard)
    {
      var step := scan.Line(i, lines[i], selected, discard);
      if step.Err? {
        return Err(step.error);
      }
    }

    var body := PatchBody(scan.hunks);
    if |body| == 0 {
      return Ok("");
    }

    var header := scan.header;
    if discard {
      header := DiscardHeader(header);
    } else if scan.selectedDeletions < scan.totalDeletions {
      header := KeepDeletedFileAsModified(header);
    }
    return Ok(Join(header + body) + "\n");
  }
}
